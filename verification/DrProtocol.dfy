// The snapshot protocol of one folder in the DR synchronisation DAG, as a transition
// system over the HDFS calls of a run. Users may rewrite the live folder on the main
// site between any two calls; a run may fail or crash at any point; one run is active
// at a time; nobody but the run writes to the DR site.

module DrProtocol {
  import opened Snapshots
  import opened HdfsTree

  datatype Site = Site(present: bool, live: Tree, snaps: map<Snapshot, Tree>) {
    ghost function LatestNumber(): int {
      Latest(snaps.Keys)
    }

    /** The site after a snapshot of its live folder is created. */
    function With(id: Snapshot): Site {
      this.(snaps := snaps[id := live])
    }

    /** The site after a snapshot is deleted, if it was there. */
    function Without(id: Snapshot): Site {
      this.(snaps := snaps - {id})
    }
  }

  /** Full: initialise DR from one snapshot. Incremental: bring DR from snapshot n-1 to snapshot n. */
  datatype CopyKind = Full | Incremental

  /** Where the active run stands; each value names the call it makes next. */
  datatype Pc =
    | Idle
    | DeletingMain(n: nat)
    | CreatingMain(n: nat, kind: CopyKind)
    | Copying(n: nat, kind: CopyKind)
    | Copied(n: nat, kind: CopyKind)
    | CreatingDr(latest: int)
    | Comparing(latest: int)
    | DeletingMainBase(latest: int)
    | DeletingDrBase(latest: int)

  datatype State = State(main: Site, dr: Site, pc: Pc, completed: nat)

  // ---------- the decision of check_folder_state ----------

  datatype Refusal =
    | MainFolderMissing
    | DrFolderMissing
    | DrNotEmptyWithoutMainSnapshots
    | DrNotEmptyWithoutDrSnapshots
    | NumbersDiffer

  datatype Decision =
    | Raise(why: Refusal)
    | Initialize            // no snapshot on main: create number 1, copy it in full
    | Reinitialize(n: nat)  // snapshots on main only: recreate the latest, copy it in full
    | Update(n: nat)        // n is the latest number on both sites: create n+1, copy the difference

  ghost function Decide(main: Site, dr: Site): Decision {
    var m, d := main.LatestNumber(), dr.LatestNumber();
    if !main.present then Raise(MainFolderMissing)
    else if !dr.present then Raise(DrFolderMissing)
    else if m == -1 then
      if |Listing(dr.live)| > 0 || d != -1 then Raise(DrNotEmptyWithoutMainSnapshots) else Initialize
    else if d == -1 then
      if |Listing(dr.live)| > 0 then Raise(DrNotEmptyWithoutDrSnapshots) else Reinitialize(m)
    else if m != d then Raise(NumbersDiffer)
    else Update(m)
  }

  function PcOf(d: Decision): Pc {
    match d
    case Raise(_) => Idle
    case Initialize => CreatingMain(1, Full)
    case Reinitialize(n) => DeletingMain(n)
    case Update(n) => CreatingMain(n + 1, Incremental)
  }

  // ---------- steps ----------

  /** Users rewrite the live folder on the main site. */
  ghost predicate UserWrite(s: State, t: State) {
    t == s.(main := s.main.(live := t.main.live))
  }

  /** The run fails or crashes before its next call; an interrupted copy leaves anything in the DR folder. */
  ghost predicate Crash(s: State, t: State) {
    && s.pc != Idle
    && t == s.(pc := Idle, dr := s.dr.(live := t.dr.live))
    && (s.pc.Copying? || t.dr.live == s.dr.live)
  }

  ghost predicate Begin(s: State, t: State) {
    s.pc == Idle && t == s.(pc := PcOf(Decide(s.main, s.dr)))
  }

  ghost predicate DeleteMain(s: State, t: State) {
    && s.pc.DeletingMain?
    && Numbered(s.pc.n) in s.main.snaps
    && t == s.(main := s.main.Without(Numbered(s.pc.n)), pc := CreatingMain(s.pc.n, Full))
  }

  ghost predicate CreateMain(s: State, t: State) {
    && s.pc.CreatingMain?
    && Numbered(s.pc.n) !in s.main.snaps
    && t == s.(main := s.main.With(Numbered(s.pc.n)), pc := Copying(s.pc.n, s.pc.kind))
  }

  /** The copy succeeds: distcp needs its snapshots, and an incremental copy an unmodified DR folder. */
  ghost predicate Copy(s: State, t: State) {
    && s.pc.Copying?
    && Numbered(s.pc.n) in s.main.snaps
    && (match s.pc.kind
        case Full =>
          t.dr.live == Overlay(s.main.snaps[Numbered(s.pc.n)], s.dr.live)
        case Incremental =>
          var base := Numbered(s.pc.n - 1);
          && base in s.main.snaps && base in s.dr.snaps
          && s.dr.live == s.dr.snaps[base]
          && t.dr.live == Apply(SnapshotDiff(s.main.snaps[base], s.main.snaps[Numbered(s.pc.n)]), s.dr.live))
    && t == s.(dr := s.dr.(live := t.dr.live), pc := Copied(s.pc.n, s.pc.kind))
  }

  /** validate_distcp_successful does not know the number chosen earlier; it reads the latest one on main again. */
  ghost predicate ReadLatest(s: State, t: State) {
    s.pc.Copied? && t == s.(pc := CreatingDr(s.main.LatestNumber()))
  }

  ghost predicate CreateDr(s: State, t: State) {
    && s.pc.CreatingDr?
    && Numbered(s.pc.latest) !in s.dr.snaps
    && t == s.(dr := s.dr.With(Numbered(s.pc.latest)), pc := Comparing(s.pc.latest))
  }

  /** Listing a snapshot that is absent fails; different lists raise and end the run. */
  ghost predicate Compare(s: State, t: State) {
    && s.pc.Comparing?
    && Numbered(s.pc.latest) in s.main.snaps && Numbered(s.pc.latest) in s.dr.snaps
    && t == s.(pc := if Listing(s.main.snaps[Numbered(s.pc.latest)]) == Listing(s.dr.snaps[Numbered(s.pc.latest)])
                     then DeletingMainBase(s.pc.latest) else Idle)
  }

  /** Deletes the previous snapshot on the main site if it is there. */
  ghost predicate DeleteMainBase(s: State, t: State) {
    && s.pc.DeletingMainBase?
    && t == s.(main := s.main.Without(Numbered(s.pc.latest - 1)), pc := DeletingDrBase(s.pc.latest))
  }

  ghost predicate DeleteDrBase(s: State, t: State) {
    && s.pc.DeletingDrBase?
    && t == s.(dr := s.dr.Without(Numbered(s.pc.latest - 1)), pc := Idle, completed := s.completed + 1)
  }

  /** A step of the run that does what the call was asked to do. */
  ghost predicate Work(s: State, t: State) {
    || Begin(s, t)
    || DeleteMain(s, t)
    || CreateMain(s, t)
    || Copy(s, t)
    || ReadLatest(s, t)
    || CreateDr(s, t)
    || Compare(s, t)
    || DeleteMainBase(s, t)
    || DeleteDrBase(s, t)
  }

  ghost predicate Next(s: State, t: State) {
    UserWrite(s, t) || Crash(s, t) || Work(s, t)
  }

  /** No run has been started and DR carries no snapshot of ours; everything else is arbitrary. */
  ghost predicate Init(s: State) {
    s.pc == Idle && s.completed == 0 && s.dr.LatestNumber() == -1
  }

  // ---------- the invariant ----------

  /** A snapshot number present on both sites names the same content. */
  ghost predicate CommonAgree(s: State) {
    forall n: nat | Numbered(n) in s.main.snaps && Numbered(n) in s.dr.snaps ::
      s.main.snaps[Numbered(n)] == s.dr.snaps[Numbered(n)]
  }

  /** The number is on both sites with identical content: DR can be rolled back to it and resume from it. */
  ghost predicate RecoveryPoint(s: State, n: nat) {
    && Numbered(n) in s.main.snaps && Numbered(n) in s.dr.snaps
    && s.main.snaps[Numbered(n)] == s.dr.snaps[Numbered(n)]
  }

  /** What holds between calls, whatever the run is doing. */
  ghost predicate SitesInv(s: State) {
    var m, d := s.main.LatestNumber(), s.dr.LatestNumber();
    && CommonAgree(s)
    && (d >= 0 ==> d <= m && RecoveryPoint(s, d))
    && (d >= 0 && m == d ==> s.dr.live == s.dr.snaps[Numbered(d)])
    && (s.completed > 0 ==> d >= 0)
  }

  /** What the run relies on at each of its calls. */
  ghost predicate PcInv(s: State) {
    var m, d := s.main.LatestNumber(), s.dr.LatestNumber();
    match s.pc
    case Idle => true
    case DeletingMain(n) => d == -1 && m == n && s.dr.live == map[]
    case CreatingMain(n, Full) => d == -1 && m <= n && s.dr.live == map[]
    case CreatingMain(n, Incremental) => 0 <= d == m == n - 1
    case Copying(n, Full) => d == -1 && m == n && Numbered(n) in s.main.snaps && s.dr.live == map[]
    case Copying(n, Incremental) =>
      0 <= d == n - 1 && m == n && Numbered(n) in s.main.snaps &&
      Numbered(d) in s.dr.snaps && s.dr.live == s.dr.snaps[Numbered(d)]
    case Copied(n, _) => d < m == n && (d == -1 || d == n - 1) && RecoverableCopy(s, n)
    case CreatingDr(n) => 0 <= n && d < m == n && (d == -1 || d == n - 1) && RecoverableCopy(s, n)
    case Comparing(n) => 0 <= d == m == n
    case DeletingMainBase(n) => 0 <= d == m == n
    case DeletingDrBase(n) => 0 <= d == m == n
  }

  ghost predicate RecoverableCopy(s: State, n: nat) {
    Numbered(n) in s.main.snaps && s.dr.live == s.main.snaps[Numbered(n)]
  }

  ghost predicate Inv(s: State) {
    SitesInv(s) && PcInv(s)
  }
}
