// The tasks of one folder in the DR synchronisation DAG, statement by statement, on two
// mutable HDFS folders. Each task is proved to perform only steps of the protocol of
// DrProtocol, so that the theorems of DrHistory hold of the code.

module DrSync {
  import opened SnapshotNames
  import opened Snapshots
  import opened HdfsTree
  import opened DrProtocol
  import opened DrInvariant
  import opened DrHistory

  /** The outcome of a WebHDFS call that only reads: it may fail to answer. */
  datatype Answer<T> = Answer(value: T) | NoAnswer

  // ---------- folders ----------

  /** A folder on one HDFS cluster. Snapshots are told apart by their names: see SnapshotNames.TextOf.
      Every call may fail, before or after taking effect, unless the cluster is up throughout. */
  class HdfsFolder {
    var up: bool
    var present: bool
    var snapshottable: bool
    var live: Tree
    var snaps: map<Snapshot, Tree>

    ghost predicate Valid()
      reads this
    {
      && (!snapshottable ==> snaps == map[])
      && forall id | id in snaps :: WellNamed(id)
    }

    ghost function Abs(): Site
      reads this
    {
      Site(present, live, snaps)
    }

    /** Users replace what is in the live folder. */
    method UserWrites(content: Tree)
      modifies this`live
      ensures live == content
    {
      live := content;
    }

    method CheckForPath() returns (a: Answer<bool>)
      ensures a.Answer? ==> a.value == present
      ensures up ==> a.Answer?
    {
      var answers := *;
      a := if up || answers then Answer(present) else NoAnswer;
    }

    method CheckForSnapshotDir() returns (a: Answer<bool>)
      ensures a.Answer? ==> a.value == snapshottable
      ensures up ==> a.Answer?
    {
      var answers := *;
      a := if up || answers then Answer(snapshottable) else NoAnswer;
    }

    method CheckForSnapshot(id: Snapshot) returns (a: Answer<bool>)
      ensures a.Answer? ==> a.value == (id in snaps)
      ensures up ==> a.Answer?
    {
      var answers := *;
      a := if up || answers then Answer(id in snaps) else NoAnswer;
    }

    method ListLive() returns (a: Answer<set<string>>)
      ensures a.Answer? ==> a.value == Listing(live)
      ensures up ==> a.Answer?
    {
      var answers := *;
      a := if up || answers then Answer(Listing(live)) else NoAnswer;
    }

    /** Lists the top level of a snapshot; a missing snapshot is an error. */
    method ListSnapshot(id: Snapshot) returns (a: Answer<set<string>>)
      ensures a.Answer? ==> id in snaps && a.value == Listing(snaps[id])
      ensures up && id in snaps ==> a.Answer?
    {
      var answers := *;
      a := if (up || answers) && id in snaps then Answer(Listing(snaps[id])) else NoAnswer;
    }

    /** The names below `.snapshot`, in some order. */
    method ListSnapshotNames() returns (a: Answer<seq<string>>)
      requires Valid()
      ensures a.Answer? ==> Ids(set name | name in a.value) == snaps.Keys
      ensures up ==> a.Answer?
    {
      var answers := *;
      if !up && !answers {
        return NoAnswer;
      }
      var names, todo := [], snaps.Keys;
      while todo != {}
        invariant todo <= snaps.Keys
        invariant Ids(set name | name in names) == snaps.Keys - todo
        decreases todo
      {
        var id :| id in todo;
        IdOfText(id, TextOf(id));
        assert (set name | name in names + [TextOf(id)]) == (set name | name in names) + {TextOf(id)};
        IdsAdd((set name | name in names), TextOf(id));
        names, todo := names + [TextOf(id)], todo - {id};
      }
      a := Answer(names);
    }

    /** Creates a snapshot of the live folder under a name not yet used. */
    method CreateSnapshot(id: Snapshot) returns (ok: bool)
      requires Valid() && WellNamed(id)
      modifies this`snaps
      ensures Valid()
      ensures ok ==> Abs() != old(Abs())
      ensures Abs() != old(Abs()) ==> id !in old(snaps) && Abs() == old(Abs()).With(id)
      ensures up && snapshottable && id !in old(snaps) ==> ok
    {
      var arrives, answers := *, *;
      ok := false;
      if (up || arrives) && snapshottable && id !in snaps {
        snaps := snaps[id := live];
        assert id in snaps;
        ok := up || answers;
      }
    }

    method DeleteSnapshot(id: Snapshot) returns (ok: bool)
      requires Valid()
      modifies this`snaps
      ensures Valid()
      ensures ok ==> Abs() != old(Abs())
      ensures Abs() != old(Abs()) ==> id in old(snaps) && Abs() == old(Abs()).Without(id)
      ensures up && id in old(snaps) ==> ok
    {
      var arrives, answers := *, *;
      ok := false;
      if (up || arrives) && id in snaps {
        snaps := snaps - {id};
        assert id !in snaps;
        ok := up || answers;
      }
    }

    /** The DAG looks before it deletes; a snapshot that is not there is no failure. */
    method DeleteSnapshotIfPresent(id: Snapshot) returns (ok: bool)
      requires Valid()
      modifies this`snaps
      ensures Valid()
      ensures ok || Abs() != old(Abs()) ==> Abs() == old(Abs()).Without(id)
      ensures up ==> ok
    {
      var there := CheckForSnapshot(id);
      ok := there.Answer?;
      if ok && there.value {
        ok := DeleteSnapshot(id);
      }
    }
  }

  /** get_latest_snapshot_number */
  method GetLatestSnapshotNumber(folder: HdfsFolder) returns (a: Answer<int>)
    requires folder.Valid()
    ensures a.Answer? ==> a.value == folder.Abs().LatestNumber()
    ensures folder.up ==> a.Answer?
  {
    var dir := folder.CheckForSnapshotDir();
    if dir.NoAnswer? {
      return NoAnswer;
    }
    if !dir.value {
      LatestNone(folder.snaps.Keys);
      return Answer(-1);
    }
    var names := folder.ListSnapshotNames();
    if names.NoAnswer? {
      return NoAnswer;
    }
    var latest := GetLatest(names.value);
    a := Answer(latest);
  }

  /** The reading part of check_folder_state: every refusal and choice in the order the function tests them. */
  method Classify(main: HdfsFolder, dr: HdfsFolder) returns (a: Answer<Decision>)
    requires main.Valid() && dr.Valid()
    ensures a.Answer? ==> a.value == Decide(main.Abs(), dr.Abs())
    ensures main.up && dr.up ==> a.Answer?
  {
    var mainThere := main.CheckForPath();
    if mainThere.NoAnswer? { return NoAnswer; }
    if !mainThere.value { return Answer(Raise(MainFolderMissing)); }
    var drThere := dr.CheckForPath();
    if drThere.NoAnswer? { return NoAnswer; }
    if !drThere.value { return Answer(Raise(DrFolderMissing)); }

    var mainLatest := GetLatestSnapshotNumber(main);
    if mainLatest.NoAnswer? { return NoAnswer; }
    var drLatest := GetLatestSnapshotNumber(dr);
    if drLatest.NoAnswer? { return NoAnswer; }

    if mainLatest.value == -1 {
      var listing := dr.ListLive();
      if listing.NoAnswer? { return NoAnswer; }
      if |listing.value| > 0 || drLatest.value != -1 {
        return Answer(Raise(DrNotEmptyWithoutMainSnapshots));
      }
      return Answer(Initialize);
    }
    if drLatest.value == -1 {
      var listing := dr.ListLive();
      if listing.NoAnswer? { return NoAnswer; }
      if |listing.value| > 0 {
        return Answer(Raise(DrNotEmptyWithoutDrSnapshots));
      }
      return Answer(Reinitialize(mainLatest.value));
    }
    if mainLatest.value != drLatest.value {
      return Answer(Raise(NumbersDiffer));
    }
    a := Answer(Update(mainLatest.value));
  }

  /** distcp finds its snapshots and, for a differential copy, an unmodified DR folder. */
  predicate CopyPossible(main: Site, dr: Site, n: nat, kind: CopyKind) {
    && Numbered(n) in main.snaps
    && (kind == Incremental ==>
          && Numbered(n - 1) in main.snaps && Numbered(n - 1) in dr.snaps
          && dr.live == dr.snaps[Numbered(n - 1)])
  }

  /** `hadoop distcp`, trusted to do what it documents when it reports success. The incremental form refuses a DR
      folder that differs from its base snapshot; on any failure the DR folder may hold anything. */
  method HadoopDistCp(main: HdfsFolder, dr: HdfsFolder, n: nat, kind: CopyKind) returns (ok: bool)
    requires main != dr
    modifies dr`live
    ensures ok ==>
      var source, base := Numbered(n), Numbered(n - 1);
      var m, d := main.snaps, dr.snaps;
      && source in m
      && (kind == Full ==> dr.live == Overlay(m[source], old(dr.live)))
      && (kind == Incremental ==>
            && base in m && base in d && old(dr.live) == d[base]
            && dr.live == Apply(SnapshotDiff(m[base], m[source]), old(dr.live)))
    ensures main.up && dr.up && old(CopyPossible(main.Abs(), dr.Abs(), n, kind)) ==> ok
  {
    var source, base := Numbered(n), Numbered(n - 1);
    ok := *;
    ok := ok || (main.up && dr.up);
    if ok && kind == Full && source in main.snaps {
      dr.live := Overlay(main.snaps[source], dr.live);
    } else if ok && kind == Incremental && source in main.snaps && base in main.snaps && base in dr.snaps
              && dr.live == dr.snaps[base] {
      dr.live := Apply(SnapshotDiff(main.snaps[base], main.snaps[source]), dr.live);
    } else {
      ok := false;
      dr.live := *;
    }
  }

  // ---------- the run ----------

  /** How check_folder_state ends: it refuses, an HDFS call fails, or it chooses a copy task. */
  datatype CheckResult = Refused(why: Refusal) | CallFailed | Branch(n: nat, kind: CopyKind)

  function PcAfterCheck(r: CheckResult): Pc {
    if r.Branch? then Copying(r.n, r.kind) else Idle
  }

  /** What check_folder_state raises or returns when no HDFS call fails. */
  function Outcome(d: Decision): CheckResult {
    match d
    case Raise(why) => Refused(why)
    case Initialize => Branch(1, Full)
    case Reinitialize(n) => Branch(n, Full)
    case Update(n) => Branch(n + 1, Incremental)
  }

  lemma DecideIgnoresLive(main: Site, live: Tree, dr: Site)
    ensures Decide(main.(live := live), dr) == Decide(main, dr)
  {
  }

  /** Reinitialising deletes the latest snapshot under the name the DAG gives it. Nothing else can stand in the way
      of a run during which both clusters are up. */
  predicate Deletable(main: Site, d: Decision) {
    d.Reinitialize? ==> Numbered(d.n) in main.snaps
  }

  // What the tasks rely on when they start.

  lemma ReadyToCopy(start: State, s: State)
    requires Reaches(start, s) && Inv(start) && s.pc.Copying?
    ensures CopyPossible(s.main, s.dr, s.pc.n, s.pc.kind)
  {
    ReachesKeeps(start, s);
  }

  lemma ReadsChosen(start: State, s: State)
    requires Reaches(start, s) && Inv(start) && s.pc.Copied?
    ensures s.main.LatestNumber() == s.pc.n
  {
    ReachesKeeps(start, s);
  }

  lemma DrNumberFree(start: State, s: State)
    requires Reaches(start, s) && Inv(start) && s.pc.CreatingDr?
    ensures s.pc.latest >= 0 && Numbered(s.pc.latest) !in s.dr.snaps
  {
    ReachesKeeps(start, s);
    LatestAtLeast(s.dr.snaps.Keys, s.pc.latest);
  }

  lemma ListingsAlike(start: State, s: State)
    requires Reaches(start, s) && Inv(start) && s.pc.Comparing?
    ensures s.pc.latest >= 0 && RecoveryPoint(s, s.pc.latest)
  {
    ReachesKeeps(start, s);
    ComparesAlike(s);
  }

  /** Deleting the base keeps the number just copied the latest on both sites. */
  lemma LastDeletion(start: State, s: State)
    requires Reaches(start, s) && Inv(start) && s.pc.DeletingDrBase?
    ensures s.main.LatestNumber() == s.dr.LatestNumber() == s.pc.latest
    ensures s.dr.Without(Numbered(s.pc.latest - 1)).LatestNumber() == s.pc.latest
  {
    ReachesKeeps(start, s);
    RemovedSnapshot(s.dr.snaps, Numbered(s.pc.latest - 1));
  }

  /** Between runs, sites with the same latest number hold the same content under it, which is that of the DR folder. */
  lemma LevelSites(s: State)
    requires Inv(s) && s.dr.LatestNumber() == s.main.LatestNumber() >= 0
    ensures RecoveryPoint(s, s.dr.LatestNumber()) && s.dr.live == s.dr.snaps[Numbered(s.dr.LatestNumber())]
  {
  }

  class FolderSync {
    const main: HdfsFolder
    const dr: HdfsFolder
    ghost var completed: nat

    /** What users make of main's live folder, write after write, and how many of these writes have happened. */
    const users: nat -> Tree
    var written: nat

    constructor (main: HdfsFolder, dr: HdfsFolder, users: nat -> Tree)
      requires main != dr && main.Valid() && dr.Valid() && main.live == users(0)
      ensures this.main == main && this.dr == dr && this.users == users && Valid() && completed == 0 && written == 0
    {
      this.main, this.dr, this.users, this.completed, this.written := main, dr, users, 0, 0;
    }

    /** Nobody but users writes to main's live folder. */
    ghost predicate Valid()
      reads this, main, dr
    {
      main != dr && main.Valid() && dr.Valid() && main.live == users(written)
    }

    /** Users had made main's live folder hold this after one of the writes from lo to hi. */
    ghost predicate Wrote(content: Tree, lo: nat, hi: nat) {
      exists k: nat :: lo <= k <= hi && users(k) == content
    }

    /** Both clusters are up, and snapshots are allowed on both folders. */
    predicate Smooth()
      reads main, dr
    {
      main.up && dr.up && main.snapshottable && dr.snapshottable
    }

    /** n is the latest number on both sites, and its base is gone from both. */
    ghost predicate Level(n: int)
      reads main, dr
    {
      && main.Abs().LatestNumber() == dr.Abs().LatestNumber() == n
      && Numbered(n - 1) !in main.snaps && Numbered(n - 1) !in dr.snaps
    }

    /** DR has a snapshot n of its live folder, and the base is gone from both sites; nothing else changed. */
    ghost predicate CleanedUp(n: int, mainBefore: map<Snapshot, Tree>, drBefore: map<Snapshot, Tree>)
      reads main, dr
    {
      && main.snaps == mainBefore - {Numbered(n - 1)}
      && dr.snaps == drBefore[Numbered(n) := dr.live] - {Numbered(n - 1)}
    }

    /** The same before main's snapshot n and DR's are compared. */
    ghost predicate CopiedSince(n: int, mainBefore: map<Snapshot, Tree>, drBefore: map<Snapshot, Tree>, since: nat)
      reads this, main, dr
    {
      && Numbered(n) in main.snaps
      && main.snaps == mainBefore[Numbered(n) := main.snaps[Numbered(n)]] - {Numbered(n - 1)}
      && dr.snaps == drBefore[Numbered(n) := dr.live] - {Numbered(n - 1)}
      && Wrote(main.snaps[Numbered(n)], since, written)
    }

    /** Both sites have the snapshots they had, but for the base, and snapshot n, which is what DR's live folder holds
        and what users had written at some moment since. */
    ghost predicate RanWell(n: int, mainBefore: map<Snapshot, Tree>, drBefore: map<Snapshot, Tree>, since: nat)
      reads this, main, dr
    {
      && main.snaps == mainBefore[Numbered(n) := dr.live] - {Numbered(n - 1)}
      && dr.snaps == drBefore[Numbered(n) := dr.live] - {Numbered(n - 1)}
      && Wrote(dr.live, since, written)
    }

    /** Main has the snapshots it had, and snapshot n of what users had written at some moment since. */
    ghost predicate Created(n: int, before: map<Snapshot, Tree>, since: nat)
      reads this, main
    {
      && Numbered(n) in main.snaps
      && main.snaps == before[Numbered(n) := main.snaps[Numbered(n)]]
      && Wrote(main.snaps[Numbered(n)], since, written)
    }

    /** The protocol state the folders are in when the run stands at pc. */
    ghost function At(pc: Pc): State
      reads this, main, dr
    {
      State(main.Abs(), dr.Abs(), pc, completed)
    }

    /** Users write to main between two calls of the run, any number of times. */
    method Interleave(ghost start: State, ghost pc: Pc)
      requires Valid() && Reaches(start, At(pc))
      modifies main`live, this`written
      ensures Valid() && Reaches(start, At(pc)) && old(written) <= written
    {
      ghost var s := At(pc);
      var more: nat :| 0 <= more;
      written := written + more;
      main.UserWrites(users(written));
      ReachesStep(start, s, At(pc));
    }

    /** check_folder_state: refuses exactly as Decide says and then changes nothing; otherwise creates the
        snapshot to copy and chooses the copy Decide asks for. Only a failing call, or a latest snapshot whose name is
        not the one the DAG prints, can keep it from that. */
    method CheckFolderState(ghost decision: Decision) returns (r: CheckResult)
      requires Valid() && decision == Decide(main.Abs(), dr.Abs())
      modifies main`live, main`snaps, this`written
      ensures Valid() && old(written) <= written
      ensures Reaches(old(At(Idle)), At(PcAfterCheck(r)))
      ensures r == CallFailed || r == Outcome(decision)
      ensures Smooth() && old(Deletable(main.Abs(), decision)) ==> r != CallFailed
      ensures decision.Raise? ==> main.snaps == old(main.snaps)
      ensures r.Branch? ==> Created(r.n, old(main.snaps), old(written))
    {
      ghost var start := At(Idle);
      ReachesSelf(start);
      Interleave(start, Idle);
      DecideIgnoresLive(start.main, main.live, start.dr);
      var found := Classify(main, dr);
      if found.NoAnswer? {
        return CallFailed;
      }
      ReachesStep(start, At(Idle), At(PcOf(found.value)));
      r := CarryOut(start, found.value);
    }

    /** The writing part of check_folder_state. */
    method CarryOut(ghost start: State, decision: Decision) returns (r: CheckResult)
      requires Valid() && Reaches(start, At(PcOf(decision))) && decision == Decide(main.Abs(), dr.Abs())
      modifies main`live, main`snaps, this`written
      ensures Valid() && old(written) <= written
      ensures Reaches(start, At(PcAfterCheck(r)))
      ensures r == CallFailed || r == Outcome(decision)
      ensures Smooth() && old(Deletable(main.Abs(), decision)) ==> r != CallFailed
      ensures decision.Raise? ==> main.snaps == old(main.snaps)
      ensures r.Branch? ==> Created(r.n, old(main.snaps), old(written))
    {
      match decision
      case Raise(why) =>
        r := Refused(why);
      case Initialize =>
        LatestAtLeast(main.snaps.Keys, 1);
        r := CreateMainSnapshot(start, 1, Full);
      case Reinitialize(n) =>
        r := RecreateMainSnapshot(start, n);
      case Update(n) =>
        LatestAtLeast(main.snaps.Keys, n + 1);
        r := CreateMainSnapshot(start, n + 1, Incremental);
    }

    method RecreateMainSnapshot(ghost start: State, n: nat) returns (r: CheckResult)
      requires Valid() && Reaches(start, At(DeletingMain(n)))
      modifies main`live, main`snaps, this`written
      ensures Valid() && old(written) <= written
      ensures r == Branch(n, Full) || r == CallFailed
      ensures r.Branch? ==> Created(n, old(main.snaps), old(written))
      ensures Reaches(start, At(PcAfterCheck(r)))
      ensures Smooth() && Numbered(n) in old(main.snaps) ==> r != CallFailed
    {
      var deleted := DeleteMainSnapshot(start, n);
      if !deleted {
        return CallFailed;
      }
      r := CreateMainSnapshot(start, n, Full);
    }

    method DeleteMainSnapshot(ghost start: State, n: nat) returns (ok: bool)
      requires Valid() && Reaches(start, At(DeletingMain(n)))
      modifies main`live, main`snaps, this`written
      ensures Valid() && old(written) <= written
      ensures Reaches(start, At(if ok then CreatingMain(n, Full) else Idle))
      ensures ok ==> main.snaps == old(main.snaps) - {Numbered(n)}
      ensures Smooth() && Numbered(n) in old(main.snaps) ==> ok
    {
      Interleave(start, DeletingMain(n));
      ghost var s := At(DeletingMain(n));
      var id := Numbered(n);
      ok := main.DeleteSnapshot(id);
      if main.Abs() != s.main {
        ReachesStep(start, s, At(CreatingMain(n, Full)));
        s := At(CreatingMain(n, Full));
      }
      if !ok {
        ReachesStep(start, s, At(Idle));
      }
    }

    method CreateMainSnapshot(ghost start: State, n: nat, kind: CopyKind) returns (r: CheckResult)
      requires Valid() && Reaches(start, At(CreatingMain(n, kind)))
      modifies main`live, main`snaps, this`written
      ensures Valid() && old(written) <= written
      ensures r == Branch(n, kind) || r == CallFailed
      ensures r.Branch? ==> Created(n, old(main.snaps), old(written))
      ensures Reaches(start, At(PcAfterCheck(r)))
      ensures Smooth() && Numbered(n) !in old(main.snaps) ==> r != CallFailed
    {
      Interleave(start, CreatingMain(n, kind));
      ghost var s := At(CreatingMain(n, kind));
      var id := Numbered(n);
      var ok := main.CreateSnapshot(id);
      if main.Abs() != s.main {
        ReachesStep(start, s, At(Copying(n, kind)));
        s := At(Copying(n, kind));
      }
      r := if ok then Branch(n, kind) else CallFailed;
      if !ok {
        ReachesStep(start, s, At(Idle));
      }
    }

    /** The initialize or update task. */
    method DistCp(ghost start: State, n: nat, kind: CopyKind) returns (ok: bool)
      requires Valid() && Reaches(start, At(Copying(n, kind))) && Inv(start)
      modifies main`live, dr`live, this`written
      ensures Valid() && old(written) <= written
      ensures Reaches(start, At(if ok then Copied(n, kind) else Idle))
      ensures Smooth() ==> ok
    {
      Interleave(start, Copying(n, kind));
      ghost var s := At(Copying(n, kind));
      ReadyToCopy(start, s);
      ok := HadoopDistCp(main, dr, n, kind);
      if ok {
        ReachesStep(start, s, At(Copied(n, kind)));
      } else {
        ReachesStep(start, s, At(Idle));
      }
    }

    /** validate_distcp_successful: reads the latest number again, snapshots DR under it, compares the listings and
        deletes the bases, main's first. */
    method ValidateDistcpSuccessful(ghost start: State, ghost n: nat, ghost kind: CopyKind) returns (ok: bool)
      requires Valid() && Reaches(start, At(Copied(n, kind))) && Inv(start)
      modifies main`live, main`snaps, dr`snaps, this`completed, this`written
      ensures Valid() && old(written) <= written
      ensures Reaches(start, At(Idle))
      ensures old(completed) <= completed && (ok ==> completed == old(completed) + 1)
      ensures ok ==> Level(n) && CleanedUp(n, old(main.snaps), old(dr.snaps))
      ensures Smooth() ==> ok
    {
      Interleave(start, Copied(n, kind));
      var mainLatest := GetLatestSnapshotNumber(main);
      if mainLatest.NoAnswer? {
        ReachesStep(start, At(Copied(n, kind)), At(Idle));
        return false;
      }
      var latest := mainLatest.value;
      ReadsChosen(start, At(Copied(n, kind)));
      ReachesStep(start, At(Copied(n, kind)), At(CreatingDr(latest)));
      ok := CompareAndCleanUp(start, latest);
    }

    /** What validate_distcp_successful does with the number it read. */
    method CompareAndCleanUp(ghost start: State, latest: int) returns (ok: bool)
      requires Valid() && Reaches(start, At(CreatingDr(latest))) && Inv(start)
      modifies main`live, main`snaps, dr`snaps, this`completed, this`written
      ensures Valid() && old(written) <= written
      ensures Reaches(start, At(Idle))
      ensures old(completed) <= completed && (ok ==> completed == old(completed) + 1)
      ensures ok ==> Level(latest) && CleanedUp(latest, old(main.snaps), old(dr.snaps))
      ensures Smooth() ==> ok
    {
      ok := CreateDrSnapshot(start, latest);
      if ok {
        ok := CompareListings(start, latest);
      }
      if ok {
        ok := DeleteMainBase(start, latest);
      }
      if ok {
        ok := DeleteDrBase(start, latest);
      }
    }

    method CreateDrSnapshot(ghost start: State, latest: int) returns (ok: bool)
      requires Valid() && Reaches(start, At(CreatingDr(latest))) && Inv(start)
      modifies main`live, dr`snaps, this`written
      ensures Valid() && old(written) <= written
      ensures Reaches(start, At(if ok then Comparing(latest) else Idle))
      ensures ok ==> dr.snaps == old(dr.snaps)[Numbered(latest) := dr.live]
      ensures Smooth() ==> ok
    {
      Interleave(start, CreatingDr(latest));
      ghost var s := At(CreatingDr(latest));
      DrNumberFree(start, s);
      var id := Numbered(latest);
      ok := dr.CreateSnapshot(id);
      if dr.Abs() != s.dr {
        ReachesStep(start, s, At(Comparing(latest)));
        s := At(Comparing(latest));
      }
      if !ok {
        ReachesStep(start, s, At(Idle));
      }
    }

    method CompareListings(ghost start: State, latest: int) returns (ok: bool)
      requires Valid() && Reaches(start, At(Comparing(latest))) && Inv(start)
      modifies main`live, this`written
      ensures Valid() && old(written) <= written
      ensures Reaches(start, At(if ok then DeletingMainBase(latest) else Idle))
      ensures Smooth() ==> ok
    {
      Interleave(start, Comparing(latest));
      ListingsAlike(start, At(Comparing(latest)));
      var id := Numbered(latest);
      var mainList := main.ListSnapshot(id);
      var drList := dr.ListSnapshot(id);
      ok := mainList.Answer? && drList.Answer? && mainList.value == drList.value;
      if ok {
        ReachesStep(start, At(Comparing(latest)), At(DeletingMainBase(latest)));
      } else {
        ReachesStep(start, At(Comparing(latest)), At(Idle));
      }
    }

    method DeleteMainBase(ghost start: State, latest: int) returns (ok: bool)
      requires Valid() && Reaches(start, At(DeletingMainBase(latest)))
      modifies main`live, main`snaps, this`written
      ensures Valid() && old(written) <= written
      ensures Reaches(start, At(if ok then DeletingDrBase(latest) else Idle))
      ensures ok ==> main.snaps == old(main.snaps) - {Numbered(latest - 1)}
      ensures Smooth() ==> ok
    {
      Interleave(start, DeletingMainBase(latest));
      ghost var s := At(DeletingMainBase(latest));
      var base := Numbered(latest - 1);
      ok := main.DeleteSnapshotIfPresent(base);
      if ok || main.Abs() != s.main {
        ReachesStep(start, s, At(DeletingDrBase(latest)));
        s := At(DeletingDrBase(latest));
      }
      if !ok {
        ReachesStep(start, s, At(Idle));
      }
    }

    method DeleteDrBase(ghost start: State, latest: int) returns (ok: bool)
      requires Valid() && Reaches(start, At(DeletingDrBase(latest))) && Inv(start)
      modifies main`live, dr`snaps, this`completed, this`written
      ensures Valid() && old(written) <= written
      ensures Reaches(start, At(Idle))
      ensures old(completed) <= completed && (ok ==> completed == old(completed) + 1)
      ensures ok && Numbered(latest - 1) !in old(main.snaps) ==> Level(latest)
      ensures ok ==> dr.snaps == old(dr.snaps) - {Numbered(latest - 1)}
      ensures Smooth() ==> ok
    {
      Interleave(start, DeletingDrBase(latest));
      ghost var s := At(DeletingDrBase(latest));
      LastDeletion(start, s);
      var base := Numbered(latest - 1);
      ok := dr.DeleteSnapshotIfPresent(base);
      if ok || dr.Abs() != s.dr {
        completed := completed + 1;
        ReachesStep(start, s, At(Idle));
      } else {
        ReachesStep(start, s, At(Idle));
      }
    }

    /** One DAG run of the folder. It may stop between any two tasks. A refusal touches nothing but what users write.
        A run that ends well leaves the number it chose as the latest on both sites, with what users had written at some
        moment of the run, which the DR folder holds as well; the base is gone from both, and every other snapshot is as
        it was. It ends well if nothing fails on the way. */
    method RunOnce() returns (ok: bool)
      requires Valid() && Inv(At(Idle))
      modifies main`live, main`snaps, dr`live, dr`snaps, this`completed, this`written
      ensures Valid() && Inv(At(Idle)) && old(written) <= written
      ensures Reaches(old(At(Idle)), At(Idle))
      ensures old(dr.Abs().LatestNumber()) <= dr.Abs().LatestNumber()
      ensures completed > 0 ==> var n := dr.Abs().LatestNumber(); n >= 0 && RecoveryPoint(At(Idle), n)
      ensures var decision := old(Decide(main.Abs(), dr.Abs()));
        && (decision.Raise? ==> !ok && main.snaps == old(main.snaps) && dr.Abs() == old(dr.Abs()))
        && (main.up && dr.up && main.snapshottable && dr.snapshottable && !decision.Raise? ==>
            ok || (decision.Reinitialize? && Numbered(decision.n) !in old(main.snaps)))
        && (ok ==> Outcome(decision).Branch? && Level(Outcome(decision).n) && completed == old(completed) + 1)
      ensures ok ==>
        RanWell(Outcome(old(Decide(main.Abs(), dr.Abs()))).n, old(main.snaps), old(dr.snaps), old(written))
    {
      ghost var start := At(Idle);
      ghost var decision := Decide(main.Abs(), dr.Abs());
      ok := RunTasks(decision);
      ReachesKeeps(start, At(Idle));
      if ok {
        LevelSites(At(Idle));
      }
    }

    method RunTasks(ghost decision: Decision) returns (ok: bool)
      requires Valid() && Inv(At(Idle)) && decision == Decide(main.Abs(), dr.Abs())
      modifies main`live, main`snaps, dr`live, dr`snaps, this`completed, this`written
      ensures Valid() && Reaches(old(At(Idle)), At(Idle)) && old(written) <= written
      ensures decision.Raise? ==> !ok && main.snaps == old(main.snaps) && dr.Abs() == old(dr.Abs())
      ensures Smooth() && !decision.Raise? && old(Deletable(main.Abs(), decision)) ==> ok
      ensures ok ==> Outcome(decision).Branch? && Level(Outcome(decision).n) && completed == old(completed) + 1
      ensures ok ==> CopiedSince(Outcome(decision).n, old(main.snaps), old(dr.snaps), old(written))
    {
      ghost var start := At(Idle);
      ok := false;
      ghost var deletable := Deletable(main.Abs(), decision);
      var check := CheckFolderState(decision);
      assert check.Branch? ==> check == Outcome(decision) && !decision.Raise?;
      assert Smooth() && deletable && !decision.Raise? ==> check.Branch?;
      if check.Branch? {
        ghost var content := main.snaps[Numbered(check.n)];
        ok := CopyAndValidate(start, check.n, check.kind);
        assert Wrote(content, old(written), written);
      }
    }

    /** The tasks that follow the check. */
    method CopyAndValidate(ghost start: State, n: nat, kind: CopyKind) returns (ok: bool)
      requires Valid() && Reaches(start, At(Copying(n, kind))) && Inv(start)
      modifies main`live, main`snaps, dr`live, dr`snaps, this`completed, this`written
      ensures Valid() && old(written) <= written
      ensures Reaches(start, At(Idle))
      ensures ok ==> Level(n) && CleanedUp(n, old(main.snaps), old(dr.snaps)) && completed == old(completed) + 1
      ensures Smooth() ==> ok
    {
      ok := DistCpUnlessStopped(start, n, kind);
      if ok {
        ok := ValidateDistcpSuccessful(start, n, kind);
      }
    }

    method DistCpUnlessStopped(ghost start: State, n: nat, kind: CopyKind) returns (ok: bool)
      requires Valid() && Reaches(start, At(Copying(n, kind))) && Inv(start)
      modifies main`live, dr`live, this`written
      ensures Valid() && old(written) <= written
      ensures Reaches(start, At(if ok then Copied(n, kind) else Idle))
      ensures Smooth() ==> ok
    {
      var stopped := *;
      if stopped && !Smooth() {
        ReachesStep(start, At(Copying(n, kind)), At(Idle));
        return false;
      }
      ok := DistCp(start, n, kind);
      stopped := *;
      if ok && stopped && !Smooth() {
        ReachesStep(start, At(Copied(n, kind)), At(Idle));
        ok := false;
      }
    }
  }
}
