// Theorems about whole histories of the DR protocol: any number of runs, any
// interleaving with user writes, any crash, any failed copy.

module DrHistory {
  import opened Snapshots
  import opened HdfsTree
  import opened DrProtocol
  import opened DrInvariant

  ghost predicate StepAt(tr: seq<State>, i: nat) {
    i + 1 < |tr| && Next(tr[i], tr[i + 1])
  }

  ghost predicate IsHistory(tr: seq<State>) {
    tr != [] && forall i: nat | i < |tr| - 1 :: StepAt(tr, i)
  }

  ghost predicate Behaviour(tr: seq<State>) {
    IsHistory(tr) && Init(tr[0])
  }

  /** t can follow s after any number of steps. */
  ghost predicate Reaches(s: State, t: State) {
    exists tr: seq<State> :: IsHistory(tr) && tr[0] == s && tr[|tr| - 1] == t
  }

  lemma ReachesSelf(s: State)
    ensures Reaches(s, s)
  {
    assert IsHistory([s]);
  }

  lemma ReachesStep(s: State, t: State, u: State)
    requires Reaches(s, t) && Next(t, u)
    ensures Reaches(s, u)
  {
    var tr: seq<State> :| IsHistory(tr) && tr[0] == s && tr[|tr| - 1] == t;
    var tr' := tr + [u];
    forall i: nat | i < |tr'| - 1 ensures StepAt(tr', i) {
      if i < |tr| - 1 { assert StepAt(tr, i); }
    }
    assert IsHistory(tr') && tr'[0] == s && tr'[|tr'| - 1] == u;
  }

  /** What a history that starts in the invariant keeps, from its first state to its last. */
  lemma ReachesKeeps(s: State, t: State)
    requires Reaches(s, t) && Inv(s)
    ensures Inv(t)
    ensures s.dr.LatestNumber() <= t.dr.LatestNumber()
    ensures s.completed <= t.completed
  {
    var tr: seq<State> :| IsHistory(tr) && tr[0] == s && tr[|tr| - 1] == t;
    for i := 0 to |tr| - 1
      invariant Inv(tr[i])
      invariant s.dr.LatestNumber() <= tr[i].dr.LatestNumber() && s.completed <= tr[i].completed
    {
      assert StepAt(tr, i);
      NextInv(tr[i], tr[i + 1]);
      DrLatestStep(tr[i], tr[i + 1]);
    }
  }

  lemma {:induction false} AlwaysInv(tr: seq<State>, i: nat)
    requires Behaviour(tr) && i < |tr|
    ensures Inv(tr[i])
  {
    if i == 0 {
      InitInv(tr[0]);
    } else {
      AlwaysInv(tr, i - 1);
      assert StepAt(tr, i - 1);
      NextInv(tr[i - 1], tr[i]);
    }
  }

  // ---------- content ----------

  /** In every reachable state a snapshot number present on both sites names the same content. */
  lemma CommonSnapshotsAgree(tr: seq<State>, i: nat, n: nat)
    requires Behaviour(tr) && i < |tr|
    requires Numbered(n) in tr[i].main.snaps && Numbered(n) in tr[i].dr.snaps
    ensures tr[i].main.snaps[Numbered(n)] == tr[i].dr.snaps[Numbered(n)]
  {
    AlwaysInv(tr, i);
  }

  /** Whenever validation reads the latest number on main again it reads the number chosen at the start of the run. */
  lemma ReadLatestIsChosen(tr: seq<State>, i: nat)
    requires Behaviour(tr) && i < |tr| && tr[i].pc.Copied?
    ensures tr[i].main.LatestNumber() == tr[i].pc.n
    ensures Numbered(tr[i].pc.n) in tr[i].main.snaps && tr[i].dr.live == tr[i].main.snaps[Numbered(tr[i].pc.n)]
  {
    AlwaysInv(tr, i);
  }

  // ---------- durability ----------

  lemma DrLatestStep(s: State, t: State)
    requires Inv(s) && Next(s, t)
    ensures s.dr.LatestNumber() <= t.dr.LatestNumber()
    ensures s.completed <= t.completed
  {
    if CreateDr(s, t) {
      AddedSnapshot(s.dr.snaps, s.pc.latest, s.dr.live);
    } else if DeleteDrBase(s, t) {
      RemovedSnapshot(s.dr.snaps, Numbered(s.pc.latest - 1));
    } else {
      assert t.dr.snaps == s.dr.snaps;
    }
  }

  lemma {:induction false} DrLatestMonotone(tr: seq<State>, i: nat, j: nat)
    requires Behaviour(tr) && i <= j < |tr|
    ensures tr[i].dr.LatestNumber() <= tr[j].dr.LatestNumber()
    ensures tr[i].completed <= tr[j].completed
    decreases j
  {
    if i < j {
      DrLatestMonotone(tr, i, j - 1);
      AlwaysInv(tr, j - 1);
      assert StepAt(tr, j - 1);
      DrLatestStep(tr[j - 1], tr[j]);
    }
  }

  /** Once one run has completed, every later state has a number on both sites with identical content,
      and that number never goes back. */
  lemma RecoveryPointNeverLost(tr: seq<State>, i: nat, j: nat)
    requires Behaviour(tr) && i <= j < |tr|
    requires tr[i].completed > 0
    ensures 0 <= tr[i].dr.LatestNumber() <= tr[j].dr.LatestNumber()
    ensures RecoveryPoint(tr[j], tr[j].dr.LatestNumber())
  {
    AlwaysInv(tr, i);
    AlwaysInv(tr, j);
    DrLatestMonotone(tr, i, j);
  }

  /** The one snapshot of main, if any, that the next call of the run may delete. */
  ghost predicate MainVictim(s: State, n: nat) {
    (s.pc.DeletingMain? && n == s.pc.n) || (s.pc.DeletingMainBase? && n == s.pc.latest - 1)
  }

  ghost predicate DrVictim(s: State, n: nat) {
    s.pc.DeletingDrBase? && n == s.pc.latest - 1
  }

  /** Every other snapshot keeps its content through the step. */
  lemma StepKeeps(s: State, t: State, n: nat)
    requires Inv(s) && Next(s, t)
    ensures Numbered(n) in s.main.snaps && !MainVictim(s, n) ==>
      Numbered(n) in t.main.snaps && t.main.snaps[Numbered(n)] == s.main.snaps[Numbered(n)]
    ensures Numbered(n) in s.dr.snaps && !DrVictim(s, n) ==>
      Numbered(n) in t.dr.snaps && t.dr.snaps[Numbered(n)] == s.dr.snaps[Numbered(n)]
  {
    if DeleteMain(s, t) {
    } else if DeleteMainBase(s, t) {
    } else if DeleteDrBase(s, t) {
    } else if CreateMain(s, t) {
    } else if CreateDr(s, t) {
    } else {
      assert t.main.snaps == s.main.snaps && t.dr.snaps == s.dr.snaps;
    }
  }

  /** A common snapshot disappears only while a newer common one is there, before and after the deletion. */
  lemma BaseDeletedOnlyAfterSuccessor(tr: seq<State>, i: nat, n: nat)
    requires Behaviour(tr) && i + 1 < |tr|
    requires RecoveryPoint(tr[i], n) && !RecoveryPoint(tr[i + 1], n)
    ensures RecoveryPoint(tr[i], n + 1) && RecoveryPoint(tr[i + 1], n + 1)
  {
    var s, t := tr[i], tr[i + 1];
    assert StepAt(tr, i);
    AlwaysInv(tr, i);
    StepKeeps(s, t, n);
    LatestAtLeast(s.dr.snaps.Keys, n);
    assert MainVictim(s, n) || DrVictim(s, n);
    assert !s.pc.DeletingMain?;
    assert s.pc.latest == n + 1 && RecoveryPoint(s, n + 1);
    StepKeeps(s, t, n + 1);
  }

  // ---------- refusals ----------

  ghost predicate SameSnapshots(s: State, t: State) {
    t == s.(main := s.main.(live := t.main.live))
  }

  /** Between runs, the check refuses exactly when a folder is missing, DR holds data without a snapshot of it,
      or main has a snapshot newer than the latest common one. */
  lemma RefusesIff(tr: seq<State>, i: nat)
    requires Behaviour(tr) && i < |tr|
    ensures Decide(tr[i].main, tr[i].dr).Raise? <==>
      || !tr[i].main.present
      || !tr[i].dr.present
      || (tr[i].dr.LatestNumber() == -1 && tr[i].dr.live != map[])
      || (tr[i].dr.LatestNumber() >= 0 && tr[i].main.LatestNumber() > tr[i].dr.LatestNumber())
  {
    AlwaysInv(tr, i);
    ListingEmpty(tr[i].dr.live);
  }

  /** A refusal is permanent: no later run, crash or write by users makes the check pass again or touches
      a snapshot or the DR folder. */
  lemma {:induction false} RefusalIsPermanent(tr: seq<State>, i: nat, j: nat)
    requires IsHistory(tr) && i <= j < |tr|
    requires tr[i].pc == Idle && Decide(tr[i].main, tr[i].dr).Raise?
    ensures SameSnapshots(tr[i], tr[j])
    ensures Decide(tr[j].main, tr[j].dr) == Decide(tr[i].main, tr[i].dr)
    decreases j
  {
    if i < j {
      RefusalIsPermanent(tr, i, j - 1);
      assert StepAt(tr, j - 1);
    }
  }

  /** An update is under way and its DR snapshot does not exist yet. */
  ghost predicate UpdateInFlight(s: State) {
    || (s.pc.Copying? && s.pc.kind == Incremental)
    || ((s.pc.Copied? || s.pc.CreatingDr?) && s.dr.LatestNumber() >= 0)
  }

  /** A run that created main snapshot n+1 but failed before DR snapshot n+1 blocks the folder: every later
      check raises NumbersDiffer and neither site's snapshots nor the DR folder change any more. */
  lemma InterruptedUpdateBlocks(tr: seq<State>, i: nat, j: nat)
    requires Behaviour(tr) && i + 1 <= j < |tr|
    requires UpdateInFlight(tr[i]) && Crash(tr[i], tr[i + 1])
    requires tr[i].main.present && tr[i].dr.present
    ensures SameSnapshots(tr[i + 1], tr[j])
    ensures tr[j].pc == Idle && Decide(tr[j].main, tr[j].dr) == Raise(NumbersDiffer)
    ensures RecoveryPoint(tr[j], tr[i].dr.LatestNumber())
  {
    AlwaysInv(tr, i);
    AlwaysInv(tr, i + 1);
    RefusalIsPermanent(tr, i + 1, j);
  }

  /** A first copy is under way and its DR snapshot does not exist yet. */
  ghost predicate FirstCopyInFlight(s: State) {
    || (s.pc.Copying? && s.pc.kind == Full)
    || ((s.pc.Copied? || s.pc.CreatingDr?) && s.dr.LatestNumber() == -1)
  }

  /** A first copy interrupted before its DR snapshot blocks the folder iff there is something in the DR folder by then;
      otherwise the next check starts the copy again from a fresh snapshot with the same number. */
  lemma InterruptedFirstCopy(tr: seq<State>, i: nat)
    requires Behaviour(tr) && i + 1 < |tr|
    requires FirstCopyInFlight(tr[i]) && Crash(tr[i], tr[i + 1])
    requires tr[i].main.present && tr[i].dr.present
    ensures var decision := Decide(tr[i + 1].main, tr[i + 1].dr);
      if tr[i + 1].dr.live == map[] then decision.Reinitialize? && decision.n == tr[i].main.LatestNumber()
      else decision == Raise(DrNotEmptyWithoutDrSnapshots)
  {
    AlwaysInv(tr, i);
    ListingEmpty(tr[i + 1].dr.live);
  }

  // ---------- leftovers ----------

  /** The run has not yet decided to delete snapshot k: it is older than anything the run will ever delete. */
  ghost predicate OutOfReach(s: State, k: nat) {
    && k < s.dr.LatestNumber()
    && ((s.pc.Comparing? || s.pc.DeletingMainBase? || s.pc.DeletingDrBase?) ==> k < s.pc.latest - 1)
  }

  lemma OutOfReachStep(s: State, t: State, k: nat)
    requires Inv(s) && Next(s, t) && OutOfReach(s, k)
    ensures OutOfReach(t, k)
    ensures Numbered(k) in s.main.snaps <==> Numbered(k) in t.main.snaps
    ensures Numbered(k) in s.dr.snaps <==> Numbered(k) in t.dr.snaps
  {
    DrLatestStep(s, t);
    StepKeeps(s, t, k);
    CreatesNewer(s, t, k);
  }

  /** A step creates no snapshot older than DR's latest. */
  lemma CreatesNewer(s: State, t: State, k: nat)
    requires Inv(s) && Next(s, t) && k < s.dr.LatestNumber()
    ensures Numbered(k) in t.main.snaps ==> Numbered(k) in s.main.snaps
    ensures Numbered(k) in t.dr.snaps ==> Numbered(k) in s.dr.snaps
  {
    if CreateMain(s, t) {
      assert s.pc.n > k;
    } else if CreateDr(s, t) {
      assert s.pc.latest > k;
    } else {
      assert t.main.snaps.Keys <= s.main.snaps.Keys && t.dr.snaps.Keys <= s.dr.snaps.Keys;
    }
  }

  /** What is older than the base of the current run stays as it is: no later run deletes it, none creates it again. */
  lemma {:induction false} LeftoverBaseStays(tr: seq<State>, i: nat, j: nat, k: nat)
    requires Behaviour(tr) && i <= j < |tr|
    requires OutOfReach(tr[i], k)
    ensures OutOfReach(tr[j], k)
    ensures Numbered(k) in tr[i].main.snaps <==> Numbered(k) in tr[j].main.snaps
    ensures Numbered(k) in tr[i].dr.snaps <==> Numbered(k) in tr[j].dr.snaps
    decreases j
  {
    if i < j {
      LeftoverBaseStays(tr, i, j - 1, k);
      AlwaysInv(tr, j - 1);
      assert StepAt(tr, j - 1);
      OutOfReachStep(tr[j - 1], tr[j], k);
    }
  }

  /** The run that stands at its comparison at i is over at j. */
  ghost predicate RunEnds(tr: seq<State>, i: nat, j: nat) {
    && i < j < |tr| && tr[j].pc == Idle
    && forall k | i <= k < j :: tr[k].pc != Idle
  }

  /** A run that cleans up after copying n has deleted the base from main, or not yet, as its next call tells. */
  ghost predicate CleaningUp(s: State, n: nat, completed: nat) {
    && s.completed == completed
    && Numbered(n - 1) in s.dr.snaps
    && (s.pc == Comparing(n) || s.pc == DeletingMainBase(n) || s.pc == DeletingDrBase(n))
    && (Numbered(n - 1) in s.main.snaps <==> s.pc != DeletingDrBase(n))
  }

  lemma CleaningUpStep(s: State, t: State, n: nat, completed: nat)
    requires Inv(s) && Next(s, t) && n >= 1 && CleaningUp(s, n, completed) && t.pc != Idle
    ensures CleaningUp(t, n, completed)
  {
    if Compare(s, t) { ComparesAlike(s); }
  }

  lemma {:induction false} StillCleaningUp(tr: seq<State>, i: nat, k: nat, n: nat)
    requires Behaviour(tr) && i <= k < |tr| && n >= 1
    requires tr[i].pc == Comparing(n) && Numbered(n - 1) in tr[i].main.snaps && Numbered(n - 1) in tr[i].dr.snaps
    requires forall m | i <= m <= k :: tr[m].pc != Idle
    ensures CleaningUp(tr[k], n, tr[i].completed)
    decreases k
  {
    if i < k {
      StillCleaningUp(tr, i, k - 1, n);
      AlwaysInv(tr, k - 1);
      assert StepAt(tr, k - 1);
      CleaningUpStep(tr[k - 1], tr[k], n, tr[i].completed);
    }
  }

  lemma LastStep(s: State, t: State, n: nat, completed: nat)
    requires Inv(s) && Next(s, t) && n >= 1 && CleaningUp(s, n, completed) && t.pc == Idle
    ensures Crash(s, t) || DeleteDrBase(s, t)
    ensures OutOfReach(t, n - 1)
    ensures Numbered(n - 1) in t.dr.snaps <==> Crash(s, t)
    ensures Numbered(n - 1) in t.main.snaps <==> s.pc != DeletingDrBase(n)
    ensures t.completed == if Crash(s, t) then completed else completed + 1
  {
    if Compare(s, t) { ComparesAlike(s); }
    DrLatestStep(s, t);
  }

  /** What becomes of the base of an update, for good. A run that stands at its comparison with the base on both sites,
      and ends at j, has the base deleted from both sites in every later state iff it completed. It leaves the base on
      DR iff it crashed, and on main iff it crashed before the call that deletes it there. */
  lemma CrashDuringCleanup(tr: seq<State>, i: nat, j: nat, l: nat, n: nat)
    requires Behaviour(tr) && RunEnds(tr, i, j) && j <= l < |tr| && n >= 1
    requires tr[i].pc == Comparing(n) && Numbered(n - 1) in tr[i].main.snaps && Numbered(n - 1) in tr[i].dr.snaps
    ensures Numbered(n - 1) !in tr[l].main.snaps && Numbered(n - 1) !in tr[l].dr.snaps <==>
            tr[j].completed == tr[i].completed + 1
    ensures Numbered(n - 1) in tr[l].dr.snaps <==> Crash(tr[j - 1], tr[j])
    ensures Numbered(n - 1) in tr[l].main.snaps <==> tr[j - 1].pc != DeletingDrBase(n)
  {
    StillCleaningUp(tr, i, j - 1, n);
    AlwaysInv(tr, j - 1);
    assert StepAt(tr, j - 1);
    LastStep(tr[j - 1], tr[j], n, tr[i].completed);
    LeftoverBaseStays(tr, j, l, n - 1);
  }

  /** Every update reaches its comparison with the base on both sites. */
  lemma BaseIsThere(tr: seq<State>, i: nat)
    requires Behaviour(tr) && i + 1 < |tr| && CreateDr(tr[i], tr[i + 1]) && tr[i].dr.LatestNumber() >= 0
    ensures tr[i + 1].pc == Comparing(tr[i].pc.latest)
    ensures var base := Numbered(tr[i].pc.latest - 1); base in tr[i + 1].main.snaps && base in tr[i + 1].dr.snaps
  {
    AlwaysInv(tr, i);
  }

  // ---------- fault-free histories ----------

  /** No snapshot on either site, an empty DR folder, nothing has run. */
  ghost predicate CleanStart(s: State) {
    && s.main.present && s.dr.present
    && s.main.snaps == map[] && s.dr.snaps == map[] && s.dr.live == map[]
    && s.pc == Idle && s.completed == 0
  }

  ghost predicate FaultFreeStepAt(tr: seq<State>, i: nat) {
    i + 1 < |tr| && (UserWrite(tr[i], tr[i + 1]) || Work(tr[i], tr[i + 1]))
  }

  ghost predicate FaultFree(tr: seq<State>) {
    && tr != [] && CleanStart(tr[0])
    && forall i: nat | i < |tr| - 1 :: FaultFreeStepAt(tr, i)
  }

  /** The site's snapshots are exactly: the one of run k (if k >= 1) when old, and the one of run k+1 when new. */
  ghost predicate Holds(site: Site, k: nat, base: bool, latest: bool) {
    site.snaps.Keys == (if base && k >= 1 then {Numbered(k)} else {}) + (if latest then {Numbered(k + 1)} else {})
  }

  ghost predicate OnTrack(s: State) {
    var k := s.completed;
    && s.main.present && s.dr.present
    && (k == 0 && (s.pc == Idle || s.pc.CreatingMain? || s.pc.Copying?) ==> s.dr.live == map[])
    && match s.pc
       case Idle => Holds(s.main, k, true, false) && Holds(s.dr, k, true, false)
       case CreatingMain(n, kind) =>
         n == k + 1 && kind == (if k == 0 then Full else Incremental)
         && Holds(s.main, k, true, false) && Holds(s.dr, k, true, false)
       case Copying(n, kind) =>
         n == k + 1 && kind == (if k == 0 then Full else Incremental)
         && Holds(s.main, k, true, true) && Holds(s.dr, k, true, false)
       case Copied(n, _) => n == k + 1 && Holds(s.main, k, true, true) && Holds(s.dr, k, true, false)
       case CreatingDr(n) => n == k + 1 && Holds(s.main, k, true, true) && Holds(s.dr, k, true, false)
       case Comparing(n) => n == k + 1 && Holds(s.main, k, true, true) && Holds(s.dr, k, true, true)
       case DeletingMainBase(n) => n == k + 1 && Holds(s.main, k, true, true) && Holds(s.dr, k, true, true)
       case DeletingDrBase(n) => n == k + 1 && Holds(s.main, k, false, true) && Holds(s.dr, k, true, true)
       case DeletingMain(_) => false
  }

  lemma HoldsLatest(site: Site, k: nat, base: bool, latest: bool)
    requires Holds(site, k, base, latest)
    ensures site.LatestNumber() == if latest then k + 1 else if base && k >= 1 then k else -1
    ensures |site.snaps.Keys| <= 2
  {
    assert Latest({}) == -1;
    LatestAdd({}, k);
    LatestAdd({}, k + 1);
    LatestAdd({Numbered(k)}, k + 1);
    assert {} + {Numbered(k)} == {Numbered(k)};
    assert {} + {Numbered(k + 1)} == {Numbered(k + 1)};
  }

  lemma OnTrackBegin(s: State, t: State)
    requires Inv(s) && OnTrack(s) && Begin(s, t)
    ensures OnTrack(t)
  {
    HoldsLatest(s.main, s.completed, true, false);
    HoldsLatest(s.dr, s.completed, true, false);
    ListingEmpty(s.dr.live);
  }

  lemma OnTrackCreate(s: State, t: State)
    requires OnTrack(s) && (CreateMain(s, t) || CreateDr(s, t))
    ensures OnTrack(t)
  {
    if CreateMain(s, t) {
      assert t.main.snaps.Keys == s.main.snaps.Keys + {Numbered(s.completed + 1)};
    } else {
      assert t.dr.snaps.Keys == s.dr.snaps.Keys + {Numbered(s.completed + 1)};
    }
  }

  lemma OnTrackDelete(s: State, t: State)
    requires OnTrack(s) && (DeleteMainBase(s, t) || DeleteDrBase(s, t))
    ensures OnTrack(t)
  {
    var k := s.completed;
    if DeleteMainBase(s, t) {
      assert t.main.snaps.Keys == s.main.snaps.Keys - {Numbered(k)};
    } else {
      assert t.dr.snaps.Keys == s.dr.snaps.Keys - {Numbered(k)};
    }
  }

  lemma OnTrackOther(s: State, t: State)
    requires Inv(s) && OnTrack(s) && (UserWrite(s, t) || Copy(s, t) || ReadLatest(s, t) || Compare(s, t))
    ensures OnTrack(t)
  {
    if Compare(s, t) { ComparesAlike(s); }
  }

  lemma OnTrackStep(s: State, t: State)
    requires Inv(s) && OnTrack(s) && (UserWrite(s, t) || Work(s, t))
    ensures OnTrack(t)
  {
    if Begin(s, t) { OnTrackBegin(s, t); }
    else if CreateMain(s, t) || CreateDr(s, t) { OnTrackCreate(s, t); }
    else if DeleteMainBase(s, t) || DeleteDrBase(s, t) { OnTrackDelete(s, t); }
    else { OnTrackOther(s, t); }
  }

  lemma {:induction false} FaultFreeOnTrack(tr: seq<State>, i: nat)
    requires FaultFree(tr) && i < |tr|
    ensures Inv(tr[i]) && OnTrack(tr[i])
  {
    if i == 0 {
      assert tr[0].dr.snaps.Keys == {};
      InitInv(tr[0]);
    } else {
      FaultFreeOnTrack(tr, i - 1);
      assert FaultFreeStepAt(tr, i - 1);
      NextInv(tr[i - 1], tr[i]);
      OnTrackStep(tr[i - 1], tr[i]);
    }
  }

  /** k fault-free runs leave exactly one snapshot on each site, numbered k and equal in content to the other and to
      the DR folder; no site ever holds more than two on the way; no run is refused. */
  lemma FaultFreeRuns(tr: seq<State>, i: nat)
    requires FaultFree(tr) && i < |tr|
    ensures |tr[i].main.snaps.Keys| <= 2 && |tr[i].dr.snaps.Keys| <= 2
    ensures tr[i].pc == Idle && tr[i].completed >= 1 ==>
      var k := tr[i].completed;
      && tr[i].main.snaps.Keys == {Numbered(k)} && tr[i].dr.snaps.Keys == {Numbered(k)}
      && tr[i].main.snaps[Numbered(k)] == tr[i].dr.snaps[Numbered(k)] == tr[i].dr.live
    ensures tr[i].pc == Idle ==> !Decide(tr[i].main, tr[i].dr).Raise?
  {
    var s, k := tr[i], tr[i].completed;
    FaultFreeOnTrack(tr, i);
    if s.pc == Idle {
      HoldsLatest(s.main, k, true, false);
      HoldsLatest(s.dr, k, true, false);
      ListingEmpty(s.dr.live);
    } else {
      assert |{Numbered(k)} + {Numbered(k + 1)}| <= 2;
    }
  }

  /** Calls left in the run. */
  function Remaining(pc: Pc): nat {
    match pc
    case Idle => 0
    case DeletingDrBase(_) => 1
    case DeletingMainBase(_) => 2
    case Comparing(_) => 3
    case CreatingDr(_) => 4
    case Copied(_, _) => 5
    case Copying(_, _) => 6
    case CreatingMain(_, _) => 7
    case DeletingMain(_) => 8
  }

  /** Every call of a run under way brings its end nearer; its end counts as one more completed run. */
  lemma WorkShortens(s: State, t: State)
    requires s.pc != Idle && Work(s, t)
    requires s.pc.Comparing? ==> s.pc.latest >= 0 && RecoveryPoint(s, s.pc.latest)
    ensures Remaining(t.pc) == Remaining(s.pc) - 1
    ensures t.completed == if t.pc == Idle then s.completed + 1 else s.completed
  {
  }

  /** The call a run on track makes next. */
  lemma NextCall(s: State) returns (t: State)
    requires Inv(s) && OnTrack(s) && s.pc != Idle
    ensures Work(s, t)
  {
    match s.pc
    case CreatingMain(n, kind) =>
      t := s.(main := s.main.With(Numbered(n)), pc := Copying(n, kind));
      assert CreateMain(s, t);
    case Copying(n, kind) =>
      var live := if kind == Full then Overlay(s.main.snaps[Numbered(n)], s.dr.live)
                  else Apply(SnapshotDiff(s.main.snaps[Numbered(n - 1)], s.main.snaps[Numbered(n)]), s.dr.live);
      t := s.(dr := s.dr.(live := live), pc := Copied(n, kind));
      assert Copy(s, t);
    case Copied(n, kind) =>
      t := s.(pc := CreatingDr(s.main.LatestNumber()));
      assert ReadLatest(s, t);
    case CreatingDr(n) =>
      t := s.(dr := s.dr.With(Numbered(n)), pc := Comparing(n));
      assert CreateDr(s, t);
    case Comparing(n) =>
      t := s.(pc := if Listing(s.main.snaps[Numbered(n)]) == Listing(s.dr.snaps[Numbered(n)]) then DeletingMainBase(n)
          else Idle);
      assert Compare(s, t);
    case DeletingMainBase(n) =>
      t := s.(main := s.main.Without(Numbered(n - 1)), pc := DeletingDrBase(n));
      assert DeleteMainBase(s, t);
    case DeletingDrBase(n) =>
      t := s.(dr := s.dr.Without(Numbered(n - 1)), pc := Idle, completed := s.completed + 1);
      assert DeleteDrBase(s, t);
  }

  /** A fault-free run is never refused nor stuck: there always is a next call, and it brings the end nearer. */
  lemma FaultFreeProgress(tr: seq<State>, i: nat) returns (t: State)
    requires FaultFree(tr) && i < |tr|
    ensures Work(tr[i], t)
    ensures tr[i].pc == Idle ==> Remaining(t.pc) == 7 && t.completed == tr[i].completed
    ensures tr[i].pc != Idle ==> Remaining(t.pc) == Remaining(tr[i].pc) - 1
    ensures tr[i].pc != Idle ==> t.completed == if t.pc == Idle then tr[i].completed + 1 else tr[i].completed
  {
    var s := tr[i];
    FaultFreeOnTrack(tr, i);
    if s.pc != Idle {
      t := NextCall(s);
      ComparesAlike(s);
      WorkShortens(s, t);
    } else {
      FaultFreeRuns(tr, i);
      HoldsLatest(s.main, s.completed, true, false);
      HoldsLatest(s.dr, s.completed, true, false);
      t := s.(pc := PcOf(Decide(s.main, s.dr)));
      assert Begin(s, t);
    }
  }

  /** Calls from here to the end of the run under way, or of the next one. */
  function Ahead(pc: Pc): nat {
    if pc == Idle then 8 else Remaining(pc)
  }

  lemma OneMoreStep(tr: seq<State>, next: State)
    requires FaultFree(tr) && Work(tr[|tr| - 1], next)
    ensures FaultFree(tr + [next])
  {
    var longer := tr + [next];
    forall i: nat | i < |longer| - 1 ensures FaultFreeStepAt(longer, i) {
      if i < |tr| - 1 { assert FaultFreeStepAt(tr, i); }
    }
  }

  /** Any fault-free history can go on without faults, and after eight steps from the start of a run, or what is left
      of them, one more run has completed. */
  lemma {:induction false} FaultFreeCompletes(tr: seq<State>) returns (more: seq<State>)
    requires FaultFree(tr)
    ensures var (now, steps) := (tr[|tr| - 1], Ahead(tr[|tr| - 1].pc));
      && |more| == steps && FaultFree(tr + more)
      && more[steps - 1].pc == Idle && more[steps - 1].completed == now.completed + 1
    decreases Ahead(tr[|tr| - 1].pc)
  {
    var last := |tr| - 1;
    var next := FaultFreeProgress(tr, last);
    var longer := tr + [next];
    OneMoreStep(tr, next);
    more := [next];
    if next.pc != Idle {
      var rest := FaultFreeCompletes(longer);
      more := [next] + rest;
      assert tr + more == longer + rest;
    } else {
      assert tr + more == longer;
    }
  }
}
