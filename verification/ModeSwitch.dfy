// The mode switch of the site manager as interleaved processes: the main routine that
// ranges over two unbuffered channels, the coordinator that starts workers and waiters
// and closes the channels, one worker per scaled component, one waiter per awaited
// component, and (standby only) the deletion of executor pods. A send and the receive
// that takes it are one step; a worker's wait-group Done follows its send at once.

module ModeSwitch {

  /** What the pod deletion meets: whether the pods could be listed, and each deletion's success. */
  datatype Kill = Kill(listed: bool, pods: seq<bool>)

  /** One switch, with every result fixed in advance; workers and waiters of deployments come first.
      sharedErr: the list calls assign the variable the main routine takes its verdict from, as in the source;
      without it, receiving an error and fixing the verdict is one step. All list calls succeed. */
  datatype Config = Config(deployments: nat, scale: seq<bool>, waits: seq<bool>, standby: bool, kill: Kill,
      sharedErr: bool) {
    predicate Valid() {
      deployments <= |scale| && deployments <= |waits|
    }

    /** Every result the main routine could receive is nil. */
    predicate AllGood() {
      && (forall i | 0 <= i < |scale| :: scale[i])
      && (forall i | 0 <= i < |waits| :: waits[i])
      && (standby ==> kill.listed && forall i | 0 <= i < |kill.pods| :: kill.pods[i])
    }
  }

  datatype Main = RangeScale | CheckScale | RangeWait | CheckFinal | Finished(done: bool)

  datatype Coordinator =
    | Listing
    | SpawnDeps                          // one scale worker per deployment, then list the stateful sets
    | SpawnSets                          // one scale worker per stateful set, then wait for all and close
    | SpawnDepWaits
    | SpawnSetWaits
    | Killing(next: nat, failed: bool)   // delete pod number next
    | Reporting(next: nat)               // send the error of pod next - 1
    | ReportingLast
    | Closing
    | Exited

  /** sent, waited: workers and waiters whose result the main routine has received.
      got: it has received an error; deleting: deletions attempted. */
  datatype State = State(
    coord: Coordinator, spawned: nat, sent: set<nat>, scaleClosed: bool,
    waiting: nat, waited: set<nat>, waitClosed: bool, deleting: nat,
    main: Main, err: bool, got: bool)

  const Start := State(Listing, 0, {}, false, 0, {}, false, 0, RangeScale, false, false)

  predicate AllOf(n: nat, done: set<nat>) {
    forall i: nat | i < n :: i in done
  }

  // ---------- coordinator ----------

  function ClearErr(c: Config, s: State): State {
    if c.sharedErr then s.(err := false) else s
  }

  predicate ListDeployments(c: Config, s: State, t: State) {
    s.coord == Listing && t == ClearErr(c, s).(coord := SpawnDeps)
  }

  predicate SpawnWorker(c: Config, s: State, t: State) {
    && ((s.coord == SpawnDeps && s.spawned < c.deployments) || (s.coord == SpawnSets && s.spawned < |c.scale|))
    && t == s.(spawned := s.spawned + 1)
  }

  predicate ListSets(c: Config, s: State, t: State) {
    s.coord == SpawnDeps && s.spawned == c.deployments && t == ClearErr(c, s).(coord := SpawnSets)
  }

  predicate CloseScale(c: Config, s: State, t: State) {
    && s.coord == SpawnSets && s.spawned == |c.scale| && AllOf(s.spawned, s.sent)
    && t == s.(coord := SpawnDepWaits, scaleClosed := true)
  }

  predicate SpawnWaiter(c: Config, s: State, t: State) {
    && ((s.coord == SpawnDepWaits && s.waiting < c.deployments) || (s.coord == SpawnSetWaits && s.waiting < |c.waits|))
    && t == s.(waiting := s.waiting + 1)
  }

  predicate ListSetsAgain(c: Config, s: State, t: State) {
    s.coord == SpawnDepWaits && s.waiting == c.deployments && t == ClearErr(c, s).(coord := SpawnSetWaits)
  }

  predicate AllDown(c: Config, s: State, t: State) {
    && s.coord == SpawnSetWaits && s.waiting == |c.waits| && AllOf(s.waiting, s.waited)
    && t == s.(coord := if !c.standby then Closing else if c.kill.listed then Killing(0, false) else ReportingLast)
  }

  predicate DeletePod(c: Config, s: State, t: State) {
    && s.coord.Killing? && s.coord.next < |c.kill.pods|
    && t == s.(deleting := s.deleting + 1,
               coord := if c.kill.pods[s.coord.next] then Killing(s.coord.next + 1, false)
                   else Reporting(s.coord.next + 1))
  }

  predicate KillEnd(c: Config, s: State, t: State) {
    && s.coord.Killing? && s.coord.next >= |c.kill.pods|
    && t == s.(coord := if s.coord.failed then ReportingLast else Closing)
  }

  predicate CloseWait(c: Config, s: State, t: State) {
    s.coord == Closing && t == s.(coord := Exited, waitClosed := true)
  }

  predicate ListStep(c: Config, s: State, t: State) {
    ListDeployments(c, s, t) || ListSets(c, s, t) || ListSetsAgain(c, s, t)
  }

  predicate SpawnStep(c: Config, s: State, t: State) {
    SpawnWorker(c, s, t) || CloseScale(c, s, t) || SpawnWaiter(c, s, t)
  }

  predicate KillStep(c: Config, s: State, t: State) {
    AllDown(c, s, t) || DeletePod(c, s, t) || KillEnd(c, s, t) || CloseWait(c, s, t)
  }

  predicate CoordinatorStep(c: Config, s: State, t: State) {
    ListStep(c, s, t) || SpawnStep(c, s, t) || KillStep(c, s, t)
  }

  // ---------- main routine ----------

  predicate ReceiveScale(c: Config, s: State, t: State, i: nat) {
    && s.main == RangeScale && i < s.spawned && i < |c.scale| && i !in s.sent
    && t == if c.scale[i] then s.(sent := s.sent + {i})
            else s.(sent := s.sent + {i}, err := true, got := true, main := CheckScale)
  }

  predicate ScaleRangeEnds(s: State, t: State) {
    s.main == RangeScale && s.scaleClosed && t == s.(main := CheckScale)
  }

  predicate TestScale(s: State, t: State) {
    s.main == CheckScale && t == s.(main := if s.err then CheckFinal else RangeWait)
  }

  predicate ReceiveWait(c: Config, s: State, t: State, i: nat) {
    && s.main == RangeWait && i < s.waiting && i < |c.waits| && i !in s.waited
    && t == if c.waits[i] then s.(waited := s.waited + {i})
            else s.(waited := s.waited + {i}, err := true, got := true, main := CheckFinal)
  }

  predicate ReceiveKill(s: State, t: State) {
    && s.main == RangeWait && (s.coord.Reporting? || s.coord == ReportingLast)
    && t == s.(coord := if s.coord.Reporting? then Killing(s.coord.next, true) else Closing,
               err := true, got := true, main := CheckFinal)
  }

  predicate WaitRangeEnds(s: State, t: State) {
    s.main == RangeWait && s.waitClosed && t == s.(main := CheckFinal)
  }

  predicate TestFinal(s: State, t: State) {
    s.main == CheckFinal && t == s.(main := Finished(!s.err))
  }

  ghost predicate MainStep(c: Config, s: State, t: State) {
    || (exists i: nat :: ReceiveScale(c, s, t, i)) || ScaleRangeEnds(s, t) || TestScale(s, t)
    || (exists i: nat :: ReceiveWait(c, s, t, i)) || ReceiveKill(s, t) || WaitRangeEnds(s, t) || TestFinal(s, t)
  }

  ghost predicate Next(c: Config, s: State, t: State) {
    CoordinatorStep(c, s, t) || MainStep(c, s, t)
  }

  // ---------- when the shared variable does no harm ----------

  predicate BadScale(c: Config, i: nat) {
    i < |c.scale| && !c.scale[i]
  }

  predicate BadWait(c: Config, i: nat) {
    i < |c.waits| && !c.waits[i]
  }

  /** Exactly one scaling fails. */
  ghost predicate OneBadScale(c: Config) {
    exists f: nat :: BadScale(c, f) && forall i: nat | BadScale(c, i) :: i == f
  }

  /** An error can be received and then wiped out by a later list call: a deployment's scaling error by the first
      listing of stateful sets, the only scaling error by the second, a deployment's waiting error by the second. */
  ghost predicate Vulnerable(c: Config) {
    || (exists i: nat :: i < c.deployments && BadScale(c, i))
    || OneBadScale(c)
    || ((forall i: nat :: !BadScale(c, i)) && exists i: nat :: i < c.deployments && BadWait(c, i))
  }

  ghost predicate Sound(c: Config) {
    c.sharedErr ==> !Vulnerable(c)
  }

  /** A deployment's scaling error can be wiped out while another worker still waits to be received from. */
  ghost predicate CanHang(c: Config) {
    c.sharedErr && |c.scale| >= 2 && exists i: nat :: i < c.deployments && BadScale(c, i)
  }

  // ---------- invariant ----------

  ghost predicate ScaleDone(c: Config, s: State) {
    s.spawned == |c.scale| && AllOf(|c.scale|, s.sent) && s.scaleClosed
  }

  ghost predicate WaitDone(c: Config, s: State) {
    s.waiting == |c.waits| && AllOf(|c.waits|, s.waited)
  }

  ghost predicate CoordInv(c: Config, s: State) {
    && (s.waitClosed <==> s.coord == Exited)
    && match s.coord
       case Listing => s.spawned == 0 && s.waiting == 0 && !s.scaleClosed && s.deleting == 0
       case SpawnDeps => s.spawned <= c.deployments && s.waiting == 0 && !s.scaleClosed && s.deleting == 0
       case SpawnSets => c.deployments <= s.spawned <= |c.scale| && s.waiting == 0 && !s.scaleClosed && s.deleting == 0
       case SpawnDepWaits => ScaleDone(c, s) && s.waiting <= c.deployments && s.deleting == 0
       case SpawnSetWaits => ScaleDone(c, s) && c.deployments <= s.waiting <= |c.waits| && s.deleting == 0
       case Killing(n, failed) =>
         && c.standby && c.kill.listed && ScaleDone(c, s) && WaitDone(c, s) && n <= |c.kill.pods|
         && (failed ==> n > 0 && !c.kill.pods[n - 1])
       case Reporting(n) =>
         c.standby && c.kill.listed && ScaleDone(c, s) && WaitDone(c, s) && 0 < n <= |c.kill.pods| &&
             !c.kill.pods[n - 1]
       case ReportingLast =>
         && c.standby && ScaleDone(c, s) && WaitDone(c, s)
         && (c.kill.listed ==> |c.kill.pods| > 0 && !c.kill.pods[|c.kill.pods| - 1])
       case Closing => ScaleDone(c, s) && WaitDone(c, s)
       case Exited => ScaleDone(c, s) && WaitDone(c, s)
  }

  /** The errors among the messages of the pod deletion up to where the coordinator stands. */
  ghost predicate KillGood(c: Config, coord: Coordinator) {
    match coord
    case Killing(n, failed) => !failed && forall i | 0 <= i < n && i < |c.kill.pods| :: c.kill.pods[i]
    case Reporting(n) => forall i | 0 <= i < n - 1 && i < |c.kill.pods| :: c.kill.pods[i]
    case Closing => c.standby ==> c.kill.listed && forall i | 0 <= i < |c.kill.pods| :: c.kill.pods[i]
    case Exited => c.standby ==> c.kill.listed && forall i | 0 <= i < |c.kill.pods| :: c.kill.pods[i]
    case _ => true
  }

  ghost predicate AfterKill(coord: Coordinator) {
    coord.Killing? || coord.Reporting? || coord == ReportingLast || coord == Closing || coord == Exited
  }

  /** An error was received iff one of the results received so far is an error. */
  ghost predicate GotInv(c: Config, s: State) {
    && (s.got ==> !c.AllGood())
    && (s.got ==> (exists i: nat :: i in s.sent && BadScale(c, i)) || (exists i: nat :: i in s.waited && BadWait(c, i))
                  || AfterKill(s.coord))
    && (!s.got ==> (forall i: nat | i in s.sent :: !BadScale(c, i)) && (forall i: nat | i in s.waited :: !BadWait(c, i))
                   && KillGood(c, s.coord))
  }

  ghost predicate MainInv(c: Config, s: State) {
    && (s.main == RangeScale ==> !s.got && !s.err && s.waited == {})
    && (forall i: nat, k: nat | i in s.sent && k in s.sent && BadScale(c, i) && BadScale(c, k) :: i == k)
  }

  /** What holds in every reachable state of every switch, sound or not. */
  ghost predicate Inv(c: Config, s: State) {
    && (forall i: nat | i in s.sent :: i < s.spawned)
    && (forall i: nat | i in s.waited :: i < s.waiting)
    && CoordInv(c, s) && GotInv(c, s) && MainInv(c, s)
  }

  /** What holds on top of it when no error can be wiped out. */
  ghost predicate SoundInv(c: Config, s: State) {
    && s.err == s.got
    && (s.main == CheckScale ==> s.waited == {} && (s.got || s.scaleClosed))
    && (s.main == RangeWait ==> !s.got && s.scaleClosed)
    && (s.main == CheckFinal ==> s.got || s.waitClosed)
    && (s.main.Finished? ==> s.main.done == !s.got && (s.got || s.waitClosed))
    && (s.waited != {} ==> forall i: nat :: !BadScale(c, i))
  }

  lemma StartInv(c: Config)
    requires c.Valid()
    ensures Inv(c, Start) && SoundInv(c, Start)
  {
  }

  lemma ListInv(c: Config, s: State, t: State)
    requires c.Valid() && Inv(c, s) && ListStep(c, s, t)
    ensures Inv(c, t)
  {
  }

  lemma SpawnInv(c: Config, s: State, t: State)
    requires c.Valid() && Inv(c, s) && SpawnStep(c, s, t)
    ensures Inv(c, t)
  {
  }

  lemma KillInv(c: Config, s: State, t: State)
    requires c.Valid() && Inv(c, s) && KillStep(c, s, t)
    ensures Inv(c, t)
  {
  }

  lemma ReceiveScaleInv(c: Config, s: State, t: State, i: nat)
    requires c.Valid() && Inv(c, s) && ReceiveScale(c, s, t, i)
    ensures Inv(c, t)
  {
    assert forall k: nat :: k in t.sent <==> k in s.sent || k == i;
    assert i in t.sent && t.waited == s.waited && t.coord == s.coord;
  }

  lemma ReceiveWaitInv(c: Config, s: State, t: State, i: nat)
    requires c.Valid() && Inv(c, s) && ReceiveWait(c, s, t, i)
    ensures Inv(c, t)
  {
    assert forall k: nat :: k in t.waited <==> k in s.waited || k == i;
    assert i in t.waited && t.sent == s.sent && t.coord == s.coord;
  }

  lemma ReceiveInv(c: Config, s: State, t: State, i: nat)
    requires c.Valid() && Inv(c, s) && (ReceiveScale(c, s, t, i) || ReceiveWait(c, s, t, i))
    ensures Inv(c, t)
  {
    if ReceiveScale(c, s, t, i) { ReceiveScaleInv(c, s, t, i); } else { ReceiveWaitInv(c, s, t, i); }
  }

  lemma OtherMainInv(c: Config, s: State, t: State)
    requires c.Valid() && Inv(c, s)
    requires ScaleRangeEnds(s, t) || TestScale(s, t) || ReceiveKill(s, t) || WaitRangeEnds(s, t) || TestFinal(s, t)
    ensures Inv(c, t)
  {
  }

  lemma NextInv(c: Config, s: State, t: State)
    requires c.Valid() && Inv(c, s) && Next(c, s, t)
    ensures Inv(c, t)
  {
    if ListStep(c, s, t) {
      ListInv(c, s, t);
    } else if SpawnStep(c, s, t) {
      SpawnInv(c, s, t);
    } else if KillStep(c, s, t) {
      KillInv(c, s, t);
    } else if i: nat :| ReceiveScale(c, s, t, i) || ReceiveWait(c, s, t, i) {
      ReceiveInv(c, s, t, i);
    } else {
      OtherMainInv(c, s, t);
    }
  }

  /** Once every scaling result has been received, an error among them is the only one: the first ends the range. */
  lemma OnlyError(c: Config, s: State, f: nat)
    requires MainInv(c, s) && AllOf(|c.scale|, s.sent) && BadScale(c, f)
    ensures OneBadScale(c)
  {
    assert f in s.sent;
    forall i: nat | BadScale(c, i) ensures i == f { assert i in s.sent; }
  }

  /** A switch that is not vulnerable has no error to wipe when the stateful sets are listed first: only deployments'
      workers have been started. */
  lemma FirstListingSafe(c: Config, s: State)
    requires GotInv(c, s) && !Vulnerable(c) && !AfterKill(s.coord)
    requires forall i: nat | i in s.sent :: i < c.deployments
    requires s.waited == {}
    ensures !s.got
  {
  }

  /** Nor when they are listed again: all scaling results were received, and only deployments' waiters started. */
  lemma SecondListingSafe(c: Config, s: State)
    requires GotInv(c, s) && MainInv(c, s) && !Vulnerable(c) && !AfterKill(s.coord)
    requires AllOf(|c.scale|, s.sent)
    requires forall i: nat | i in s.waited :: i < c.deployments
    ensures !s.got
  {
    if f: nat :| BadScale(c, f) {
      OnlyError(c, s, f);
      assert false;
    }
  }

  lemma SoundListing(c: Config, s: State, t: State)
    requires c.Valid() && Sound(c) && Inv(c, s) && SoundInv(c, s) && ListStep(c, s, t)
    ensures SoundInv(c, t)
  {
    if c.sharedErr {
      NothingToWipe(c, s, t);
    }
    assert t == s.(err := s.err, coord := t.coord);
  }

  lemma NothingToWipe(c: Config, s: State, t: State)
    requires c.Valid() && c.sharedErr && Sound(c) && Inv(c, s) && SoundInv(c, s) && ListStep(c, s, t)
    ensures !s.got && !s.err
  {
    if ListSetsAgain(c, s, t) { NothingToWipeAgain(c, s); } else { NothingToWipeFirst(c, s); }
  }

  lemma NothingToWipeFirst(c: Config, s: State)
    requires Inv(c, s) && !Vulnerable(c) && (s.coord == Listing || s.coord == SpawnDeps)
    ensures !s.got
  {
    assert s.spawned <= c.deployments && s.waiting == 0;
    assert s.waited == {} by {
      assert forall i: nat :: i !in s.waited;
    }
    FirstListingSafe(c, s);
  }

  lemma NothingToWipeAgain(c: Config, s: State)
    requires Inv(c, s) && !Vulnerable(c) && s.coord == SpawnDepWaits
    ensures !s.got
  {
    AwaitsDeployments(c, s);
    SecondListingSafe(c, s);
  }

  lemma AwaitsDeployments(c: Config, s: State)
    requires CoordInv(c, s) && s.coord == SpawnDepWaits && forall i: nat | i in s.waited :: i < s.waiting
    ensures AllOf(|c.scale|, s.sent) && !AfterKill(s.coord)
    ensures forall i: nat | i in s.waited :: i < c.deployments
  {
  }

  lemma SoundCoordinator(c: Config, s: State, t: State)
    requires c.Valid() && Sound(c) && Inv(c, s) && SoundInv(c, s) && CoordinatorStep(c, s, t)
    ensures SoundInv(c, t)
  {
    if ListStep(c, s, t) {
      SoundListing(c, s, t);
    } else {
      assert t.err == s.err && t.got == s.got && t.main == s.main && t.waited == s.waited;
    }
  }

  lemma SoundMain(c: Config, s: State, t: State)
    requires c.Valid() && Inv(c, s) && SoundInv(c, s) && MainStep(c, s, t)
    ensures SoundInv(c, t)
  {
    if i: nat :| ReceiveWait(c, s, t, i) {
      forall k: nat | k < |c.scale| ensures !BadScale(c, k) { assert k in s.sent; }
    }
  }

  lemma SoundStep(c: Config, s: State, t: State)
    requires c.Valid() && Sound(c) && Inv(c, s) && SoundInv(c, s) && Next(c, s, t)
    ensures SoundInv(c, t)
  {
    if CoordinatorStep(c, s, t) { SoundCoordinator(c, s, t); } else { SoundMain(c, s, t); }
  }

  // ---------- how far the main routine gets with an error it has received ----------

  /** A deployment's scaling error has been received, and wiped out since. */
  ghost predicate DeploymentErrorWiped(c: Config, s: State) {
    c.sharedErr && exists i: nat :: i < c.deployments && i in s.sent && BadScale(c, i)
  }

  /** The main routine passes an open scaling channel only with an error, and past the first test only when that error
      was a deployment's and is wiped out; of the waiting results at most one is an error, and it ends the range. */
  ghost predicate PassInv(c: Config, s: State) {
    && (s.main == CheckScale && !s.scaleClosed ==>
          && (exists i: nat :: i in s.sent && BadScale(c, i))
          && (!s.err ==> DeploymentErrorWiped(c, s)))
    && (s.main == RangeWait && !s.scaleClosed ==> DeploymentErrorWiped(c, s))
    && (s.main == CheckScale ==> s.waited == {})
    && (s.main == RangeWait ==> forall i: nat | i in s.waited :: !BadWait(c, i))
    && (forall i: nat, k: nat | i in s.waited && k in s.waited && BadWait(c, i) && BadWait(c, k) :: i == k)
  }

  lemma PassCoordinator(c: Config, s: State, t: State)
    requires c.Valid() && Inv(c, s) && PassInv(c, s) && CoordinatorStep(c, s, t)
    ensures PassInv(c, t)
  {
    assert t.main == s.main && t.sent == s.sent && t.waited == s.waited;
    if ListStep(c, s, t) && s.main == CheckScale && !s.scaleClosed {
      var i: nat :| i in s.sent && BadScale(c, i);
      assert i < s.spawned;
    }
  }

  lemma PassReceive(c: Config, s: State, t: State, i: nat)
    requires c.Valid() && Inv(c, s) && PassInv(c, s) && (ReceiveScale(c, s, t, i) || ReceiveWait(c, s, t, i))
    ensures PassInv(c, t)
  {
    if ReceiveScale(c, s, t, i) {
      assert i in t.sent && t.waited == s.waited;
    } else {
      assert t.sent == s.sent && t.scaleClosed == s.scaleClosed;
      assert forall k: nat :: k in t.waited <==> k in s.waited || k == i;
    }
  }

  lemma PassMain(c: Config, s: State, t: State)
    requires c.Valid() && Inv(c, s) && PassInv(c, s)
    requires ScaleRangeEnds(s, t) || TestScale(s, t) || ReceiveKill(s, t) || WaitRangeEnds(s, t) || TestFinal(s, t)
    ensures PassInv(c, t)
  {
    assert t.sent == s.sent && t.waited == s.waited && t.scaleClosed == s.scaleClosed;
  }

  lemma PassStep(c: Config, s: State, t: State)
    requires c.Valid() && Inv(c, s) && PassInv(c, s) && Next(c, s, t)
    ensures PassInv(c, t)
  {
    if CoordinatorStep(c, s, t) {
      PassCoordinator(c, s, t);
    } else if i: nat :| ReceiveScale(c, s, t, i) || ReceiveWait(c, s, t, i) {
      PassReceive(c, s, t, i);
    } else {
      PassMain(c, s, t);
    }
  }
}
