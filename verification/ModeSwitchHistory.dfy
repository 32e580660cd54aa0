// Theorems about every interleaving of a mode switch.

module ModeSwitchHistory {
  import opened ModeSwitch
  import opened ComponentHealth

  ghost predicate StepAt(c: Config, tr: seq<State>, i: nat) {
    i + 1 < |tr| && Next(c, tr[i], tr[i + 1])
  }

  /** One schedule of the switch, from its start, not necessarily to its end. */
  ghost predicate History(c: Config, tr: seq<State>) {
    c.Valid() && tr != [] && tr[0] == Start && forall i: nat | i < |tr| - 1 :: StepAt(c, tr, i)
  }

  lemma {:induction false} AlwaysInv(c: Config, tr: seq<State>, i: nat)
    requires History(c, tr) && i < |tr|
    ensures Inv(c, tr[i]) && PassInv(c, tr[i])
    ensures Sound(c) ==> SoundInv(c, tr[i])
  {
    if i == 0 {
      StartInv(c);
    } else {
      AlwaysInv(c, tr, i - 1);
      assert StepAt(c, tr, i - 1);
      NextInv(c, tr[i - 1], tr[i]);
      PassStep(c, tr[i - 1], tr[i]);
      if Sound(c) { SoundStep(c, tr[i - 1], tr[i]); }
    }
  }

  // ---------- verdict ----------

  /** Whatever the schedule, the verdict is DONE iff every scaling, waiting and pod deletion result is nil. */
  lemma VerdictIsScheduleIndependent(c: Config, tr: seq<State>, i: nat)
    requires History(c, tr) && i < |tr| && Sound(c)
    requires tr[i].main.Finished?
    ensures tr[i].main.done <==> c.AllGood()
  {
    var s := tr[i];
    AlwaysInv(c, tr, i);
    if s.main.done {
      forall k: nat | k < |c.scale| ensures c.scale[k] { assert k in s.sent; assert !BadScale(c, k); }
      forall k: nat | k < |c.waits| ensures c.waits[k] { assert k in s.waited; assert !BadWait(c, k); }
    }
  }

  // ---------- progress ----------

  lemma ScaleProgress(c: Config, s: State) returns (t: State)
    requires c.Valid() && Inv(c, s) && s.main == RangeScale
    ensures Next(c, s, t)
  {
    if s.scaleClosed {
      t := s.(main := CheckScale);
      assert ScaleRangeEnds(s, t);
    } else if s.coord == Listing {
      t := ClearErr(c, s).(coord := SpawnDeps);
    } else if s.coord == SpawnDeps && s.spawned == c.deployments {
      t := ClearErr(c, s).(coord := SpawnSets);
    } else if s.coord == SpawnDeps || s.spawned < |c.scale| {
      t := s.(spawned := s.spawned + 1);
    } else if i: nat :| i < |c.scale| && i !in s.sent {
      t := if c.scale[i] then s.(sent := s.sent + {i})
           else s.(sent := s.sent + {i}, err := true, got := true, main := CheckScale);
      assert ReceiveScale(c, s, t, i);
      assert MainStep(c, s, t);
    } else {
      t := s.(coord := SpawnDepWaits, scaleClosed := true);
      assert CloseScale(c, s, t);
    }
  }

  lemma WaitProgress(c: Config, s: State) returns (t: State)
    requires c.Valid() && Inv(c, s) && s.main == RangeWait && s.scaleClosed
    ensures Next(c, s, t)
  {
    match s.coord
    case SpawnDepWaits =>
      t := if s.waiting == c.deployments then ClearErr(c, s).(coord := SpawnSetWaits) else s.(waiting := s.waiting + 1);
    case SpawnSetWaits =>
      if s.waiting < |c.waits| {
        t := s.(waiting := s.waiting + 1);
      } else if i: nat :| i < |c.waits| && i !in s.waited {
        t := if c.waits[i] then s.(waited := s.waited + {i})
             else s.(waited := s.waited + {i}, err := true, got := true, main := CheckFinal);
        assert ReceiveWait(c, s, t, i);
        assert MainStep(c, s, t);
      } else {
        t := s.(coord := if !c.standby then Closing else if c.kill.listed then Killing(0, false) else ReportingLast);
        assert AllDown(c, s, t);
      }
    case Killing(n, failed) =>
      t := if n < |c.kill.pods| then
             s.(deleting := s.deleting + 1, coord := if c.kill.pods[n] then Killing(n + 1, false) else Reporting(n + 1))
           else s.(coord := if failed then ReportingLast else Closing);
      assert DeletePod(c, s, t) || KillEnd(c, s, t);
    case Reporting(n) =>
      t := s.(coord := Killing(n, true), err := true, got := true, main := CheckFinal);
      assert ReceiveKill(s, t);
    case ReportingLast =>
      t := s.(coord := Closing, err := true, got := true, main := CheckFinal);
      assert ReceiveKill(s, t);
    case Closing =>
      t := s.(coord := Exited, waitClosed := true);
    case Exited =>
      t := s.(main := CheckFinal);
      assert WaitRangeEnds(s, t);
  }

  /** With every scaling result received the coordinator gets on by itself. */
  lemma ClosingProgress(c: Config, s: State) returns (t: State)
    requires c.Valid() && Inv(c, s) && !s.scaleClosed && AllOf(|c.scale|, s.sent)
    ensures Next(c, s, t)
  {
    if s.coord == Listing {
      t := ClearErr(c, s).(coord := SpawnDeps);
    } else if s.coord == SpawnDeps && s.spawned == c.deployments {
      t := ClearErr(c, s).(coord := SpawnSets);
    } else if s.spawned < |c.scale| {
      t := s.(spawned := s.spawned + 1);
    } else {
      t := s.(coord := SpawnDepWaits, scaleClosed := true);
      assert CloseScale(c, s, t);
    }
  }

  /** No deadlock: while the main routine has not finished some process can step, unless a deployment's error can be
      wiped out before another worker was received from. */
  lemma NoDeadlock(c: Config, tr: seq<State>, i: nat) returns (t: State)
    requires History(c, tr) && i < |tr| && !CanHang(c)
    requires !tr[i].main.Finished?
    ensures Next(c, tr[i], t)
  {
    var s := tr[i];
    AlwaysInv(c, tr, i);
    match s.main
    case RangeScale => t := ScaleProgress(c, s);
    case CheckScale =>
      t := s.(main := if s.err then CheckFinal else RangeWait);
      assert TestScale(s, t);
    case RangeWait =>
      if s.scaleClosed {
        t := WaitProgress(c, s);
      } else {
        var f: nat :| f < c.deployments && f in s.sent && BadScale(c, f);
        assert |c.scale| == 1 && f == 0;
        t := ClosingProgress(c, s);
      }
    case CheckFinal =>
      t := s.(main := Finished(!s.err));
      assert TestFinal(s, t);
  }

  // ---------- termination ----------

  function CoordinatorLeft(c: Config, coord: Coordinator): int {
    var p := 2 * |c.kill.pods|;
    match coord
    case Listing => 8 + p
    case SpawnDeps => 7 + p
    case SpawnSets => 6 + p
    case SpawnDepWaits => 5 + p
    case SpawnSetWaits => 4 + p
    case Killing(n, _) => 3 + p - 2 * n
    case Reporting(n) => 4 + p - 2 * n
    case ReportingLast => 2
    case Closing => 1
    case Exited => 0
  }

  function MainLeft(main: Main): nat {
    match main
    case RangeScale => 4
    case CheckScale => 3
    case RangeWait => 2
    case CheckFinal => 1
    case Finished(_) => 0
  }

  /** Steps not yet taken: workers and waiters to start, results to send, channels to close, tests to make. */
  function Left(c: Config, s: State): int {
    CoordinatorLeft(c, s.coord) + MainLeft(s.main)
    + (|c.scale| - s.spawned) + (|c.waits| - s.waiting) + (|c.scale| - |s.sent|) + (|c.waits| - |s.waited|)
  }

  lemma {:induction false} BoundedSet(done: set<nat>, n: nat)
    requires forall i: nat | i in done :: i < n
    ensures |done| <= n
  {
    if n == 0 {
      assert done == {};
    } else {
      BoundedSet(done - {n - 1}, n - 1);
    }
  }

  lemma LeftIsNatural(c: Config, s: State)
    requires c.Valid() && Inv(c, s)
    ensures Left(c, s) >= 0
  {
    BoundedSet(s.sent, s.spawned);
    BoundedSet(s.waited, s.waiting);
  }

  lemma CoordinatorWorks(c: Config, s: State, t: State)
    requires c.Valid() && CoordInv(c, s) && CoordinatorStep(c, s, t)
    ensures Left(c, t) < Left(c, s)
  {
    if ListStep(c, s, t) {
    } else if SpawnStep(c, s, t) {
    } else {
      assert KillStep(c, s, t);
    }
  }

  lemma MainWorks(c: Config, s: State, t: State)
    requires MainStep(c, s, t)
    ensures Left(c, t) < Left(c, s)
  {
    if i: nat :| ReceiveScale(c, s, t, i) || ReceiveWait(c, s, t, i) {
      ReceiveWorks(c, s, t, i);
    } else {
      assert t.sent == s.sent && t.waited == s.waited && t.spawned == s.spawned && t.waiting == s.waiting;
    }
  }

  lemma ReceiveWorks(c: Config, s: State, t: State, i: nat)
    requires ReceiveScale(c, s, t, i) || ReceiveWait(c, s, t, i)
    ensures Left(c, t) < Left(c, s)
  {
    assert t.coord == s.coord && t.spawned == s.spawned && t.waiting == s.waiting;
    if ReceiveScale(c, s, t, i) {
      OneMore(s.sent, i);
      if c.scale[i] {
        assert t == s.(sent := s.sent + {i});
      }
    } else {
      OneMore(s.waited, i);
      if c.waits[i] {
        assert t == s.(waited := s.waited + {i});
      }
    }
  }

  lemma OneMore(done: set<nat>, i: nat)
    ensures i !in done ==> |done + {i}| == |done| + 1
  {
  }

  lemma LeftDecreases(c: Config, s: State, t: State)
    requires c.Valid() && Inv(c, s) && Next(c, s, t)
    ensures Left(c, t) < Left(c, s)
  {
    if CoordinatorStep(c, s, t) { CoordinatorWorks(c, s, t); } else { MainWorks(c, s, t); }
  }

  /** No schedule is longer than the work there is. */
  lemma {:induction false} HistoriesAreBounded(c: Config, tr: seq<State>, i: nat)
    requires History(c, tr) && i < |tr|
    ensures 0 <= Left(c, tr[i]) <= Left(c, Start) - i
  {
    AlwaysInv(c, tr, i);
    LeftIsNatural(c, tr[i]);
    if i > 0 {
      HistoriesAreBounded(c, tr, i - 1);
      LeftDropsAt(c, tr, i - 1);
    }
  }

  lemma LeftDropsAt(c: Config, tr: seq<State>, i: nat)
    requires History(c, tr) && i + 1 < |tr|
    ensures Left(c, tr[i + 1]) < Left(c, tr[i])
  {
    AlwaysInv(c, tr, i);
    assert StepAt(c, tr, i);
    LeftDecreases(c, tr[i], tr[i + 1]);
  }

  ghost predicate Halted(c: Config, s: State) {
    forall t :: !Next(c, s, t)
  }

  lemma SoundCannotHang(c: Config)
    requires Sound(c)
    ensures !CanHang(c)
  {
  }

  /** Every schedule that has run out of steps has reached the right verdict. */
  lemma EveryScheduleReachesTheVerdict(c: Config, tr: seq<State>)
    requires History(c, tr) && Sound(c)
    requires Halted(c, tr[|tr| - 1])
    ensures tr[|tr| - 1].main == Finished(c.AllGood())
  {
    var last := |tr| - 1;
    if !tr[last].main.Finished? {
      assert !CanHang(c) by { SoundCannotHang(c); }
      var t := NoDeadlock(c, tr, last);
    }
    VerdictIsScheduleIndependent(c, tr, last);
  }

  // ---------- channels and deletions ----------

  /** No send meets a closed channel: when a channel is closed every process that sends on it has been received from;
      and no channel is closed twice. This needs no assumption on the shared variable. */
  lemma NoSendOnClosedChannel(c: Config, tr: seq<State>, i: nat)
    requires History(c, tr) && i < |tr|
    ensures tr[i].scaleClosed ==> tr[i].spawned == |c.scale| && forall k: nat | k < tr[i].spawned :: k in tr[i].sent
    ensures tr[i].waitClosed ==>
      && tr[i].waiting == |c.waits| && (forall k: nat | k < tr[i].waiting :: k in tr[i].waited)
      && !tr[i].coord.Reporting? && tr[i].coord != ReportingLast
    ensures i + 1 < |tr| && CloseScale(c, tr[i], tr[i + 1]) ==> !tr[i].scaleClosed
    ensures i + 1 < |tr| && CloseWait(c, tr[i], tr[i + 1]) ==> !tr[i].waitClosed
    ensures i + 1 < |tr| ==>
        (tr[i].scaleClosed ==> tr[i + 1].scaleClosed) && (tr[i].waitClosed ==> tr[i + 1].waitClosed)
  {
    AlwaysInv(c, tr, i);
    if i + 1 < |tr| { assert StepAt(c, tr, i); }
  }

  /** Executor pods are deleted only on standby, and only after the main routine received every scaling and every
      waiting result. */
  lemma DeletionsComeLast(c: Config, tr: seq<State>, i: nat)
    requires History(c, tr) && i < |tr| && tr[i].deleting > 0
    ensures c.standby && c.kill.listed && c.kill.pods != []
    ensures forall k: nat | k < |c.scale| :: k in tr[i].sent
    ensures forall k: nat | k < |c.waits| :: k in tr[i].waited
  {
    AlwaysDeleting(c, tr, i);
    AlwaysInv(c, tr, i);
  }

  ghost predicate DeletingInv(c: Config, s: State) {
    s.deleting > 0 ==> c.standby && c.kill.listed && c.kill.pods != [] && AfterKill(s.coord)
  }

  lemma {:induction false} AlwaysDeleting(c: Config, tr: seq<State>, i: nat)
    requires History(c, tr) && i < |tr|
    ensures DeletingInv(c, tr[i])
  {
    if i > 0 {
      AlwaysDeleting(c, tr, i - 1);
      AlwaysInv(c, tr, i - 1);
      assert StepAt(c, tr, i - 1);
      DeletingStep(c, tr[i - 1], tr[i]);
    }
  }

  lemma DeletingStep(c: Config, s: State, t: State)
    requires DeletingInv(c, s) && Next(c, s, t) && (s.coord.Killing? ==> c.standby && c.kill.listed)
    ensures DeletingInv(c, t)
  {
    if CoordinatorStep(c, s, t) {
      DeletingCoordinator(c, s, t);
    } else {
      assert t.deleting == s.deleting && (t.coord == s.coord || ReceiveKill(s, t));
    }
  }

  lemma DeletingCoordinator(c: Config, s: State, t: State)
    requires DeletingInv(c, s) && CoordinatorStep(c, s, t) && (s.coord.Killing? ==> c.standby && c.kill.listed)
    ensures DeletingInv(c, t)
  {
    if !DeletePod(c, s, t) {
      assert t.deleting == s.deleting;
      assert AfterKill(s.coord) ==> AfterKill(t.coord);
    }
  }

  /** With something to wait for, no deletion starts after a failed scaling. */
  lemma NoDeletionAfterFailedScale(c: Config, tr: seq<State>, i: nat)
    requires History(c, tr) && i < |tr| && Sound(c)
    requires tr[i].deleting > 0 && c.waits != []
    ensures forall k | 0 <= k < |c.scale| :: c.scale[k]
  {
    DeletionsComeLast(c, tr, i);
    AlwaysInv(c, tr, i);
    assert 0 in tr[i].waited;
    forall k: nat | k < |c.scale| ensures c.scale[k] { assert !BadScale(c, k); }
  }

  // ---------- what DONE says about the cluster ----------

  /** A deployment or stateful set: its configured replicas, whether scaling it succeeds, and what the polls see. */
  datatype Component = Component(replicas: int, scaled: bool, polls: seq<Observation>)

  ghost predicate SeenUpSometime(x: Component) {
    exists i :: 0 <= i < |x.polls| && SeenUp(x.polls[i], x.replicas)
  }

  ghost predicate SeenDownSometime(x: Component) {
    exists i :: 0 <= i < |x.polls| && !SeenUp(x.polls[i], x.replicas)
  }

  /** The switch over the given components; awaited: deployments and the stateful sets of the second listing. */
  ghost function ConfigOf(standby: bool, deployments: nat, scaled: seq<Component>, awaited: seq<Component>, kill: Kill,
                          sharedErr: bool): Config {
    Config(deployments,
           seq(|scaled|, i requires 0 <= i < |scaled| => scaled[i].scaled),
           seq(|awaited|, i requires 0 <= i < |awaited| =>
             if standby then SeenDownSometime(awaited[i]) else SeenUpSometime(awaited[i])),
           standby, kill, sharedErr)
  }

  /** ACTIVE and DONE: every awaited component was seen at some poll with ready pods equal to its configured count
      and above zero. STANDBY and DONE: each was seen not up, and every executor pod was deleted. */
  lemma DoneMeansSeen(standby: bool, deployments: nat, scaled: seq<Component>, awaited: seq<Component>, kill: Kill,
                      sharedErr: bool, tr: seq<State>, i: nat)
    requires History(ConfigOf(standby, deployments, scaled, awaited, kill, sharedErr), tr) && i < |tr|
    requires Sound(ConfigOf(standby, deployments, scaled, awaited, kill, sharedErr))
    requires tr[i].main == Finished(true)
    ensures forall k | 0 <= k < |scaled| :: scaled[k].scaled
    ensures forall k | 0 <= k < |awaited| ::
        if standby then SeenDownSometime(awaited[k]) else SeenUpSometime(awaited[k])
    ensures standby ==> kill.listed && forall k | 0 <= k < |kill.pods| :: kill.pods[k]
  {
    var c := ConfigOf(standby, deployments, scaled, awaited, kill, sharedErr);
    VerdictIsScheduleIndependent(c, tr, i);
    forall k | 0 <= k < |scaled| ensures scaled[k].scaled { assert c.scale[k]; }
    forall k | 0 <= k < |awaited|
      ensures if standby then SeenDownSometime(awaited[k]) else SeenUpSometime(awaited[k])
    {
      assert c.waits[k];
    }
  }

  /** At poll i the component has as many ready pods as it is configured to have, and at least one. */
  ghost predicate UpAt(x: Component, i: nat) {
    i < |x.polls| && !x.polls[i].failed && ReadyPods(x.polls[i].pods) == x.replicas && ReadyPods(x.polls[i].pods) >= 1
  }

  /** Some poll found the component up; on standby, some poll found it otherwise. */
  ghost predicate Reached(x: Component, standby: bool) {
    if standby then exists i: nat :: i < |x.polls| && !UpAt(x, i) else exists i: nat :: UpAt(x, i)
  }

  /** The verdict of a sound switch, on the components themselves. When no process can step any more the switch has
      finished, and it reports DONE iff every component was scaled, every awaited one was up at some poll (on standby:
      not up at some poll), and on standby the executor pods were listed and all deleted. */
  lemma DoneIffSeen(standby: bool, deployments: nat, scaled: seq<Component>, awaited: seq<Component>, kill: Kill,
                    sharedErr: bool, tr: seq<State>)
    requires History(ConfigOf(standby, deployments, scaled, awaited, kill, sharedErr), tr)
    requires Sound(ConfigOf(standby, deployments, scaled, awaited, kill, sharedErr))
    requires Halted(ConfigOf(standby, deployments, scaled, awaited, kill, sharedErr), tr[|tr| - 1])
    ensures tr[|tr| - 1].main.Finished?
    ensures tr[|tr| - 1].main.done <==>
      && (forall k | 0 <= k < |scaled| :: scaled[k].scaled)
      && (forall k | 0 <= k < |awaited| :: Reached(awaited[k], standby))
      && (standby ==> kill.listed && forall k | 0 <= k < |kill.pods| :: kill.pods[k])
  {
    var c := ConfigOf(standby, deployments, scaled, awaited, kill, sharedErr);
    EveryScheduleReachesTheVerdict(c, tr);
    forall k | 0 <= k < |awaited| ensures c.waits[k] <==> Reached(awaited[k], standby) {
      SeenOnPods(awaited[k]);
    }
    assert forall k | 0 <= k < |scaled| :: c.scale[k] <==> scaled[k].scaled;
    if c.AllGood() {
      forall k | 0 <= k < |scaled| ensures scaled[k].scaled { assert c.scale[k]; }
      forall k | 0 <= k < |awaited| ensures Reached(awaited[k], standby) { assert c.waits[k]; }
    } else if bad :| 0 <= bad < |c.scale| && !c.scale[bad] {
      assert !scaled[bad].scaled;
    } else if bad :| 0 <= bad < |c.waits| && !c.waits[bad] {
      assert !Reached(awaited[bad], standby);
    }
  }

  lemma SeenOnPods(x: Component)
    ensures SeenUpSometime(x) <==> Reached(x, false)
    ensures SeenDownSometime(x) <==> Reached(x, true)
  {
    assert forall i: nat | i < |x.polls| :: SeenUp(x.polls[i], x.replicas) <==> UpAt(x, i);
  }
}
