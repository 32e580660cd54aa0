// The verdict variable of a mode switch is shared: the goroutine that lists workloads assigns
// it as well. Exactly which switches can lose an error that way, and what that leads to.

module ModeSwitchRace {
  import opened ModeSwitch
  import opened ModeSwitchHistory

  /** Some schedule leads to s. */
  ghost predicate Reachable(c: Config, s: State) {
    exists tr: seq<State> :: History(c, tr) && tr[|tr| - 1] == s
  }

  lemma StartReachable(c: Config)
    requires c.Valid()
    ensures Reachable(c, Start)
  {
    assert History(c, [Start]);
  }

  lemma Extend(c: Config, s: State, t: State)
    requires Reachable(c, s) && Next(c, s, t)
    ensures Reachable(c, t)
  {
    var tr: seq<State> :| History(c, tr) && tr[|tr| - 1] == s;
    var tr' := tr + [t];
    forall i: nat | i < |tr'| - 1 ensures StepAt(c, tr', i) {
      if i < |tr| - 1 { assert StepAt(c, tr, i); }
    }
    assert History(c, tr') && tr'[|tr'| - 1] == t;
  }

  /** The main routine received an error and goes on as if it had not. */
  predicate Lost(s: State) {
    s.got && (s.main == RangeWait || s.main == Finished(true))
  }

  // ---------- schedules ----------

  const Spawning := Start.(coord := SpawnDeps)

  lemma {:induction false} SpawnDeployments(c: Config, k: nat)
    requires c.Valid() && k <= c.deployments
    ensures Reachable(c, Spawning.(spawned := k))
  {
    if k == 0 {
      StartReachable(c);
      assert ListDeployments(c, Start, Spawning);
      Extend(c, Start, Spawning);
    } else {
      SpawnDeployments(c, k - 1);
      assert SpawnWorker(c, Spawning.(spawned := k - 1), Spawning.(spawned := k));
      Extend(c, Spawning.(spawned := k - 1), Spawning.(spawned := k));
    }
  }

  function AllSpawned(c: Config): State {
    Spawning.(coord := SpawnSets, spawned := |c.scale|)
  }

  lemma {:induction false} SpawnAll(c: Config, k: nat)
    requires c.Valid() && c.deployments <= k <= |c.scale|
    ensures Reachable(c, AllSpawned(c).(spawned := k))
  {
    if k == c.deployments {
      SpawnDeployments(c, k);
      assert ListSets(c, Spawning.(spawned := k), AllSpawned(c).(spawned := k));
      Extend(c, Spawning.(spawned := k), AllSpawned(c).(spawned := k));
    } else {
      SpawnAll(c, k - 1);
      assert SpawnWorker(c, AllSpawned(c).(spawned := k - 1), AllSpawned(c).(spawned := k));
      Extend(c, AllSpawned(c).(spawned := k - 1), AllSpawned(c).(spawned := k));
    }
  }

  function FirstBut(k: nat, f: nat): set<nat>
    ensures forall i: nat :: i in FirstBut(k, f) <==> i < k && i != f
  {
    if k == 0 then {} else if k - 1 == f then FirstBut(k - 1, f) else FirstBut(k - 1, f) + {k - 1}
  }

  /** All workers are started and the results before k are received, except f's, which all are nil. */
  lemma {:induction false} ReceiveGood(c: Config, k: nat, f: nat)
    requires c.Valid() && k <= |c.scale| && forall i: nat | BadScale(c, i) :: i == f
    ensures Reachable(c, AllSpawned(c).(sent := FirstBut(k, f)))
  {
    if k == 0 {
      SpawnAll(c, |c.scale|);
      assert FirstBut(0, f) == {};
    } else {
      ReceiveGood(c, k - 1, f);
      var s, t := AllSpawned(c).(sent := FirstBut(k - 1, f)), AllSpawned(c).(sent := FirstBut(k, f));
      if k - 1 == f {
        assert FirstBut(k, f) == FirstBut(k - 1, f);
      } else {
        assert FirstBut(k, f) == FirstBut(k - 1, f) + {k - 1};
        assert !BadScale(c, k - 1);
        assert ReceiveScale(c, s, t, k - 1);
        assert MainStep(c, s, t);
        Extend(c, s, t);
      }
    }
  }

  /** The scale phase is over; the main routine has not looked yet. err and got tell whether the last result was bad. */
  function ScaleOver(c: Config, main: Main, err: bool): State {
    AllSpawned(c).(coord := SpawnDepWaits, sent := FirstBut(|c.scale|, |c.scale|), scaleClosed := true,
                   main := main, err := err, got := err)
  }

  lemma AllReceivedAndClosed(c: Config, f: nat)
    requires c.Valid() && forall i: nat | BadScale(c, i) :: i == f
    ensures if BadScale(c, f) then Reachable(c, ScaleOver(c, CheckScale, true))
        else Reachable(c, ScaleOver(c, RangeScale, false))
  {
    var n := |c.scale|;
    if BadScale(c, f) {
      ReceiveGood(c, n, f);
      var s := AllSpawned(c).(sent := FirstBut(n, f));
      var t := AllSpawned(c).(sent := FirstBut(n, n), main := CheckScale, err := true, got := true);
      assert FirstBut(n, n) == FirstBut(n, f) + {f};
      assert ReceiveScale(c, s, t, f);
      assert MainStep(c, s, t);
      Extend(c, s, t);
      assert CloseScale(c, t, ScaleOver(c, CheckScale, true));
      Extend(c, t, ScaleOver(c, CheckScale, true));
    } else {
      assert forall i: nat :: !BadScale(c, i);
      ReceiveGood(c, n, n);
      var s := AllSpawned(c).(sent := FirstBut(n, n));
      assert CloseScale(c, s, ScaleOver(c, RangeScale, false));
      Extend(c, s, ScaleOver(c, RangeScale, false));
    }
  }

  /** Waiters are started while the main routine stays where it is. */
  lemma {:induction false} StartWaiters(c: Config, s: State, k: nat)
    requires c.Valid() && Reachable(c, s) && s.waiting <= k
    requires (s.coord == SpawnDepWaits && k <= c.deployments) || (s.coord == SpawnSetWaits && k <= |c.waits|)
    ensures Reachable(c, s.(waiting := k))
  {
    if k == s.waiting {
      assert s == s.(waiting := k);
    } else {
      StartWaiters(c, s, k - 1);
      assert SpawnWaiter(c, s.(waiting := k - 1), s.(waiting := k));
      Extend(c, s.(waiting := k - 1), s.(waiting := k));
    }
  }

  /** Workers are started while the main routine stays where it is. */
  lemma {:induction false} StartWorkers(c: Config, s: State, k: nat)
    requires c.Valid() && Reachable(c, s) && s.coord == SpawnSets && s.spawned <= k <= |c.scale|
    ensures Reachable(c, s.(spawned := k))
  {
    if k == s.spawned {
      assert s == s.(spawned := k);
    } else {
      StartWorkers(c, s, k - 1);
      assert SpawnWorker(c, s.(spawned := k - 1), s.(spawned := k));
      Extend(c, s.(spawned := k - 1), s.(spawned := k));
    }
  }

  /** The waiting results before k are received, except g's, which all are nil. */
  lemma {:induction false} ReceiveGoodWaits(c: Config, s: State, k: nat, g: nat)
    requires c.Valid() && Reachable(c, s) && s.main == RangeWait && s.waited == {} && s.waiting == |c.waits|
    requires k <= |c.waits| && forall i: nat | BadWait(c, i) :: i == g
    ensures Reachable(c, s.(waited := FirstBut(k, g)))
  {
    if k == 0 {
      assert FirstBut(0, g) == {} && s == s.(waited := {});
    } else {
      ReceiveGoodWaits(c, s, k - 1, g);
      var u, t := s.(waited := FirstBut(k - 1, g)), s.(waited := FirstBut(k, g));
      if k - 1 == g {
        assert FirstBut(k, g) == FirstBut(k - 1, g);
      } else {
        assert FirstBut(k, g) == FirstBut(k - 1, g) + {k - 1};
        assert !BadWait(c, k - 1);
        assert ReceiveWait(c, u, t, k - 1);
        assert MainStep(c, u, t);
        Extend(c, u, t);
      }
    }
  }

  // ---------- how an error gets lost ----------

  /** A deployment's scaling error has been received, and all deployments' workers are started. */
  function DeploymentFailed(c: Config, i: nat): State {
    Spawning.(spawned := c.deployments, sent := {i}, err := true, got := true, main := CheckScale)
  }

  lemma DeploymentErrorReceived(c: Config, i: nat)
    requires c.Valid() && i < c.deployments && BadScale(c, i)
    ensures Reachable(c, DeploymentFailed(c, i))
  {
    SpawnDeployments(c, c.deployments);
    var s := Spawning.(spawned := c.deployments);
    assert s.sent + {i} == {i};
    assert ReceiveScale(c, s, DeploymentFailed(c, i), i);
    assert MainStep(c, s, DeploymentFailed(c, i));
    Extend(c, s, DeploymentFailed(c, i));
  }

  /** A deployment's scaling error survives the first test; the first listing of stateful sets wipes it out before the
      second. */
  lemma LoseDeploymentError(c: Config, i: nat) returns (t: State)
    requires c.Valid() && c.sharedErr && i < c.deployments && BadScale(c, i)
    ensures Reachable(c, t) && t.got && t.main == Finished(true)
  {
    DeploymentErrorReceived(c, i);
    var s0 := DeploymentFailed(c, i);
    var s1 := s0.(main := CheckFinal);
    assert TestScale(s0, s1);
    Extend(c, s0, s1);
    var s2 := s1.(err := false, coord := SpawnSets);
    assert ListSets(c, s1, s2);
    Extend(c, s1, s2);
    t := s2.(main := Finished(true));
    assert TestFinal(s2, t);
    Extend(c, s2, t);
  }

  /** The only scaling error is received last and survives the first test; the second listing wipes it out. */
  lemma LoseLastError(c: Config, f: nat) returns (t: State)
    requires c.Valid() && c.sharedErr && BadScale(c, f) && forall i: nat | BadScale(c, i) :: i == f
    ensures Reachable(c, t) && t.got && t.main == Finished(true)
  {
    AllReceivedAndClosed(c, f);
    var s0 := ScaleOver(c, CheckScale, true);
    var s1 := ScaleOver(c, CheckFinal, true);
    assert TestScale(s0, s1);
    Extend(c, s0, s1);
    StartWaiters(c, s1, c.deployments);
    var s2 := s1.(waiting := c.deployments);
    var s3 := s2.(err := false, coord := SpawnSetWaits);
    assert ListSetsAgain(c, s2, s3);
    Extend(c, s2, s3);
    t := s3.(main := Finished(true));
    assert TestFinal(s3, t);
    Extend(c, s3, t);
  }

  /** A deployment's waiting error, wiped by the second listing. */
  lemma LoseWaitError(c: Config, j: nat) returns (t: State)
    requires c.Valid() && c.sharedErr && j < c.deployments && BadWait(c, j)
    requires forall i: nat :: !BadScale(c, i)
    ensures Reachable(c, t) && t.got && t.main == Finished(true)
  {
    AllReceivedAndClosed(c, 0);
    var r0 := ScaleOver(c, RangeScale, false);
    var r1 := ScaleOver(c, CheckScale, false);
    assert ScaleRangeEnds(r0, r1);
    Extend(c, r0, r1);
    var r2 := ScaleOver(c, RangeWait, false);
    assert TestScale(r1, r2);
    Extend(c, r1, r2);
    StartWaiters(c, r2, c.deployments);
    var s0 := r2.(waiting := c.deployments);
    var s1 := s0.(waited := {j}, err := true, got := true, main := CheckFinal);
    assert s0.waited + {j} == {j};
    assert ReceiveWait(c, s0, s1, j);
    assert MainStep(c, s0, s1);
    Extend(c, s0, s1);
    var s2 := s1.(err := false, coord := SpawnSetWaits);
    assert ListSetsAgain(c, s1, s2);
    Extend(c, s1, s2);
    t := s2.(main := Finished(true));
    assert TestFinal(s2, t);
    Extend(c, s2, t);
  }

  /** Every vulnerable switch has a schedule that reports DONE although a result was an error. */
  lemma FalseDone(c: Config) returns (t: State)
    requires c.Valid() && c.sharedErr && Vulnerable(c)
    ensures Reachable(c, t) && t.got && t.main == Finished(true) && !c.AllGood()
  {
    if i: nat :| i < c.deployments && BadScale(c, i) {
      t := LoseDeploymentError(c, i);
    } else if f: nat :| BadScale(c, f) {
      t := LoseLastError(c, f);
    } else {
      var j: nat :| j < c.deployments && BadWait(c, j);
      t := LoseWaitError(c, j);
    }
  }

  lemma RightWhenSound(c: Config, t: State)
    requires Reachable(c, t) && t.main == Finished(true) && Sound(c)
    ensures c.AllGood()
  {
    var tr: seq<State> :| History(c, tr) && tr[|tr| - 1] == t;
    VerdictIsScheduleIndependent(c, tr, |tr| - 1);
  }

  /** With the shared variable, some schedule reports DONE although a result was an error iff a deployment fails to
      scale, or exactly one scaling fails, or all scaling succeeds and waiting for a deployment fails. */
  lemma FalseDoneIff(c: Config)
    requires c.Valid() && c.sharedErr
    ensures (exists t :: Reachable(c, t) && t.main == Finished(true) && !c.AllGood()) <==> Vulnerable(c)
  {
    if Vulnerable(c) {
      var t := FalseDone(c);
    }
    if t :| Reachable(c, t) && t.main == Finished(true) && !c.AllGood() {
      if Sound(c) { RightWhenSound(c, t); }
    }
  }

  /** An error is never lost when the variable is not shared, nor when the switch is not vulnerable. */
  lemma NeverLostWhenSound(c: Config, tr: seq<State>, i: nat)
    requires History(c, tr) && i < |tr| && Sound(c)
    ensures !Lost(tr[i])
  {
    AlwaysInv(c, tr, i);
  }

  lemma LostOnlyWhenUnsound(c: Config, t: State)
    requires Reachable(c, t) && Lost(t)
    ensures !Sound(c)
  {
    if Sound(c) {
      var tr: seq<State> :| History(c, tr) && tr[|tr| - 1] == t;
      NeverLostWhenSound(c, tr, |tr| - 1);
    }
  }

  /** Going on after an error has the same condition as reporting DONE in the end. */
  lemma ErrorLostIff(c: Config)
    requires c.Valid() && c.sharedErr
    ensures (exists t :: Reachable(c, t) && Lost(t)) <==> Vulnerable(c)
  {
    if Vulnerable(c) {
      var t := FalseDone(c);
      assert Lost(t);
    }
    if t :| Reachable(c, t) && Lost(t) {
      LostOnlyWhenUnsound(c, t);
    }
  }

  // ---------- hanging ----------

  /** Every switch that can hang has a schedule that does: the main routine waits for waiters that are never started,
      because a worker waits for the main routine. */
  lemma SwitchHangs(c: Config) returns (t: State)
    requires c.Valid() && CanHang(c)
    ensures Reachable(c, t) && !t.main.Finished? && Halted(c, t)
  {
    var i: nat :| i < c.deployments && BadScale(c, i);
    DeploymentErrorReceived(c, i);
    var s0 := DeploymentFailed(c, i);
    var s1 := s0.(err := false, coord := SpawnSets);
    assert ListSets(c, s0, s1);
    Extend(c, s0, s1);
    var s2 := s1.(main := RangeWait);
    assert TestScale(s1, s2);
    Extend(c, s1, s2);
    StartWorkers(c, s2, |c.scale|);
    t := s2.(spawned := |c.scale|);
    var other: nat := if i == 0 then 1 else 0;
    assert other < |c.scale| && other !in t.sent;
  }

  /** With the shared variable, some schedule gets stuck before the verdict iff a deployment fails to scale and there is
      another workload. */
  lemma HangsIff(c: Config)
    requires c.Valid() && c.sharedErr
    ensures (exists t :: Reachable(c, t) && !t.main.Finished? && Halted(c, t)) <==>
            |c.scale| >= 2 && exists i: nat :: i < c.deployments && BadScale(c, i)
  {
    if CanHang(c) {
      var t := SwitchHangs(c);
    }
    if t :| Reachable(c, t) && !t.main.Finished? && Halted(c, t) {
      HaltedCanHang(c, t);
    }
  }

  lemma HaltedCanHang(c: Config, t: State)
    requires Reachable(c, t) && !t.main.Finished? && Halted(c, t)
    ensures CanHang(c)
  {
    if !CanHang(c) {
      var tr: seq<State> :| History(c, tr) && tr[|tr| - 1] == t;
      var u := NoDeadlock(c, tr, |tr| - 1);
    }
  }

  // ---------- deletion after a failed scaling ----------

  /** At most one waiting result is an error. */
  ghost predicate AtMostOneBadWait(c: Config) {
    forall i: nat, k: nat | BadWait(c, i) && BadWait(c, k) :: i == k
  }

  /** What lets the switch delete executor pods after a failed scaling: there are pods to delete, the failure is the
      only one, and the waiting results can be received: with the shared variable, because the failure is wiped out;
      without it, because there are none. */
  ghost predicate DeletesAfterFailure(c: Config) {
    && OneBadScale(c) && c.standby && c.kill.listed && c.kill.pods != []
    && if c.sharedErr then AtMostOneBadWait(c) else c.waits == []
  }

  /** All workers and waiters are received from, and the coordinator has yet to notice. */
  ghost predicate AllReceived(c: Config, s: State) {
    s.coord == SpawnSetWaits && s.waiting == |c.waits| && AllOf(s.waiting, s.waited)
  }

  lemma ReceiveAllUnshared(c: Config, f: nat) returns (t: State)
    requires c.Valid() && BadScale(c, f) && (forall i: nat | BadScale(c, i) :: i == f)
    requires !c.sharedErr && c.waits == []
    ensures Reachable(c, t) && AllReceived(c, t)
  {
    AllReceivedAndClosed(c, f);
    var s := ScaleOver(c, CheckScale, true);
    t := s.(coord := SpawnSetWaits);
    assert ListSetsAgain(c, s, t);
    Extend(c, s, t);
  }

  lemma ReceiveAllShared(c: Config, f: nat) returns (t: State)
    requires c.Valid() && BadScale(c, f) && (forall i: nat | BadScale(c, i) :: i == f)
    requires c.sharedErr && AtMostOneBadWait(c)
    ensures Reachable(c, t) && AllReceived(c, t)
  {
    AllReceivedAndClosed(c, f);
    StartWaiters(c, ScaleOver(c, CheckScale, true), c.deployments);
    var s0 := ScaleOver(c, CheckScale, true).(waiting := c.deployments);
    var s1 := s0.(err := false, coord := SpawnSetWaits);
    assert ListSetsAgain(c, s0, s1);
    Extend(c, s0, s1);
    var s2 := s1.(main := RangeWait);
    assert TestScale(s1, s2);
    Extend(c, s1, s2);
    var n := |c.waits|;
    StartWaiters(c, s2, n);
    var s3 := s2.(waiting := n);
    var g: nat := if g: nat :| BadWait(c, g) then g else n;
    ReceiveGoodWaits(c, s3, n, g);
    t := s3.(waited := FirstBut(n, g));
    if BadWait(c, g) {
      var s4 := t;
      t := s4.(waited := s4.waited + {g}, err := true, got := true, main := CheckFinal);
      assert ReceiveWait(c, s4, t, g);
      assert MainStep(c, s4, t);
      Extend(c, s4, t);
    }
  }

  lemma DeleteAfterFailure(c: Config) returns (t: State)
    requires c.Valid() && DeletesAfterFailure(c)
    ensures Reachable(c, t) && t.deleting > 0
  {
    var f: nat :| BadScale(c, f) && forall i: nat | BadScale(c, i) :: i == f;
    var s0;
    if c.sharedErr { s0 := ReceiveAllShared(c, f); } else { s0 := ReceiveAllUnshared(c, f); }
    var s1 := s0.(coord := Killing(0, false));
    assert AllDown(c, s0, s1);
    Extend(c, s0, s1);
    t := s1.(deleting := s1.deleting + 1, coord := if c.kill.pods[0] then Killing(1, false) else Reporting(1));
    assert DeletePod(c, s1, t);
    Extend(c, s1, t);
  }

  lemma DeletedAfterFailure(c: Config, t: State, f: nat)
    requires Reachable(c, t) && t.deleting > 0 && BadScale(c, f)
    ensures DeletesAfterFailure(c)
  {
    var tr: seq<State> :| History(c, tr) && tr[|tr| - 1] == t;
    var last := |tr| - 1;
    DeletionsComeLast(c, tr, last);
    AlwaysInv(c, tr, last);
    OnlyError(c, t, f);
    if c.sharedErr {
      forall i: nat, k: nat | BadWait(c, i) && BadWait(c, k) ensures i == k { assert i in t.waited && k in t.waited; }
    } else if c.waits != [] {
      NoDeletionAfterFailedScale(c, tr, last);
    }
  }

  /** Deletion of executor pods can start after a failed scaling iff that failure is the only one, there are pods to
      delete, and: with the shared variable, at most one waiting result is an error; without it, nothing is awaited. */
  lemma DeletionAfterFailedScaleIff(c: Config)
    requires c.Valid()
    ensures (exists t :: Reachable(c, t) && t.deleting > 0 && exists i: nat :: BadScale(c, i)) <==>
        DeletesAfterFailure(c)
  {
    if DeletesAfterFailure(c) {
      var t := DeleteAfterFailure(c);
    }
    if t :| Reachable(c, t) && t.deleting > 0 && exists i: nat :: BadScale(c, i) {
      var f: nat :| BadScale(c, f);
      DeletedAfterFailure(c, t, f);
    }
  }
}
