// Health of Airflow components as the site manager sees it: pods to a score per
// component, scores to one status, and the polling loops of a mode switch.

module ComponentHealth {

  datatype Phase = Pending | Running | Succeeded | Failed | Unknown

  datatype Condition = Condition(kind: string, status: string)

  datatype Pod = Pod(phase: Phase, conditions: seq<Condition>)

  /** One answer of the pod list for a component; failed: the call returned an error. */
  datatype Observation = Observation(failed: bool, pods: seq<Pod>)

  const UP := 1
  const DOWN := 0
  const DEGRADED := -10
  const UNKNOWN := 10000

  // ---------- pods ----------

  /** The pod runs and the first condition of kind Ready says True. */
  ghost predicate Ready(pod: Pod) {
    && pod.phase == Running
    && exists i ::
         && 0 <= i < |pod.conditions|
         && pod.conditions[i] == Condition("Ready", "True")
         && forall k | 0 <= k < i :: pod.conditions[k].kind != "Ready"
  }

  method PodRunningAndReady(pod: Pod) returns (ready: bool, failed: bool)
    ensures ready <==> Ready(pod)
    ensures failed ==> !ready
  {
    ready, failed := false, false;
    match pod.phase
    case Failed => failed := true;
    case Succeeded => failed := true;
    case Running =>
      for i := 0 to |pod.conditions|
        invariant forall k | 0 <= k < i :: pod.conditions[k].kind != "Ready"
      {
        if pod.conditions[i].kind == "Ready" {
          ready := pod.conditions[i].status == "True";
          return;
        }
      }
      failed := true;
    case _ =>
  }

  ghost function ReadyPods(pods: seq<Pod>): nat {
    if pods == [] then 0
    else ReadyPods(pods[..|pods| - 1]) + if Ready(pods[|pods| - 1]) then 1 else 0
  }

  /** The component is up in this observation: exactly the configured number of ready pods, and at least one. */
  ghost predicate SeenUp(obs: Observation, replicas: int) {
    !obs.failed && ReadyPods(obs.pods) == replicas > 0
  }

  /** getComponentStatus */
  method GetComponentStatus(obs: Observation, replicas: int) returns (status: int)
    ensures status == UP <==> SeenUp(obs, replicas)
    ensures status == DOWN <==> !obs.failed && ReadyPods(obs.pods) == 0
    ensures status == DEGRADED <==> !obs.failed && 0 < ReadyPods(obs.pods) < replicas
    ensures status == UNKNOWN <==> obs.failed || (ReadyPods(obs.pods) > replicas && ReadyPods(obs.pods) > 0)
  {
    status := UNKNOWN;
    var readyPods := 0;
    for i := 0 to |obs.pods|
      invariant readyPods == ReadyPods(obs.pods[..i])
    {
      assert obs.pods[..i + 1][..i] == obs.pods[..i];
      var ready, failed := PodRunningAndReady(obs.pods[i]);
      if !failed && ready {
        readyPods := readyPods + 1;
      }
    }
    assert obs.pods[..|obs.pods|] == obs.pods;
    if !obs.failed {
      if readyPods == replicas && readyPods > 0 { status := UP; }
      if readyPods == 0 { status := DOWN; }
      if readyPods > 0 && readyPods < replicas { status := DEGRADED; }
    }
  }

  // ---------- polling ----------

  /** Polls until the component is up; ok iff some poll before the timeout saw exactly the configured ready pods. */
  method WaitForScaleUp(polls: seq<Observation>, replicas: int) returns (ok: bool)
    ensures ok <==> exists i :: 0 <= i < |polls| && SeenUp(polls[i], replicas)
  {
    for i := 0 to |polls|
      invariant forall k | 0 <= k < i :: !SeenUp(polls[k], replicas)
    {
      var status := GetComponentStatus(polls[i], replicas);
      if status == UP { return true; }
    }
    ok := false;
  }

  /** Polls until the component is not up; a degraded component and a failed pod list count as scaled down. */
  method WaitForScaleDown(polls: seq<Observation>, replicas: int) returns (ok: bool)
    ensures ok <==> exists i :: 0 <= i < |polls| && !SeenUp(polls[i], replicas)
  {
    for i := 0 to |polls|
      invariant forall k | 0 <= k < i :: SeenUp(polls[k], replicas)
    {
      var status := GetComponentStatus(polls[i], replicas);
      if status != UP { return true; }
    }
    ok := false;
  }

  // ---------- status of the whole service ----------

  datatype Status = Up | Degraded | Down

  predicate IsScore(n: int) {
    n == UP || n == DOWN || n == DEGRADED || n == UNKNOWN
  }

  /** A signed 64-bit product. */
  function Wrap64(n: int): int {
    (n + 0x8000_0000_0000_0000) % 0x1_0000_0000_0000_0000 - 0x8000_0000_0000_0000
  }

  /** The first component that is down or degraded decides; without one, all must be up. */
  ghost function Core(scores: seq<int>): Status {
    if scores == [] then Up
    else if scores[0] == DOWN then Status.Down
    else if scores[0] == DEGRADED then Degraded
    else if scores[0] == UP then Core(scores[1..])
    else if Core(scores[1..]) == Up then Status.Down
    else Core(scores[1..])
  }

  /** What an optional component (flower, statsd) is: absent, or deployed with a score. */
  datatype Optional = Absent | Deployed(score: int)

  ghost function Overall(scores: seq<int>, flower: Optional, statsd: Optional): Status {
    if Core(scores) == Up && (flower !in {Absent, Deployed(UP)} || statsd !in {Absent, Deployed(UP)}) then Degraded
    else Core(scores)
  }

  /** The scores that count, in the order the replica map is walked: flower and statsd are skipped, and worker
      when it is not deployed. */
  function Counted(order: seq<string>, score: map<string, int>, workerDeployed: bool): seq<int>
    requires forall name | name in order :: name in score
  {
    if order == [] then []
    else
      var rest := Counted(order[..|order| - 1], score, workerDeployed);
      var name := order[|order| - 1];
      if Skipped(name, workerDeployed) then rest
      else rest + [score[name]]
  }

  lemma {:induction false} CountedPrefix(order: seq<string>, i: nat, score: map<string, int>, workerDeployed: bool)
    requires i <= |order| && forall name | name in order :: name in score
    ensures Counted(order[..i], score, workerDeployed) <= Counted(order, score, workerDeployed)
    ensures i < |order| ==> Counted(order[..i + 1], score, workerDeployed) <= Counted(order, score, workerDeployed)
    decreases |order|
  {
    if i < |order| {
      var init := order[..|order| - 1];
      if i < |init| {
        CountedPrefix(init, i, score, workerDeployed);
        assert init[..i] == order[..i] && init[..i + 1] == order[..i + 1];
      } else {
        assert order[..i] == init && order[..i + 1] == order;
      }
    } else {
      assert order[..i] == order;
    }
  }

  predicate Skipped(name: string, workerDeployed: bool) {
    name == "flower" || name == "statsd" || (name == "worker" && !workerDeployed)
  }

  /** One more name of the walk adds the next counted score, or none. */
  lemma NextCounted(order: seq<string>, i: nat, score: map<string, int>, workerDeployed: bool)
    requires i < |order| && forall name | name in order :: name in score
    ensures var (before, after) := (Counted(order[..i], score, workerDeployed),
        Counted(order[..i + 1], score, workerDeployed));
      var all := Counted(order, score, workerDeployed);
      if Skipped(order[i], workerDeployed) then after == before
      else |before| < |all| && all[|before|] == score[order[i]] && after == all[..|before| + 1]
  {
    CountedPrefix(order, i, score, workerDeployed);
    assert order[..i + 1][..i] == order[..i];
  }

  /** Nothing is decided by the first n scores, and the product over them is 1 iff all of them are up. */
  ghost predicate Undecided(scores: seq<int>, n: nat, product: int) {
    && n <= |scores| <= 4
    && 1 <= product <= Power(UNKNOWN, n)
    && (product == 1 <==> forall k | 0 <= k < n :: scores[k] == UP)
    && forall k | 0 <= k < n :: scores[k] == UP || scores[k] == UNKNOWN
  }

  lemma UndecidedStep(scores: seq<int>, n: nat, product: int)
    requires n < |scores| && Undecided(scores, n, product) && IsScore(scores[n])
    ensures var p := Wrap64(product * scores[n]);
      && (p == 0 <==> scores[n] == DOWN)
      && (p < 0 <==> scores[n] == DEGRADED)
      && (p > 0 ==> Undecided(scores, n + 1, p))
  {
    ProductFits(product, scores[n], n);
  }

  /** One factor settles the answer or leaves it open. */
  lemma FactorSettles(scores: seq<int>, n: nat, product: int)
    requires n < |scores| && Undecided(scores, n, product) && forall s | s in scores :: IsScore(s)
    ensures var p := Wrap64(product * scores[n]);
      && (p == 0 ==> Core(scores) == Status.Down)
      && (p < 0 ==> Core(scores) == Degraded)
      && (p > 0 ==> Undecided(scores, n + 1, p))
  {
    UndecidedStep(scores, n, product);
    if scores[n] == DOWN || scores[n] == DEGRADED { CoreAt(scores, n); }
  }

  lemma AllFactorsTaken(scores: seq<int>, product: int)
    requires Undecided(scores, |scores|, product) && forall s | s in scores :: IsScore(s)
    ensures Core(scores) == if product == 1 then Up else Status.Down
  {
    CoreAt(scores, |scores|);
  }

  /** The loop of getAirflowStatus: multiplies scores until one settles the answer. */
  method WalkComponents(order: seq<string>, score: map<string, int>, workerDeployed: bool)
    returns (status: Status, product: int)
    requires forall name | name in order :: name in score && IsScore(score[name])
    ensures |Counted(order, score, workerDeployed)| <= 4 ==>
      && (product == 1 <==> Core(Counted(order, score, workerDeployed)) == Up)
      && (product != 1 ==> status == Core(Counted(order, score, workerDeployed)))
  {
    ghost var all := Counted(order, score, workerDeployed);
    ghost var small := |all| <= 4;
    ghost var at := 0;
    status, product := Status.Down, 1;
    CountedScores(order, score, workerDeployed);
    for i := 0 to |order|
      invariant at <= |all| && Counted(order[..i], score, workerDeployed) == all[..at]
      invariant small ==> Undecided(all, at, product) && status == Status.Down
    {
      NextCounted(order, i, score, workerDeployed);
      if order[i] != "flower" && order[i] != "statsd" && (order[i] != "worker" || workerDeployed) {
        if small { FactorSettles(all, at, product); }
        product := Wrap64(product * score[order[i]]);
        if product == 0 {
          status := Status.Down;
          return;
        }
        if product < 0 {
          status := Degraded;
          return;
        }
        at := at + 1;
      }
    }
    assert order[..|order|] == order;
    if small { AllFactorsTaken(all, product); }
  }

  /** getAirflowStatus, for the order in which Go happens to walk the replica map. The configured map has four
      counted components; up to that many the 64-bit product does not overflow. */
  method GetAirflowStatus(order: seq<string>, score: map<string, int>, workerDeployed: bool,
                          flower: Optional, statsd: Optional) returns (status: Status)
    requires forall name | name in order :: name in score && IsScore(score[name])
    ensures |Counted(order, score, workerDeployed)| <= 4 ==>
      status == Overall(Counted(order, score, workerDeployed), flower, statsd)
  {
    var product;
    status, product := WalkComponents(order, score, workerDeployed);
    if product == 1 {
      status := Up;
    }
    if flower.Deployed? && product == 1 && flower.score != UP {
      status := Degraded;
    }
    if statsd.Deployed? && product == 1 && statsd.score != UP {
      status := Degraded;
    }
  }

  lemma {:induction false} CountedScores(order: seq<string>, score: map<string, int>, workerDeployed: bool)
    requires forall name | name in order :: name in score && IsScore(score[name])
    ensures forall s | s in Counted(order, score, workerDeployed) :: IsScore(s)
  {
    if order != [] { CountedScores(order[..|order| - 1], score, workerDeployed); }
  }

  function Power(base: nat, n: nat): nat {
    if n == 0 then 1 else base * Power(base, n - 1)
  }

  /** Up to four factors stay within 64 bits. */
  lemma ProductFits(product: int, score: int, i: nat)
    requires i < 4 && 1 <= product <= Power(UNKNOWN, i) && IsScore(score)
    ensures Wrap64(product * score) == product * score
    ensures score > 0 ==> 1 <= product * score <= Power(UNKNOWN, i + 1)
    ensures product * score == 1 <==> product == 1 && score == UP
    ensures product * score == 0 <==> score == DOWN
    ensures product * score < 0 <==> score == DEGRADED
  {
    assert Power(UNKNOWN, 0) == 1 && Power(UNKNOWN, 1) == 10000 && Power(UNKNOWN, 2) == 100000000;
    assert Power(UNKNOWN, 3) == 1000000000000 && Power(UNKNOWN, 4) == 10000000000000000;
  }

  /** Where the walk stops is what decides. */
  lemma {:induction false} CoreAt(scores: seq<int>, i: nat)
    requires forall s | s in scores :: IsScore(s)
    requires i <= |scores| && forall k | 0 <= k < i :: scores[k] == UP || scores[k] == UNKNOWN
    requires i < |scores| ==> scores[i] == DOWN || scores[i] == DEGRADED
    ensures Core(scores) ==
      if i < |scores| then (if scores[i] == DOWN then Status.Down else Degraded)
      else if forall k | 0 <= k < |scores| :: scores[k] == UP then Up else Status.Down
  {
    if i > 0 {
      CoreAt(scores[1..], i - 1);
      assert forall k | 0 <= k < |scores| - 1 :: scores[1..][k] == scores[k + 1];
      if forall k | 0 <= k < |scores| - 1 :: scores[1..][k] == UP {
        forall k | 0 < k < |scores| ensures scores[k] == UP { assert scores[1..][k - 1] == UP; }
      }
    }
  }

  /** The service is up iff every counted component is: no order can change that. */
  lemma {:induction false} CoreUpIff(scores: seq<int>)
    requires forall s | s in scores :: IsScore(s)
    ensures Core(scores) == Up <==> forall s | s in scores :: s == UP
  {
    if scores != [] {
      CoreUpIff(scores[1..]);
      assert scores[0] in scores;
      if s :| s in scores && s != UP {
        assert s == scores[0] || s in scores[1..];
      } else if s :| s in scores[1..] && s != UP {
        assert s in scores;
      }
    }
  }

  /** Without a degraded component the answer is not "degraded", without one down it is when one is degraded. */
  lemma {:induction false} CoreNotUp(scores: seq<int>)
    requires forall s | s in scores :: IsScore(s)
    ensures DEGRADED !in scores ==> Core(scores) != Degraded
    ensures DOWN !in scores && DEGRADED in scores ==> Core(scores) == Degraded
  {
    if scores != [] {
      CoreNotUp(scores[1..]);
      assert forall s :: s in scores <==> s == scores[0] || s in scores[1..];
    }
  }

  /** Walking a component that is down, or degraded, first settles the answer. */
  lemma MovedToFront(scores: seq<int>, score: int) returns (other: seq<int>)
    requires score in scores && (score == DOWN || score == DEGRADED)
    ensures multiset(other) == multiset(scores)
    ensures Core(other) == if score == DOWN then Status.Down else Degraded
  {
    var i :| 0 <= i < |scores| && scores[i] == score;
    assert scores == scores[..i] + [scores[i]] + scores[i + 1..];
    other := [score] + scores[..i] + scores[i + 1..];
  }

  lemma SameMembers(a: seq<int>, b: seq<int>)
    requires multiset(a) == multiset(b)
    ensures forall s :: s in a <==> s in b
  {
    forall s ensures s in a <==> s in b { assert s in multiset(a) <==> s in multiset(b); }
  }

  /** A score no pods explain keeps the service from being up. It makes it down, unless a degraded component decides:
      always when none is down, and in some orders otherwise. */
  lemma UnknownScore(scores: seq<int>)
    requires UNKNOWN in scores && forall s | s in scores :: IsScore(s)
    ensures Core(scores) != Up
    ensures DEGRADED !in scores ==> Core(scores) == Status.Down
    ensures DEGRADED in scores && DOWN !in scores ==> Core(scores) == Degraded
  {
    CoreUpIff(scores);
    CoreNotUp(scores);
  }

  predicate Needed(name: string, workerDeployed: bool) {
    name != "flower" && name != "statsd" && (name == "worker" ==> workerDeployed)
  }

  /** A score counts under its component's name: not flower's, not statsd's, and the worker's only if it is deployed. */
  lemma {:induction false} CountedIff(order: seq<string>, score: map<string, int>, workerDeployed: bool, value: int)
    requires forall name | name in order :: name in score
    ensures value in Counted(order, score, workerDeployed) <==>
      exists name :: name in order && Needed(name, workerDeployed) && score[name] == value
  {
    if order != [] {
      var init, last := order[..|order| - 1], order[|order| - 1];
      CountedIff(init, score, workerDeployed, value);
      assert order == init + [last] && last in order;
    }
  }

  /** The status by component. It is up exactly if every component is, with three exceptions: the worker does not have
      to be if it is not deployed,
          nor do flower and statsd. One of these two that is deployed and not up makes a service
      that is otherwise up degraded, and changes nothing else. */
  lemma OverallByName(order: seq<string>, score: map<string, int>, workerDeployed: bool, flower: Optional,
      statsd: Optional)
    requires forall name | name in order :: name in score && IsScore(score[name])
    ensures var status := Overall(Counted(order, score, workerDeployed), flower, statsd);
      var needed := forall name | name in order && Needed(name, workerDeployed) :: score[name] == UP;
      var extras := (flower.Deployed? ==> flower.score == UP) && (statsd.Deployed? ==> statsd.score == UP);
      && (status == Up <==> needed && extras)
      && (needed && !extras ==> status == Degraded)
      && (!needed ==> status == Overall(Counted(order, score, workerDeployed), Absent, Absent))
  {
    var scores := Counted(order, score, workerDeployed);
    CountedScores(order, score, workerDeployed);
    CoreUpIff(scores);
    forall name | name in order && Needed(name, workerDeployed) ensures score[name] in scores {
      CountedIff(order, score, workerDeployed, score[name]);
    }
    forall s | s in scores ensures exists name :: name in order && Needed(name, workerDeployed) && score[name] == s {
      CountedIff(order, score, workerDeployed, s);
    }
  }

  /** The product is taken modulo 2^64, as a signed number. */
  lemma Wrap64Is(n: int)
    ensures -0x8000_0000_0000_0000 <= Wrap64(n) < 0x8000_0000_0000_0000
    ensures (n - Wrap64(n)) % 0x1_0000_0000_0000_0000 == 0
  {
  }
}
