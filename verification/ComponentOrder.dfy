// The order in which Go walks the replica map: it is arbitrary, and sometimes it matters.

module ComponentOrder {
  import opened ComponentHealth

  ghost predicate Scored(order: seq<string>, score: map<string, int>) {
    forall name | name in order :: name in score && IsScore(score[name])
  }

  lemma {:induction false} CountedAppend(o: seq<string>, p: seq<string>, score: map<string, int>, workerDeployed: bool)
    requires Scored(o, score) && Scored(p, score)
    ensures Scored(o + p, score)
    ensures Counted(o + p, score, workerDeployed) ==
        Counted(o, score, workerDeployed) + Counted(p, score, workerDeployed)
  {
    if p == [] {
      assert o + p == o;
    } else {
      var init := p[..|p| - 1];
      assert (o + p)[..|o + p| - 1] == o + init;
      CountedAppend(o, init, score, workerDeployed);
    }
  }

  lemma CountedOne(name: string, score: map<string, int>, workerDeployed: bool)
    requires name in score
    ensures Counted([name], score, workerDeployed) == if Skipped(name, workerDeployed) then [] else [score[name]]
  {
    assert [name][..0] == [];
  }

  lemma Without<T>(s: seq<T>, i: nat)
    requires i < |s|
    ensures multiset(s) == multiset(s[..i] + s[i + 1..]) + multiset{s[i]}
  {
    assert s == s[..i] + [s[i]] + s[i + 1..];
  }

  lemma WithoutSame<T>(s: seq<T>, i: nat, t: seq<T>, k: nat)
    requires i < |s| && k < |t| && s[i] == t[k] && multiset(s) == multiset(t)
    ensures multiset(s[..i] + s[i + 1..]) == multiset(t[..k] + t[k + 1..])
  {
    Without(s, i);
    Without(t, k);
    var m, n, one := multiset(s[..i] + s[i + 1..]), multiset(t[..k] + t[k + 1..]), multiset{s[i]};
    assert m == (m + one) - one && n == (n + one) - one;
  }

  /** Taking one name out of an order takes out what it counts. */
  lemma CountedWithout(order: seq<string>, i: nat, score: map<string, int>, workerDeployed: bool)
    requires i < |order| && Scored(order, score)
    ensures var rest := order[..i] + order[i + 1..];
      && Scored(rest, score)
      && multiset(Counted(order, score, workerDeployed)) ==
           multiset(Counted(rest, score, workerDeployed)) + multiset(Counted([order[i]], score, workerDeployed))
  {
    var before, after, one := order[..i], order[i + 1..], [order[i]];
    assert order == before + one + after;
    CountedAppend(before, one, score, workerDeployed);
    CountedAppend(before + one, after, score, workerDeployed);
    CountedAppend(before, after, score, workerDeployed);
  }

  /** Two orders of the same names count the same scores. */
  lemma {:induction false} CountedPermuted(o: seq<string>, p: seq<string>, score: map<string, int>,
      workerDeployed: bool)
    requires Scored(o, score) && multiset(o) == multiset(p)
    ensures Scored(p, score)
    ensures multiset(Counted(o, score, workerDeployed)) == multiset(Counted(p, score, workerDeployed))
    decreases |o|
  {
    SameNames(o, p);
    if o == [] {
      assert |p| == |multiset(p)| == 0;
    } else {
      assert o[0] in p;
      var i :| 0 <= i < |p| && p[i] == o[0];
      WithoutSame(o, 0, p, i);
      assert |o[..0] + o[1..]| < |o|;
      Taken(o, 0, score, workerDeployed);
      CountedPermuted(o[..0] + o[1..], p[..i] + p[i + 1..], score, workerDeployed);
      SameRest(o, 0, p, i, score, workerDeployed);
    }
  }

  lemma Taken(order: seq<string>, i: nat, score: map<string, int>, workerDeployed: bool)
    requires i < |order| && Scored(order, score)
    ensures Scored(order[..i] + order[i + 1..], score)
  {
    CountedWithout(order, i, score, workerDeployed);
  }

  lemma SameRest(o: seq<string>, i: nat, p: seq<string>, k: nat, score: map<string, int>, workerDeployed: bool)
    requires i < |o| && k < |p| && o[i] == p[k] && Scored(o, score) && Scored(p, score)
    requires var (o', p') := (o[..i] + o[i + 1..], p[..k] + p[k + 1..]);
      Scored(o', score) && Scored(p', score) &&
      multiset(Counted(o', score, workerDeployed)) == multiset(Counted(p', score, workerDeployed))
    ensures multiset(Counted(o, score, workerDeployed)) == multiset(Counted(p, score, workerDeployed))
  {
    CountedWithout(o, i, score, workerDeployed);
    CountedWithout(p, k, score, workerDeployed);
  }

  lemma SameNames(o: seq<string>, p: seq<string>)
    requires multiset(o) == multiset(p)
    ensures forall name :: name in o <==> name in p
  {
    forall name ensures name in o <==> name in p { assert name in multiset(o) <==> name in multiset(p); }
  }

  /** An order can be cut where a given number of scores has been counted. */
  lemma {:induction false} Cut(order: seq<string>, n: nat, score: map<string, int>, workerDeployed: bool)
      returns (i: nat)
    requires Scored(order, score) && n <= |Counted(order, score, workerDeployed)|
    ensures i <= |order|
    ensures Counted(order[..i], score, workerDeployed) == Counted(order, score, workerDeployed)[..n]
    ensures Counted(order[i..], score, workerDeployed) == Counted(order, score, workerDeployed)[n..]
  {
    var all := Counted(order, score, workerDeployed);
    if n == |all| {
      i := |order|;
      assert order[..i] == order && order[i..] == [];
    } else {
      var init := order[..|order| - 1];
      CountedPrefix(order, |order| - 1, score, workerDeployed);
      i := Cut(init, n, score, workerDeployed);
      assert init[..i] == order[..i] && order[..i] + order[i..] == order;
      CountedAppend(order[..i], order[i..], score, workerDeployed);
    }
  }

  lemma PutBackAt<T>(s: seq<T>, n: nat)
    requires n < |s|
    ensures var fewer := s[..n] + s[n + 1..];
      n <= |fewer| && fewer[..n] + [s[n]] + fewer[n..] == s
  {
    var fewer := s[..n] + s[n + 1..];
    assert fewer[..n] == s[..n] && fewer[n..] == s[n + 1..];
  }

  /** A counted name can be put into an order so that its score comes n-th. */
  lemma InsertCounted(order: seq<string>, name: string, scores: seq<int>, n: nat, score: map<string, int>,
      workerDeployed: bool)
    returns (other: seq<string>)
    requires Scored(order, score) && Scored([name], score) && !Skipped(name, workerDeployed)
    requires n < |scores| && scores[n] == score[name]
    requires Counted(order, score, workerDeployed) == scores[..n] + scores[n + 1..]
    ensures multiset(other) == multiset(order) + multiset{name} && Scored(other, score)
    ensures Counted(other, score, workerDeployed) == scores
  {
    PutBackAt(scores, n);
    var i := Cut(order, n, score, workerDeployed);
    other := order[..i] + [name] + order[i..];
    assert order == order[..i] + order[i..];
    CountedOne(name, score, workerDeployed);
    CountedAppend(order[..i], [name], score, workerDeployed);
    CountedAppend(order[..i] + [name], order[i..], score, workerDeployed);
  }

  /** The scores but for the n-th are those of the order but for its last name. */
  lemma FewerScores(init: seq<string>, name: string, scores: seq<int>, n: nat, score: map<string, int>,
      workerDeployed: bool)
    requires Scored(init + [name], score) && Scored(init, score) && !Skipped(name, workerDeployed)
    requires multiset(scores) == multiset(Counted(init + [name], score, workerDeployed))
    requires n < |scores| && scores[n] == score[name]
    ensures multiset(scores[..n] + scores[n + 1..]) == multiset(Counted(init, score, workerDeployed))
  {
    var counted := Counted(init, score, workerDeployed) + [score[name]];
    assert Scored([name], score) by { assert (init + [name])[|init|] == name; }
    CountedOne(name, score, workerDeployed);
    CountedAppend(init, [name], score, workerDeployed);
    WithoutSame(scores, n, counted, |counted| - 1);
    assert counted[..|counted| - 1] + counted[|counted| - 1 + 1..] == Counted(init, score, workerDeployed);
  }

  lemma AllButLast(order: seq<string>, score: map<string, int>)
    requires order != [] && Scored(order, score)
    ensures var (init, name) := (order[..|order| - 1], order[|order| - 1]);
      order == init + [name] && Scored(init, score) && Scored([name], score)
  {
  }

  /** Whatever order the counted scores are put in, some order of the names counts them so. */
  lemma {:induction false} Realized(order: seq<string>, scores: seq<int>, score: map<string, int>, workerDeployed: bool)
    returns (other: seq<string>)
    requires Scored(order, score) && multiset(scores) == multiset(Counted(order, score, workerDeployed))
    ensures multiset(other) == multiset(order) && Scored(other, score)
    ensures Counted(other, score, workerDeployed) == scores
  {
    if order == [] {
      other := [];
      assert |scores| == |multiset(scores)| == 0;
    } else {
      var name, init := order[|order| - 1], order[..|order| - 1];
      AllButLast(order, score);
      if Skipped(name, workerDeployed) {
        other := RealizedSkipped(init, name, scores, score, workerDeployed);
      } else {
        other := RealizedCounted(init, name, scores, score, workerDeployed);
      }
    }
  }

  lemma {:induction false} RealizedSkipped(init: seq<string>, name: string, scores: seq<int>, score: map<string, int>,
                                           workerDeployed: bool)
    returns (other: seq<string>)
    requires Scored(init, score) && Scored([name], score) && Scored(init + [name], score) &&
        Skipped(name, workerDeployed)
    requires multiset(scores) == multiset(Counted(init + [name], score, workerDeployed))
    ensures multiset(other) == multiset(init + [name]) && Scored(other, score)
    ensures Counted(other, score, workerDeployed) == scores
    decreases init
  {
    CountedOne(name, score, workerDeployed);
    CountedAppend(init, [name], score, workerDeployed);
    var rest := Realized(init, scores, score, workerDeployed);
    other := rest + [name];
    CountedAppend(rest, [name], score, workerDeployed);
  }

  lemma {:induction false} RealizedCounted(init: seq<string>, name: string, scores: seq<int>, score: map<string, int>,
                                           workerDeployed: bool)
    returns (other: seq<string>)
    requires Scored(init, score) && Scored([name], score) && Scored(init + [name], score) &&
        !Skipped(name, workerDeployed)
    requires multiset(scores) == multiset(Counted(init + [name], score, workerDeployed))
    ensures multiset(other) == multiset(init + [name]) && Scored(other, score)
    ensures Counted(other, score, workerDeployed) == scores
    decreases init
  {
    var n := PositionOf(init, name, scores, score, workerDeployed);
    FewerScores(init, name, scores, n, score, workerDeployed);
    var rest := Realized(init, scores[..n] + scores[n + 1..], score, workerDeployed);
    other := InsertCounted(rest, name, scores, n, score, workerDeployed);
  }

  lemma PositionOf(init: seq<string>, name: string, scores: seq<int>, score: map<string, int>, workerDeployed: bool)
    returns (n: nat)
    requires Scored(init, score) && Scored([name], score) && Scored(init + [name], score) &&
        !Skipped(name, workerDeployed)
    requires multiset(scores) == multiset(Counted(init + [name], score, workerDeployed))
    ensures n < |scores| && scores[n] == score[name]
  {
    CountedOne(name, score, workerDeployed);
    CountedAppend(init, [name], score, workerDeployed);
    SameMembers(scores, Counted(init + [name], score, workerDeployed));
    assert score[name] in Counted(init, score, workerDeployed) + [score[name]];
    n :| n < |scores| && scores[n] == score[name];
  }

  /** The order of the scores changes the answer iff one is down and another degraded; then the answer is "down" in one
      order and "degraded" in another. */
  lemma ScoreOrderMattersIff(scores: seq<int>)
    requires forall s | s in scores :: IsScore(s)
    ensures (exists other: seq<int> :: multiset(other) == multiset(scores) && Core(other) != Core(scores)) <==>
            (DOWN in scores && DEGRADED in scores)
  {
    if DOWN in scores && DEGRADED in scores {
      var down := MovedToFront(scores, DOWN);
      var degraded := MovedToFront(scores, DEGRADED);
      assert Core(down) != Core(degraded);
    }
    forall other: seq<int> | multiset(other) == multiset(scores) && Core(other) != Core(scores)
      ensures DOWN in scores && DEGRADED in scores
    {
      SameMembers(other, scores);
      CoreUpIff(scores);
      CoreUpIff(other);
      CoreNotUp(scores);
      CoreNotUp(other);
    }
  }

  /** The status of the service when Go walks the replica map in this order. */
  ghost function StatusIn(order: seq<string>, score: map<string, int>, workerDeployed: bool, flower: Optional,
      statsd: Optional)
    : Status
    requires Scored(order, score)
  {
    Overall(Counted(order, score, workerDeployed), flower, statsd)
  }

  ghost predicate OtherStatus(order: seq<string>, other: seq<string>, score: map<string, int>, workerDeployed: bool,
                              flower: Optional, statsd: Optional)
    requires Scored(order, score)
  {
    && multiset(other) == multiset(order) && Scored(other, score)
    && StatusIn(other, score, workerDeployed, flower, statsd) != StatusIn(order, score, workerDeployed, flower, statsd)
  }

  /** The order in which Go walks the replica map changes the status iff one counted component is down and another
      degraded. */
  lemma OrderMattersIff(order: seq<string>, score: map<string, int>, workerDeployed: bool, flower: Optional,
      statsd: Optional)
    requires Scored(order, score)
    ensures (exists other: seq<string> :: OtherStatus(order, other, score, workerDeployed, flower, statsd)) <==>
            DOWN in Counted(order, score, workerDeployed) && DEGRADED in Counted(order, score, workerDeployed)
  {
    var scores := Counted(order, score, workerDeployed);
    CountedScores(order, score, workerDeployed);
    CoreUpIff(scores);
    ScoreOrderMattersIff(scores);
    if DOWN in scores && DEGRADED in scores {
      var permuted: seq<int> :| multiset(permuted) == multiset(scores) && Core(permuted) != Core(scores);
      SameMembers(permuted, scores);
      CoreUpIff(permuted);
      var other := Realized(order, permuted, score, workerDeployed);
      assert OtherStatus(order, other, score, workerDeployed, flower, statsd);
    }
    if other: seq<string> :| OtherStatus(order, other, score, workerDeployed, flower, statsd) {
      var permuted := Counted(other, score, workerDeployed);
      CountedPermuted(order, other, score, workerDeployed);
      SameMembers(permuted, scores);
      CountedScores(other, score, workerDeployed);
      CoreUpIff(permuted);
      assert Core(permuted) != Core(scores);
    }
  }
}
