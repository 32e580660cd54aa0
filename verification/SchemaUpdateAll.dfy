// update_defaults_for_existing_schema as a whole: each listed element ends up with the
// defaults of the values file, and nothing else of the schema changes.

module SchemaUpdateAll {
  import opened Json
  import opened SchemaDefaults
  import opened SchemaUpdate

  /** Neither path is a prefix of the other. */
  predicate Diverge(p: seq<string>, q: seq<string>) {
    p != [] && q != [] && (p[0] != q[0] || Diverge(p[1..], q[1..]))
  }

  lemma {:induction false} DivergeIff(p: seq<string>, q: seq<string>)
    ensures Diverge(p, q) <==> !(p <= q) && !(q <= p)
  {
    if p != [] && q != [] && p[0] == q[0] {
      DivergeIff(p[1..], q[1..]);
      assert p == [p[0]] + p[1..] && q == [q[0]] + q[1..];
    }
  }

  lemma {:induction false} LocationsDiverge(p: seq<string>, q: seq<string>)
    requires Diverge(p, q)
    ensures Diverge(Location(p), Location(q))
  {
    var lp, lq := Location(p), Location(q);
    assert lp[1..][0] == p[0] && lq[1..][0] == q[0];
    assert lp[1..][1..] == Location(p[1..]) && lq[1..][1..] == Location(q[1..]);
    if p[0] == q[0] { LocationsDiverge(p[1..], q[1..]); }
    assert Diverge(lp[1..], lq[1..]);
  }

  lemma {:induction false} PutDiverge(j: Json, p: seq<string>, q: seq<string>, value: Json)
    requires At(j, p).Ok? && Diverge(p, q)
    ensures At(Put(j, p, value), q) == At(j, q)
  {
    if p[0] == q[0] {
      PutDiverge(j.fields[p[0]], p[1..], q[1..], value);
    } else {
      PutElsewhere(j, p, q, value);
    }
  }

  // ---------- the value that belongs to a path ----------

  function ValueAt(v: Values, path: seq<string>): Result<Values>
    decreases |path|
  {
    if path == [] then Ok(v)
    else
      var below :- Pick(v, path[0]);
      ValueAt(below, path[1..])
  }

  /** The value stands at the end of the path: at[0] is the index of the entry under the path's first key, at[1] of the
      one under its second key in that entry's value, and so on. */
  predicate StandsAt(v: Values, path: seq<string>, at: seq<nat>, value: Values)
    decreases |path|
  {
    if path == [] then at == [] && value == v
    else
      && at != [] && v.Dict? && at[0] < |v.entries| && v.entries[at[0]].0 == path[0]
      && StandsAt(v.entries[at[0]].1, path[1..], at[1..], value)
  }

  /** The value of a path is the one that stands at its end. */
  lemma {:induction false} ValueAtIs(v: Values, path: seq<string>, at: seq<nat>, value: Values)
    requires DistinctKeys(v) && StandsAt(v, path, at, value)
    ensures ValueAt(v, path) == Ok(value)
    decreases |path|
  {
    if path != [] {
      PickIs(v, path[0]);
      ValueAtIs(v.entries[at[0]].1, path[1..], at[1..], value);
    }
  }

  /** A path has a value only if one stands at its end. */
  lemma {:induction false} ValueStands(v: Values, path: seq<string>) returns (at: seq<nat>)
    requires DistinctKeys(v) && ValueAt(v, path).Ok?
    ensures StandsAt(v, path, at, ValueAt(v, path).value)
    decreases |path|
  {
    if path == [] {
      at := [];
    } else {
      PickIs(v, path[0]);
      EntryIs(v, |v.entries|, path[0]);
      var i: nat :| i < |v.entries| && v.entries[i].0 == path[0];
      var rest := ValueStands(v.entries[i].1, path[1..]);
      at := [i] + rest;
      assert at[1..] == rest;
    }
  }

  /** Walking in step finds the element and the value, or fails when either is missing. */
  lemma {:induction false} WalkIs(e: Json, v: Values, path: seq<string>)
    ensures Walk(e, v, path).Ok? <==> At(e, Location(path)).Ok? && ValueAt(v, path).Ok?
    ensures Walk(e, v, path).Ok? ==> Walk(e, v, path) == ValueAt(v, path)
  {
    if path != [] {
      AtAppend(e, ["properties", path[0]], Location(path[1..]));
      AtTwo(e, "properties", path[0]);
      if At(e, ["properties", path[0]]).Ok? && Pick(v, path[0]).Ok? {
        WalkIs(At(e, ["properties", path[0]]).value, Pick(v, path[0]).value, path[1..]);
      }
    }
  }

  lemma {:induction false} ValuesDistinct(v: Values, path: seq<string>)
    requires DistinctKeys(v) && ValueAt(v, path).Ok?
    ensures DistinctKeys(ValueAt(v, path).value)
    decreases |path|
  {
    if path != [] {
      EntryDistinct(v, |v.entries|, path[0]);
      ValuesDistinct(Pick(v, path[0]).value, path[1..]);
    }
  }

  lemma {:induction false} EntryDistinct(v: Values, n: nat, key: string)
    requires v.Dict? && n <= |v.entries| && DistinctKeys(v) && Entry(v, n, key).Ok?
    ensures DistinctKeys(Entry(v, n, key).value)
  {
    if v.entries[n - 1].0 != key { EntryDistinct(v, n - 1, key); }
  }

  // ---------- one path ----------

  /** The element and its value exist, and the value fits the element. */
  ghost predicate FitsPath(root: Json, values: Values, path: seq<string>, targets: Targets) {
    && At(root, Location(path)).Ok? && ValueAt(values, path).Ok?
    && FitsChild(At(root, Location(path)).value, ValueAt(values, path).value, targets, false)
  }

  lemma OneComputes(root: Json, values: Values, path: seq<string>, targets: Targets)
    requires Predictable(root, targets) && DistinctKeys(values) && path != []
    requires At(root, Location(path)).Ok? ==> Follows(At(root, Location(path)).value, targets)
    ensures var r := UpdateOne(root, values, path);
      && (r.Ok? <==> FitsPath(root, values, path, targets))
      && (r.Ok? ==>
          r.value == Put(root, Location(path), Revalued(At(root, Location(path)).value, ValueAt(values, path).value)))
  {
    WalkIs(root, values, path);
    if At(root, Location(path)).Ok? && ValueAt(values, path).Ok? {
      var e, v := At(root, Location(path)).value, ValueAt(values, path).value;
      ValuesDistinct(values, path);
      if Has(e, "default") {
        if e.fields["default"] == ToJson(v) {
          assert e.fields["default" := ToJson(v)] == e.fields;
          AtPut(root, Location(path), e);
        }
      } else if e.Object? {
        BelowComputes(root, Location(path), e, v, targets);
      }
    }
  }

  // ---------- the whole list ----------

  /** Distinct, prefix-free paths. */
  ghost predicate Separate(paths: seq<seq<string>>) {
    && (forall i | 0 <= i < |paths| :: paths[i] != [])
    && forall i, j | 0 <= i < j < |paths| :: Diverge(paths[i], paths[j])
  }

  /** Every `$ref` below a listed element is one of the targets. */
  ghost predicate AllFollow(root: Json, paths: seq<seq<string>>, i: nat, targets: Targets) {
    forall j | i <= j < |paths| && At(root, Location(paths[j])).Ok? ::
        Follows(At(root, Location(paths[j])).value, targets)
  }

  ghost predicate FitsPaths(root: Json, values: Values, paths: seq<seq<string>>, i: nat, targets: Targets) {
    forall j | i <= j < |paths| :: FitsPath(root, values, paths[j], targets)
  }

  predicate IsRevalued(root: Json, r: Json, values: Values, path: seq<string>) {
    && At(root, Location(path)).Ok? && ValueAt(values, path).Ok?
    && At(r, Location(path)) == Ok(Revalued(At(root, Location(path)).value, ValueAt(values, path).value))
  }

  ghost predicate Outside(q: seq<string>, paths: seq<seq<string>>, i: nat) {
    forall j | i <= j < |paths| :: Diverge(Location(paths[j]), q)
  }

  /** The elements at paths[i..] are the updated ones and the rest of the document is as it was. */
  ghost predicate Settled(root: Json, r: Json, values: Values, paths: seq<seq<string>>, i: nat) {
    && (forall j | i <= j < |paths| :: IsRevalued(root, r, values, paths[j]))
    && (forall q | Outside(q, paths, i) :: At(r, q) == At(root, q))
  }

  lemma {:induction false} FromSettles(root: Json, values: Values, paths: seq<seq<string>>, i: nat, targets: Targets)
    requires Predictable(root, targets) && DistinctKeys(values) && Separate(paths) && AllFollow(root, paths, i, targets)
    requires i <= |paths|
    ensures var r := UpdateFrom(root, values, paths, i);
      && (r.Ok? <==> FitsPaths(root, values, paths, i, targets))
      && (r.Ok? ==> Settled(root, r.value, values, paths, i))
    decreases |paths| - i
  {
    var r := UpdateFrom(root, values, paths, i);
    if i == |paths| {
      assert r == Ok(root);
    } else {
      var path := paths[i];
      var next := UpdateOne(root, values, path);
      OneComputes(root, values, path, targets);
      assert r == if next.Ok? then UpdateFrom(next.value, values, paths, i + 1) else next;
      if next.Ok? {
        var value := Revalued(At(root, Location(path)).value, ValueAt(values, path).value);
        NextSame(root, value, paths, i, targets);
        FitsNextPath(root, next.value, values, paths, i, targets);
        FromSettles(next.value, values, paths, i + 1, targets);
        if r.Ok? { SettledNext(root, value, r.value, values, paths, i); }
      } else {
        assert !FitsPath(root, values, paths[i], targets);
      }
    }
  }

  /** The later paths see the same elements. */
  lemma NextSame(root: Json, value: Json, paths: seq<seq<string>>, i: nat, targets: Targets)
    requires Predictable(root, targets) && Separate(paths) && i < |paths| && AllFollow(root, paths, i, targets)
    requires At(root, Location(paths[i])).Ok?
    ensures var next := Put(root, Location(paths[i]), value);
      && Predictable(next, targets)
      && AllFollow(next, paths, i + 1, targets)
      && (forall j | i < j < |paths| :: At(next, Location(paths[j])) == At(root, Location(paths[j])))
  {
    var next := Put(root, Location(paths[i]), value);
    PutPredictable(root, Location(paths[i]), value, targets);
    forall j | i < j < |paths| ensures At(next, Location(paths[j])) == At(root, Location(paths[j])) {
      LocationsDiverge(paths[i], paths[j]);
      PutDiverge(root, Location(paths[i]), Location(paths[j]), value);
    }
  }

  lemma FitsNextPath(root: Json, next: Json, values: Values, paths: seq<seq<string>>, i: nat, targets: Targets)
    requires i < |paths| && forall j | i < j < |paths| :: At(next, Location(paths[j])) == At(root, Location(paths[j]))
    ensures FitsPaths(root, values, paths, i, targets) <==>
            FitsPath(root, values, paths[i], targets) && FitsPaths(next, values, paths, i + 1, targets)
  {
    forall j | i < j < |paths|
      ensures FitsPath(next, values, paths[j], targets) == FitsPath(root, values, paths[j], targets)
    {
      assert At(next, Location(paths[j])) == At(root, Location(paths[j]));
    }
  }

  lemma SettledNext(root: Json, value: Json, r: Json, values: Values, paths: seq<seq<string>>, i: nat)
    requires Separate(paths) && i < |paths| && At(root, Location(paths[i])).Ok?
    requires ValueAt(values, paths[i]).Ok? &&
        value == Revalued(At(root, Location(paths[i])).value, ValueAt(values, paths[i]).value)
    requires var next := Put(root, Location(paths[i]), value);
      && (forall j | i < j < |paths| :: At(next, Location(paths[j])) == At(root, Location(paths[j])))
      && Settled(next, r, values, paths, i + 1)
    ensures Settled(root, r, values, paths, i)
  {
    var here := Location(paths[i]);
    var next := Put(root, here, value);
    AtPut(root, here, value);
    assert Outside(here, paths, i + 1) by {
      forall j | i + 1 <= j < |paths| ensures Diverge(Location(paths[j]), here) {
        DivergeIff(paths[i], paths[j]);
        DivergeIff(paths[j], paths[i]);
        LocationsDiverge(paths[j], paths[i]);
      }
    }
    forall j | i <= j < |paths| ensures IsRevalued(root, r, values, paths[j]) {
      if j > i { assert IsRevalued(next, r, values, paths[j]); }
    }
    forall q | Outside(q, paths, i) ensures At(r, q) == At(root, q) {
      assert Diverge(here, q);
      PutDiverge(root, here, q, value);
      assert Outside(q, paths, i + 1);
    }
  }

  // ---------- the main results ----------

  lemma {:induction false} WalkedSame(root: Json, values: Values, path: seq<string>)
    ensures var r := UpdateOne(root, values, path); r.Ok? ==> SameButDefaults(root, r.value)
  {
    SameButDefaultsSelf(root);
    if Walk(root, values, path).Ok? && At(root, Location(path)).Ok? {
      var e, v := At(root, Location(path)).value, Walk(root, values, path).value;
      if Has(e, "default") {
        SameInside(e, "default", ToJson(v));
        PutSameButDefaults(root, Location(path), With(e, "default", ToJson(v)));
      } else {
        BelowChangesDefaults(root, Location(path), v);
      }
    }
  }

  /** Whatever the schema, its references and the values: nothing but defaults changes. */
  lemma {:induction false} OnlyDefaultsChange(root: Json, values: Values, paths: seq<seq<string>>, i: nat)
    requires i <= |paths|
    ensures var r := UpdateFrom(root, values, paths, i); r.Ok? ==> SameButDefaults(root, r.value)
    decreases |paths| - i
  {
    if i == |paths| {
      SameButDefaultsSelf(root);
    } else {
      WalkedSame(root, values, paths[i]);
      var next := UpdateOne(root, values, paths[i]);
      if next.Ok? {
        OnlyDefaultsChange(next.value, values, paths, i + 1);
        var r := UpdateFrom(next.value, values, paths, i + 1);
        if r.Ok? { SameButDefaultsTrans(root, next.value, r.value); }
      }
    }
  }

  /** The update succeeds exactly when the values fit every listed element. It then replaces each listed element by the
      updated one, leaves everything apart from the listed elements (shared definitions in particular) as it was, and
      every default met at or below a listed path equals its value. */
  lemma UpdateMeetsValues(root: Json, values: Values, paths: seq<seq<string>>, targets: Targets)
    requires Predictable(root, targets) && DistinctKeys(values) && Separate(paths) && AllFollow(root, paths, 0, targets)
    ensures var r := UpdateFrom(root, values, paths, 0);
      && (r.Ok? <==> FitsPaths(root, values, paths, 0, targets))
      && (r.Ok? ==>
          && Settled(root, r.value, values, paths, 0)
          && Resolved(r.value, targets)
          && forall j | 0 <= j < |paths| ::
               && At(r.value, Location(paths[j])).Ok?
               && ValueAt(values, paths[j]).Ok?
               && AgreesChild(At(r.value, Location(paths[j])).value, ValueAt(values, paths[j]).value, targets))
  {
    FromSettles(root, values, paths, 0, targets);
    var r := UpdateFrom(root, values, paths, 0);
    if r.Ok? {
      forall ref | ref in targets ensures At(r.value, RefPath(ref)) == targets[ref] {
        assert Outside(RefPath(ref), paths, 0);
      }
      forall j | 0 <= j < |paths|
        ensures At(r.value, Location(paths[j])).Ok? && ValueAt(values, paths[j]).Ok?
        ensures AgreesChild(At(r.value, Location(paths[j])).value, ValueAt(values, paths[j]).value, targets)
      {
        assert IsRevalued(root, r.value, values, paths[j]) && FitsPath(root, values, paths[j], targets);
        ValuesDistinct(values, paths[j]);
        RevaluedAgrees(At(root, Location(paths[j])).value, ValueAt(values, paths[j]).value, targets);
      }
    }
  }
}