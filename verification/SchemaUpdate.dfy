// What updating the defaults amounts to: under which schemas the recursion leaves shared
// definitions alone, and what it then computes, independent of the order of the walk.

module SchemaUpdate {
  import opened Json
  import opened SchemaDefaults

  /** What each `$ref` of the schema resolves to. */
  type Targets = map<string, Result<Json>>

  ghost predicate Resolved(root: Json, targets: Targets) {
    forall ref | ref in targets :: RefPath(ref)[0] == "definitions" && At(root, RefPath(ref)) == targets[ref]
  }

  /** No default at any level of inline properties. */
  predicate Clean(e: Json) {
    HasProperties(e) ==> forall k | k in Properties(e) :: !Has(Properties(e)[k], "default") && Clean(Properties(e)[k])
  }

  /** Every `$ref` met below e before a default is one of the targets. */
  predicate Follows(e: Json, targets: Targets) {
    if Has(e, "properties") then
      HasProperties(e) ==> forall k | k in Properties(e) && !Has(Properties(e)[k], "default") ::
          Follows(Properties(e)[k], targets)
    else Has(e, "$ref") && e.fields["$ref"].Text? ==> e.fields["$ref"].s in targets
  }

  /** The references of shared definitions are targets too. */
  ghost predicate Closed(targets: Targets) {
    forall ref, key | ref in targets && targets[ref].Ok? && HasProperty(targets[ref].value, key) ::
      var c := Properties(targets[ref].value)[key];
      !Has(c, "default") ==> Follows(c, targets)
  }

  /** Shared definitions carry defaults on their first-level properties only. */
  ghost predicate FirstLevelOnly(targets: Targets) {
    forall ref, key | ref in targets && targets[ref].Ok? && HasProperty(targets[ref].value, key) ::
      var c := Properties(targets[ref].value)[key];
      !Has(c, "default") ==> Clean(c)
  }

  // ---------- what the walk computes, without its order ----------

  /** The element with the defaults of its listed inline properties set, for the first n entries of the values. */
  function Updated(e: Json, v: Values, n: nat): Json
    requires v.Dict? && n <= |v.entries|
    decreases v, 1, 0
  {
    if !HasProperties(e) then e
    else With(e, "properties", Object(map k | k in Properties(e) :: Child(Properties(e)[k], v, n, k)))
  }

  function Child(c: Json, v: Values, n: nat, k: string): Json
    requires v.Dict? && n <= |v.entries|
    decreases v, 0, n
  {
    if n == 0 then c
    else if v.entries[n - 1].0 == k then Revalued(c, v.entries[n - 1].1)
    else Child(c, v, n - 1, k)
  }

  function Revalued(c: Json, v: Values): Json
    decreases v, 2
  {
    if Has(c, "default") then With(c, "default", ToJson(v))
    else if v.Dict? then Updated(c, v, |v.entries|)
    else c
  }

  /** The values fit the element: everything met is well formed, and defaults of shared definitions agree already. */
  ghost predicate Fits(e: Json, v: Values, targets: Targets)
    decreases v, 0, 1
  {
    v.Dict? && FitsFrom(e, v, 0, targets)
  }

  ghost predicate FitsFrom(e: Json, v: Values, i: nat, targets: Targets)
    requires v.Dict?
    decreases v, 0, 0
  {
    forall j | i <= j < |v.entries| :: FitsEntry(e, v.entries[j].0, v.entries[j].1, targets)
  }

  ghost predicate FitsEntry(e: Json, key: string, v: Values, targets: Targets)
    decreases v, 2
  {
    if Has(e, "properties") then
      HasProperties(e) && (key in Properties(e) ==> FitsChild(Properties(e)[key], v, targets, false))
    else
      && Has(e, "$ref") && e.fields["$ref"].Text? && e.fields["$ref"].s in targets
      && targets[e.fields["$ref"].s].Ok?
      && var target := targets[e.fields["$ref"].s].value;
      HasProperties(target) && (key in Properties(target) ==> FitsChild(Properties(target)[key], v, targets, true))
  }

  ghost predicate FitsChild(c: Json, v: Values, targets: Targets, shared: bool)
    decreases v, 1
  {
    && c.Object?
    && if "default" in c.fields then shared ==> c.fields["default"] == ToJson(v) else Fits(c, v, targets)
  }

  // ---------- the recursion computes it ----------

  /** Entry n is the only one about its key. */
  lemma {:induction false} ChildUntouched(c: Json, v: Values, n: nat, k: string)
    requires v.Dict? && n <= |v.entries| && forall j | 0 <= j < n :: v.entries[j].0 != k
    ensures Child(c, v, n, k) == c
  {
    if n > 0 { ChildUntouched(c, v, n - 1, k); }
  }

  lemma UpdatedNone(e: Json, v: Values)
    requires v.Dict?
    ensures Updated(e, v, 0) == e
  {
    if HasProperties(e) {
      assert (map k | k in Properties(e) :: Child(Properties(e)[k], v, 0, k)) == Properties(e);
      assert e.fields["properties" := e.fields["properties"]] == e.fields;
    }
  }

  lemma UpdatedNext(e: Json, v: Values, n: nat)
    requires v.Dict? && n < |v.entries| && DistinctKeys(v)
    ensures var (key, value) := v.entries[n];
      Updated(e, v, n + 1) ==
        if HasProperty(e, key) then WithProperty(Updated(e, v, n), key, Revalued(Properties(e)[key], value))
            else Updated(e, v, n)
    ensures HasProperty(e, v.entries[n].0) ==>
      HasProperty(Updated(e, v, n), v.entries[n].0) &&
          Properties(Updated(e, v, n))[v.entries[n].0] == Properties(e)[v.entries[n].0]
  {
    if HasProperties(e) {
      var (key, value) := v.entries[n];
      var before := map k | k in Properties(e) :: Child(Properties(e)[k], v, n, k);
      var after := map k | k in Properties(e) :: Child(Properties(e)[k], v, n + 1, k);
      if key in Properties(e) {
        ChildUntouched(Properties(e)[key], v, n, key);
        assert after == before[key := Revalued(Properties(e)[key], value)];
        assert e.fields["properties" := Object(before)]["properties" := Object(after)] ==
            e.fields["properties" := Object(after)];
      } else {
        assert after == before;
      }
    }
  }

  /** Where there is no default there is nothing to update. */
  lemma {:induction false} UpdatedClean(e: Json, v: Values, n: nat)
    requires v.Dict? && n <= |v.entries| && Clean(e)
    ensures Updated(e, v, n) == e
    decreases v, 1, 0
  {
    if HasProperties(e) {
      forall k | k in Properties(e) ensures Child(Properties(e)[k], v, n, k) == Properties(e)[k] {
        ChildClean(Properties(e)[k], v, n, k);
      }
      assert (map k | k in Properties(e) :: Child(Properties(e)[k], v, n, k)) == Properties(e);
      assert e.fields["properties" := e.fields["properties"]] == e.fields;
    }
  }

  lemma {:induction false} ChildClean(c: Json, v: Values, n: nat, k: string)
    requires v.Dict? && n <= |v.entries| && Clean(c) && !Has(c, "default")
    ensures Child(c, v, n, k) == c
    decreases v, 0, n
  {
    if n > 0 {
      var value := v.entries[n - 1].1;
      if v.entries[n - 1].0 != k {
        ChildClean(c, v, n - 1, k);
      } else if value.Dict? {
        UpdatedClean(c, value, |value.entries|);
      }
    }
  }

  /** The conditions under which the walk is predictable: references resolve as listed, are closed, and lead to
      definitions with first-level defaults only. */
  ghost predicate Predictable(root: Json, targets: Targets) {
    Resolved(root, targets) && Closed(targets) && FirstLevelOnly(targets)
  }

  /** Updating below loc cannot touch a shared definition. */
  predicate Sheltered(loc: seq<string>, e: Json) {
    loc != [] && (loc[0] == "properties" || Clean(e))
  }

  lemma PutPredictable(root: Json, loc: seq<string>, value: Json, targets: Targets)
    requires Predictable(root, targets) && At(root, loc).Ok? && loc != [] && loc[0] == "properties"
    ensures Predictable(Put(root, loc, value), targets)
  {
    forall ref | ref in targets ensures At(Put(root, loc, value), RefPath(ref)) == targets[ref] {
      PutElsewhere(root, loc, RefPath(ref), value);
    }
  }

  lemma StillPredictable(root: Json, loc: seq<string>, e: Json, v: Values, n: nat, targets: Targets)
    requires Predictable(root, targets) && At(root, loc) == Ok(e) && Sheltered(loc, e)
    requires v.Dict? && n <= |v.entries|
    ensures Predictable(Put(root, loc, Updated(e, v, n)), targets)
  {
    if loc[0] == "properties" {
      PutPredictable(root, loc, Updated(e, v, n), targets);
    } else {
      UpdatedClean(e, v, n);
      AtPut(root, loc, e);
    }
  }

  lemma {:induction false} RefComputes(root: Json, ref: string, key: string, v: Values, targets: Targets)
    requires Predictable(root, targets) && ref in targets && DistinctKeys(v)
    ensures var r := ThroughRef(root, ref, key, v);
      && (r.Ok? <==>
          && targets[ref].Ok? && HasProperties(targets[ref].value)
          && (HasProperty(targets[ref].value, key) ==>
              FitsChild(Properties(targets[ref].value)[key], v, targets, true)))
      && (r.Ok? ==> r.value == root)
    decreases v, Size(v), 3
  {
    if targets[ref].Ok? && HasProperty(targets[ref].value, key) {
      var c := Properties(targets[ref].value)[key];
      var at := RefPath(ref) + ["properties", key];
      AtProperty(root, RefPath(ref), key);
      if c.Object? && "default" !in c.fields {
        BelowComputes(root, at, c, v, targets);
        if v.Dict? {
          UpdatedClean(c, v, |v.entries|);
          AtPut(root, at, c);
        }
      }
    }
  }

  lemma {:induction false} EntryComputes(root: Json, loc: seq<string>, e: Json, key: string, v: Values,
      targets: Targets)
    requires Predictable(root, targets) && At(root, loc) == Ok(e) && loc != [] && DistinctKeys(v)
    requires HasProperty(e, key) ==>
               var c := Properties(e)[key];
               (loc[0] == "properties" || (Clean(c) && !Has(c, "default"))) &&
                   (!Has(c, "default") ==> Follows(c, targets))
    requires !Has(e, "properties") && Has(e, "$ref") && e.fields["$ref"].Text? ==> e.fields["$ref"].s in targets
    ensures var r := CompareEntry(root, loc, key, v);
      && (r.Ok? <==> FitsEntry(e, key, v, targets))
      && (r.Ok? ==>
          r.value == if HasProperty(e, key) then Put(root, loc, WithProperty(e, key, Revalued(Properties(e)[key], v)))
              else root)
    decreases v, Size(v), 4
  {
    if HasProperty(e, key) {
      AtProperty(root, loc, key);
      var c := Properties(e)[key];
      if Has(c, "default") && c.fields["default"] == ToJson(v) {
        SettingTheSame(root, loc, e, key, v);
      } else if c.Object? && "default" !in c.fields {
        BelowComputes(root, loc + ["properties", key], c, v, targets);
      }
    } else if !Has(e, "properties") && Has(e, "$ref") && e.fields["$ref"].Text? {
      RefComputes(root, e.fields["$ref"].s, key, v, targets);
    }
  }

  lemma SettingTheSame(root: Json, loc: seq<string>, e: Json, key: string, v: Values)
    requires At(root, loc) == Ok(e) && HasProperty(e, key) && Has(Properties(e)[key], "default")
    requires Properties(e)[key].fields["default"] == ToJson(v)
    ensures Put(root, loc, WithProperty(e, key, Revalued(Properties(e)[key], v))) == root
  {
    var c := Properties(e)[key];
    assert c.fields["default" := ToJson(v)] == c.fields;
    assert Properties(e)[key := c] == Properties(e);
    assert e.fields["properties" := e.fields["properties"]] == e.fields;
    AtPut(root, loc, e);
  }

  lemma {:induction false} BelowComputes(root: Json, loc: seq<string>, c: Json, v: Values, targets: Targets)
    requires Predictable(root, targets) && At(root, loc) == Ok(c) && Sheltered(loc, c) && Follows(c, targets) &&
        DistinctKeys(v)
    requires !Has(c, "default")
    ensures var r := CompareBelow(root, loc, v);
      && (r.Ok? <==> Fits(c, v, targets))
      && (r.Ok? ==> r.value == Put(root, loc, Revalued(c, v)))
    decreases v, Size(v), 2
  {
    if v.Dict? {
      UpdatedNone(c, v);
      AtPut(root, loc, c);
      FromComputes(root, loc, c, v, 0, targets);
    }
  }

  /** One round of the loop. */
  lemma {:induction false} RoundComputes(root: Json, loc: seq<string>, e: Json, v: Values, i: nat, targets: Targets)
    requires Predictable(root, targets) && At(root, loc) == Ok(e) && Sheltered(loc, e) && Follows(e, targets) &&
        DistinctKeys(v)
    requires v.Dict? && i < |v.entries|
    ensures var (key, value) := v.entries[i];
      var r := CompareEntry(Put(root, loc, Updated(e, v, i)), loc, key, value);
      && (r.Ok? <==> FitsEntry(e, key, value, targets))
      && (r.Ok? ==> r.value == Put(root, loc, Updated(e, v, i + 1)))
    decreases v, Size(v) - i, 0
  {
    var (key, value) := v.entries[i];
    var now := Updated(e, v, i);
    StillPredictable(root, loc, e, v, i, targets);
    AtPut(root, loc, e);
    PutPut(root, loc, now, now);
    AtPut(root, loc, now);
    UpdatedNext(e, v, i);
    if loc[0] != "properties" { UpdatedClean(e, v, i); }
    EntryComputes(Put(root, loc, now), loc, now, key, value, targets);
    assert FitsEntry(now, key, value, targets) == FitsEntry(e, key, value, targets);
    if HasProperty(e, key) {
      PutPut(root, loc, now, WithProperty(now, key, Revalued(Properties(now)[key], value)));
    }
  }

  lemma FitsNext(e: Json, v: Values, i: nat, targets: Targets)
    requires v.Dict? && i < |v.entries|
    ensures FitsFrom(e, v, i, targets) <==>
        FitsEntry(e, v.entries[i].0, v.entries[i].1, targets) && FitsFrom(e, v, i + 1, targets)
  {
  }

  /** The rest of the loop, from entry i on. */
  lemma {:induction false} FromComputes(root: Json, loc: seq<string>, e: Json, v: Values, i: nat, targets: Targets)
    requires Predictable(root, targets) && At(root, loc) == Ok(e) && Sheltered(loc, e) && Follows(e, targets) &&
        DistinctKeys(v)
    requires v.Dict? && i <= |v.entries|
    ensures var r := Compare(Put(root, loc, Updated(e, v, i)), loc, v, i);
      && (r.Ok? <==> FitsFrom(e, v, i, targets))
      && (r.Ok? ==> r.value == Put(root, loc, Updated(e, v, |v.entries|)))
    decreases v, Size(v) - i, 1
  {
    if i < |v.entries| {
      RoundComputes(root, loc, e, v, i, targets);
      FitsNext(e, v, i, targets);
      FromComputes(root, loc, e, v, i + 1, targets);
    }
  }

  // ---------- the guard for shared definitions ----------

  /** Values that rewrite a default below an element that is not clean. */
  lemma {:induction false} Dirty(root: Json, loc: seq<string>, e: Json) returns (v: Values)
    requires At(root, loc) == Ok(e) && !Clean(e)
    ensures DistinctKeys(v) && CompareBelow(root, loc, v).Ok? && CompareBelow(root, loc, v).value != root
    decreases e
  {
    var k :| k in Properties(e) && (Has(Properties(e)[k], "default") || !Clean(Properties(e)[k]));
    var c := Properties(e)[k];
    AtProperty(root, loc, k);
    if Has(c, "default") {
      var other: Plain := if c.fields["default"] == Null then Bool(true) else Null;
      v := Dict([(k, Leaf(other))]);
      var after := Put(root, loc, WithProperty(e, k, With(c, "default", other)));
      assert CompareEntry(root, loc, k, Leaf(other)) == Ok(after);
      assert At(after, loc) == Ok(WithProperty(e, k, With(c, "default", other)))
          by { AtPut(root, loc, WithProperty(e, k, With(c, "default", other))); }
      assert Compare(root, loc, v, 0) == Compare(after, loc, v, 1) == Ok(after);
    } else {
      var below := Dirty(root, loc + ["properties", k], c);
      v := Dict([(k, below)]);
      var after := CompareBelow(root, loc + ["properties", k], below).value;
      assert CompareEntry(root, loc, k, below) == Ok(after);
      assert Compare(root, loc, v, 0) == Compare(after, loc, v, 1) == Ok(after);
    }
  }

  /** Nothing that is reached through a reference is ever changed. */
  ghost predicate GuardHolds(root: Json, targets: Targets) {
    forall ref, key, v | ref in targets && DistinctKeys(v) && ThroughRef(root, ref, key, v).Ok? ::
      ThroughRef(root, ref, key, v).value == root
  }

  /** The refusal to update through references protects the shared definitions exactly when they carry defaults on
      first-level properties only: one level further down an update passes the guard unnoticed. */
  lemma GuardHoldsIff(root: Json, targets: Targets)
    requires Resolved(root, targets) && Closed(targets)
    ensures GuardHolds(root, targets) <==> FirstLevelOnly(targets)
  {
    if FirstLevelOnly(targets) {
      forall ref, key, v | ref in targets && DistinctKeys(v) && ThroughRef(root, ref, key, v).Ok?
        ensures ThroughRef(root, ref, key, v).value == root
      {
        RefComputes(root, ref, key, v, targets);
      }
    } else {
      var ref, key :| ref in targets && targets[ref].Ok? && HasProperty(targets[ref].value, key) &&
        !Has(Properties(targets[ref].value)[key], "default") && !Clean(Properties(targets[ref].value)[key]);
      AtProperty(root, RefPath(ref), key);
      var v := Dirty(root, RefPath(ref) + ["properties", key], Properties(targets[ref].value)[key]);
      assert ThroughRef(root, ref, key, v) == CompareBelow(root, RefPath(ref) + ["properties", key], v);
    }
  }

  // ---------- every default met agrees ----------

  /** Every default met when the element and the values are walked together equals its value. */
  ghost predicate Agrees(e: Json, v: Values, targets: Targets)
    decreases v, 0
  {
    v.Dict? ==> forall j | 0 <= j < |v.entries| :: AgreesEntry(e, v.entries[j].0, v.entries[j].1, targets)
  }

  ghost predicate AgreesEntry(e: Json, key: string, v: Values, targets: Targets)
    decreases v, 2
  {
    if Has(e, "properties") then HasProperty(e, key) ==> AgreesChild(Properties(e)[key], v, targets)
    else
      Has(e, "$ref") && e.fields["$ref"].Text? && e.fields["$ref"].s in targets && targets[e.fields["$ref"].s].Ok? &&
      HasProperty(targets[e.fields["$ref"].s].value, key) ==>
        AgreesChild(Properties(targets[e.fields["$ref"].s].value)[key], v, targets)
  }

  ghost predicate AgreesChild(c: Json, v: Values, targets: Targets)
    decreases v, 1
  {
    if Has(c, "default") then c.fields["default"] == ToJson(v) else Agrees(c, v, targets)
  }

  lemma {:induction false} RevaluedAgrees(c: Json, v: Values, targets: Targets)
    requires FirstLevelOnly(targets) && DistinctKeys(v) && (!Has(c, "default") ==> Fits(c, v, targets))
    ensures AgreesChild(Revalued(c, v), v, targets)
    decreases v, 1
  {
    if !Has(c, "default") && v.Dict? {
      var e := Updated(c, v, |v.entries|);
      assert !Has(e, "default");
      forall j | 0 <= j < |v.entries| ensures AgreesEntry(e, v.entries[j].0, v.entries[j].1, targets) {
        EntryAgrees(c, v, j, targets);
      }
    }
  }

  lemma {:induction false} EntryAgrees(e: Json, v: Values, j: nat, targets: Targets)
    requires FirstLevelOnly(targets) && DistinctKeys(v) && Fits(e, v, targets) && j < |v.entries|
    ensures AgreesEntry(Updated(e, v, |v.entries|), v.entries[j].0, v.entries[j].1, targets)
    decreases v, 0
  {
    var (key, value) := v.entries[j];
    assert FitsEntry(e, key, value, targets);
    if HasProperty(e, key) {
      assert FitsChild(Properties(e)[key], value, targets, false);
      ChildRevalued(Properties(e)[key], v, |v.entries|, j);
      RevaluedAgrees(Properties(e)[key], value, targets);
    } else if !Has(e, "properties") {
      var target := targets[e.fields["$ref"].s].value;
      if HasProperty(target, key) {
        var c := Properties(target)[key];
        assert FitsChild(c, value, targets, true);
        if Has(c, "default") {
          assert AgreesChild(c, value, targets);
        } else {
          RevaluedAgrees(c, value, targets);
          UpdatedClean(c, value, |value.entries|);
        }
      }
    }
  }

  lemma {:induction false} ChildRevalued(c: Json, v: Values, n: nat, j: nat)
    requires v.Dict? && j < n <= |v.entries| && DistinctKeys(v)
    ensures Child(c, v, n, v.entries[j].0) == Revalued(c, v.entries[j].1)
  {
    if j < n - 1 { ChildRevalued(c, v, n - 1, j); }
  }
}
