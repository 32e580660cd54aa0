// Updating the defaults of the customised schema from the values file: the recursion
// that walks values and schema together, through `$ref`s that may be cyclic.

module SchemaDefaults {
  import opened Json

  /** Anything in the values file that is not a dictionary. */
  type Plain = j: Json | !j.Object? witness Null

  /** The values file; a dictionary keeps its order. */
  datatype Values = Leaf(value: Plain) | Dict(entries: seq<(string, Values)>)

  function Size(v: Values): nat {
    if v.Dict? then |v.entries| else 0
  }

  function ToJson(v: Values): Json
    decreases v, 1, 0
  {
    match v
    case Leaf(value) => value
    case Dict(entries) => Object(Fields(v, |entries|))
  }

  function Fields(v: Values, n: nat): map<string, Json>
    requires v.Dict? && n <= |v.entries|
    decreases v, 0, n
  {
    if n == 0 then map[] else Fields(v, n - 1)[v.entries[n - 1].0 := ToJson(v.entries[n - 1].1)]
  }

  /** A Python dictionary has each key once. */
  predicate DistinctKeys(v: Values) {
    v.Dict? ==>
      && (forall i, j | 0 <= i < j < |v.entries| :: v.entries[i].0 != v.entries[j].0)
      && forall i | 0 <= i < |v.entries| :: DistinctKeys(v.entries[i].1)
  }

  lemma {:induction false} FieldsAre(v: Values, n: nat)
    requires v.Dict? && n <= |v.entries|
    ensures forall k :: k in Fields(v, n) <==> exists i :: 0 <= i < n && v.entries[i].0 == k
    ensures DistinctKeys(v) ==> forall i | 0 <= i < n :: Fields(v, n)[v.entries[i].0] == ToJson(v.entries[i].1)
  {
    if n > 0 { FieldsAre(v, n - 1); }
  }

  /** A dictionary of values is the object with the same keys and the values' own JSON under them; anything else is
      itself. */
  lemma ToJsonIs(v: Values)
    requires DistinctKeys(v)
    ensures v.Leaf? ==> ToJson(v) == v.value
    ensures v.Dict? ==>
      && ToJson(v).Object?
      && (forall k :: k in ToJson(v).fields <==> exists i :: 0 <= i < |v.entries| && v.entries[i].0 == k)
      && forall i | 0 <= i < |v.entries| :: ToJson(v).fields[v.entries[i].0] == ToJson(v.entries[i].1)
  {
    if v.Dict? { FieldsAre(v, |v.entries|); }
  }

  // ---------- compare_complex_element ----------

  /** Compares the element at loc with entries i, i + 1, ... of v and rewrites defaults on the way. The recursion
      descends into v, so it ends however the references of the schema run. */
  function Compare(root: Json, loc: seq<string>, v: Values, i: nat): Result<Json>
    requires v.Dict? && i <= |v.entries|
    decreases v, Size(v) - i, 0
  {
    if i == |v.entries| then Ok(root)
    else
      var next :- CompareEntry(root, loc, v.entries[i].0, v.entries[i].1);
      Compare(next, loc, v, i + 1)
  }

  function CompareBelow(root: Json, loc: seq<string>, v: Values): Result<Json>
    decreases v, Size(v), 1
  {
    if v.Dict? then Compare(root, loc, v, 0) else Raised(WrongType)
  }

  function CompareEntry(root: Json, loc: seq<string>, key: string, v: Values): Result<Json>
    decreases v, Size(v), 3
  {
    var e :- At(root, loc);
    if !Has(e, "properties") then
      var ref :- Member(e, "$ref");
      if !ref.Text? then Raised(WrongType) else ThroughRef(root, ref.s, key, v)
    else if !HasProperties(e) then Raised(WrongType)
    else if key !in Properties(e) then Ok(root)
    else if !Properties(e)[key].Object? then Raised(WrongType)
    else if "default" in Properties(e)[key].fields then
      if Properties(e)[key].fields["default"] == ToJson(v) then Ok(root)
      else Ok(Put(root, loc, WithProperty(e, key, With(Properties(e)[key], "default", ToJson(v)))))
    else CompareBelow(root, loc + ["properties", key], v)
  }

  /** The element is a reference: a default of the shared definition may be confirmed but not changed. */
  function ThroughRef(root: Json, ref: string, key: string, v: Values): Result<Json>
    decreases v, Size(v), 2
  {
    var target :- At(root, RefPath(ref));
    var properties :- Member(target, "properties");
    if !properties.Object? then Raised(WrongType)
    else if key !in properties.fields then Ok(root)
    else if !properties.fields[key].Object? then Raised(WrongType)
    else if "default" in properties.fields[key].fields then
      if properties.fields[key].fields["default"] == ToJson(v) then Ok(root) else Raised(UpdateThroughRef)
    else CompareBelow(root, RefPath(ref) + ["properties", key], v)
  }

  /** compare_complex_element: the loop over the values, rewriting the schema as it goes. */
  method CompareComplexElement(root: Json, loc: seq<string>, v: Values) returns (r: Result<Json>)
    ensures r == CompareBelow(root, loc, v)
    decreases v, 1
  {
    if !v.Dict? {
      return Raised(WrongType);
    }
    var schema := root;
    for i := 0 to |v.entries|
      invariant Compare(root, loc, v, 0) == Compare(schema, loc, v, i)
    {
      var next := CompareKey(schema, loc, v.entries[i].0, v.entries[i].1);
      if next.Raised? {
        return next;
      }
      schema := next.value;
    }
    r := Ok(schema);
  }

  /** One round of that loop. */
  method CompareKey(schema: Json, loc: seq<string>, key: string, v: Values) returns (r: Result<Json>)
    ensures r == CompareEntry(schema, loc, key, v)
    decreases v, 2
  {
    var element := At(schema, loc);
    if element.Raised? {
      return element;
    }
    var e, at, reference := element.value, loc, !Has(element.value, "properties");
    if reference {
      var ref := Member(e, "$ref");
      if ref.Raised? {
        return ref;
      }
      if !ref.value.Text? {
        return Raised(WrongType);
      }
      at := RefPath(ref.value.s);
      var target := At(schema, at);
      if target.Raised? {
        return target;
      }
      e := target.value;
      var properties := Member(e, "properties");
      if properties.Raised? {
        return properties;
      }
    }
    if !HasProperties(e) {
      return Raised(WrongType);
    }
    if key !in Properties(e) {
      return Ok(schema);
    }
    var child := Properties(e)[key];
    if !child.Object? {
      return Raised(WrongType);
    }
    if "default" !in child.fields {
      r := CompareComplexElement(schema, at + ["properties", key], v);
    } else if child.fields["default"] == ToJson(v) {
      r := Ok(schema);
    } else if reference {
      r := Raised(UpdateThroughRef);
    } else {
      r := Ok(Put(schema, at, WithProperty(e, key, With(child, "default", ToJson(v)))));
    }
  }

  // ---------- update_defaults_for_existing_schema ----------

  /** v[key] */
  function Entry(v: Values, n: nat, key: string): Result<Values>
    requires v.Dict? && n <= |v.entries|
  {
    if n == 0 then Raised(KeyError)
    else if v.entries[n - 1].0 == key then Ok(v.entries[n - 1].1)
    else Entry(v, n - 1, key)
  }

  function Pick(v: Values, key: string): Result<Values> {
    if v.Dict? then Entry(v, |v.entries|, key) else Raised(WrongType)
  }

  lemma {:induction false} EntryIs(v: Values, n: nat, key: string)
    requires v.Dict? && n <= |v.entries|
    ensures Entry(v, n, key) == Raised(KeyError) <==> forall i | 0 <= i < n :: v.entries[i].0 != key
    ensures forall i | 0 <= i < n && DistinctKeys(v) && v.entries[i].0 == key :: Entry(v, n, key) == Ok(v.entries[i].1)
  {
    if n > 0 { EntryIs(v, n - 1, key); }
  }

  /** Looking a key up gives the value that stands under it, or fails when no entry has the key. */
  lemma PickIs(v: Values, key: string)
    requires DistinctKeys(v)
    ensures v.Dict? ==>
      && (forall i | 0 <= i < |v.entries| && v.entries[i].0 == key :: Pick(v, key) == Ok(v.entries[i].1))
      && (Pick(v, key) == Raised(KeyError) <==> forall i | 0 <= i < |v.entries| :: v.entries[i].0 != key)
    ensures v.Leaf? ==> Pick(v, key) == Raised(WrongType)
  {
    if v.Dict? { EntryIs(v, |v.entries|, key); }
  }

  /** The value that belongs to the element a path of parameters leads to; schema and values are walked in step. */
  function Walk(e: Json, v: Values, path: seq<string>): Result<Values> {
    if path == [] then Ok(v)
    else
      var properties :- Member(e, "properties");
      var child :- Member(properties, path[0]);
      var value :- Pick(v, path[0]);
      Walk(child, value, path[1..])
  }

  function UpdateOne(root: Json, values: Values, path: seq<string>): Result<Json> {
    var value :- Walk(root, values, path);
    var e :- At(root, Location(path));
    if !e.Object? then Raised(WrongType)
    else if "default" in e.fields then
      if e.fields["default"] == ToJson(value) then Ok(root)
          else Ok(Put(root, Location(path), With(e, "default", ToJson(value))))
    else CompareBelow(root, Location(path), value)
  }

  function UpdateFrom(root: Json, values: Values, paths: seq<seq<string>>, i: nat): Result<Json>
    requires i <= |paths|
    decreases |paths| - i
  {
    if i == |paths| then Ok(root)
    else
      var next :- UpdateOne(root, values, paths[i]);
      UpdateFrom(next, values, paths, i + 1)
  }

  lemma {:induction false} WalkSplit(root: Json, v: Values, path: seq<string>, i: nat, value: Values, e: Json)
    requires i < |path| && Walk(root, v, path[..i]) == Ok(value) && At(root, Location(path[..i])) == Ok(e)
    ensures Walk(root, v, path[..i + 1]) == Walk(e, value, [path[i]])
    ensures At(root, Location(path[..i + 1])) == At(e, ["properties", path[i]])
    ensures Walk(root, v, path[..i + 1]).Raised? ==> Walk(root, v, path) == Walk(root, v, path[..i + 1])
    decreases i
  {
    assert path[..i + 1] == path[..i] + [path[i]];
    LocationAppend(path[..i], path[i]);
    AtAppend(root, Location(path[..i]), ["properties", path[i]]);
    if i == 0 {
      assert path[..1] == [path[0]] && path[..0] == [];
    } else {
      var child, below := root.fields["properties"].fields[path[0]], Pick(v, path[0]).value;
      var tail := path[1..];
      assert path[..i][1..] == tail[..i - 1] && path[..i + 1][1..] == tail[..i];
      assert At(root, Location(path[..i])) == At(child, Location(tail[..i - 1])) by {
        AtAppend(root, ["properties", path[0]], Location(tail[..i - 1]));
        AtTwo(root, "properties", path[0]);
      }
      WalkSplit(child, below, tail, i - 1, value, e);
    }
  }

  /** update_defaults_for_existing_schema */
  method UpdateDefaultsForExistingSchema(values: Values, schema: Json, paths: seq<seq<string>>)
      returns (r: Result<Json>)
    ensures r == UpdateFrom(schema, values, paths, 0)
  {
    var customized := schema;
    for i := 0 to |paths|
      invariant UpdateFrom(schema, values, paths, 0) == UpdateFrom(customized, values, paths, i)
    {
      var next := UpdatePath(values, customized, paths[i]);
      if next.Raised? {
        return next;
      }
      customized := next.value;
    }
    r := Ok(customized);
  }

  /** One path: schema and values are walked together, then the default is set or the element compared. */
  method UpdatePath(values: Values, schema: Json, path: seq<string>) returns (r: Result<Json>)
    ensures r == UpdateOne(schema, values, path)
  {
    var value, element := values, schema;
    assert path[..0] == [];
    for i := 0 to |path|
      invariant Walk(schema, values, path[..i]) == Ok(value)
      invariant At(schema, Location(path[..i])) == Ok(element)
    {
      WalkSplit(schema, values, path, i, value, element);
      AtTwo(element, "properties", path[i]);
      assert [path[i]][1..] == [];
      var properties := Member(element, "properties");
      if properties.Raised? {
        return properties;
      }
      var child := Member(properties.value, path[i]);
      if child.Raised? {
        return child;
      }
      var picked := Pick(value, path[i]);
      if picked.Raised? {
        return Raised(picked.error);
      }
      element, value := child.value, picked.value;
    }
    assert path[..|path|] == path;
    if !element.Object? {
      return Raised(WrongType);
    }
    if "default" !in element.fields {
      r := CompareComplexElement(schema, Location(path), value);
    } else if element.fields["default"] == ToJson(value) {
      r := Ok(schema);
    } else {
      r := Ok(Put(schema, Location(path), With(element, "default", ToJson(value))));
    }
  }

  // ---------- only defaults change ----------

  /** The same document up to the values of keys named "default". */
  ghost predicate SameButDefaults(a: Json, b: Json) {
    if a.Object? && b.Object? then
      && a.fields.Keys == b.fields.Keys
      && forall k | k in a.fields && k in b.fields && k != "default" :: SameButDefaults(a.fields[k], b.fields[k])
    else a == b
  }

  lemma {:induction false} SameButDefaultsSelf(a: Json)
    ensures SameButDefaults(a, a)
  {
    if a.Object? {
      forall k | k in a.fields && k != "default" ensures SameButDefaults(a.fields[k], a.fields[k]) {
        SameButDefaultsSelf(a.fields[k]);
      }
    }
  }

  lemma {:induction false} SameButDefaultsTrans(a: Json, b: Json, c: Json)
    requires SameButDefaults(a, b) && SameButDefaults(b, c)
    ensures SameButDefaults(a, c)
  {
    if a.Object? && b.Object? && c.Object? {
      forall k | k in a.fields && k in c.fields && k != "default" ensures SameButDefaults(a.fields[k], c.fields[k]) {
        SameButDefaultsTrans(a.fields[k], b.fields[k], c.fields[k]);
      }
    }
  }

  lemma {:induction false} PutSameButDefaults(root: Json, loc: seq<string>, e: Json)
    requires At(root, loc).Ok? && SameButDefaults(At(root, loc).value, e)
    ensures SameButDefaults(root, Put(root, loc, e))
  {
    if loc != [] {
      PutSameButDefaults(root.fields[loc[0]], loc[1..], e);
      forall k | k in root.fields && k != "default"
        ensures SameButDefaults(root.fields[k], Put(root, loc, e).fields[k])
      {
        if k != loc[0] { SameButDefaultsSelf(root.fields[k]); }
      }
    }
  }

  lemma SameInside(e: Json, key: string, value: Json)
    requires Has(e, key) && (key != "default" ==> SameButDefaults(e.fields[key], value))
    ensures SameButDefaults(e, With(e, key, value))
  {
    forall k | k in e.fields && k != "default" ensures SameButDefaults(e.fields[k], With(e, key, value).fields[k]) {
      if k != key { SameButDefaultsSelf(e.fields[k]); }
    }
  }

  lemma NewDefault(e: Json, key: string, d: Json)
    requires HasProperty(e, key) && Has(Properties(e)[key], "default")
    ensures SameButDefaults(e, WithProperty(e, key, With(Properties(e)[key], "default", d)))
  {
    var child := Properties(e)[key];
    SameInside(child, "default", d);
    SameInside(e.fields["properties"], key, With(child, "default", d));
    SameInside(e, "properties", Object(Properties(e)[key := With(child, "default", d)]));
  }

  /** Whatever the references, the recursion changes nothing but defaults that were there. */
  lemma {:induction false} CompareChangesDefaults(root: Json, loc: seq<string>, v: Values, i: nat)
    requires v.Dict? && i <= |v.entries|
    ensures var r := Compare(root, loc, v, i); r.Ok? ==> SameButDefaults(root, r.value)
    decreases v, Size(v) - i, 0
  {
    if i == |v.entries| {
      SameButDefaultsSelf(root);
    } else {
      var (key, value) := v.entries[i];
      EntryChangesDefaults(root, loc, key, value);
      var next := CompareEntry(root, loc, key, value);
      if next.Ok? {
        CompareChangesDefaults(next.value, loc, v, i + 1);
        var r := Compare(next.value, loc, v, i + 1);
        if r.Ok? { SameButDefaultsTrans(root, next.value, r.value); }
      }
    }
  }

  lemma {:induction false} BelowChangesDefaults(root: Json, loc: seq<string>, v: Values)
    ensures var r := CompareBelow(root, loc, v); r.Ok? ==> SameButDefaults(root, r.value)
    decreases v, Size(v), 1
  {
    if v.Dict? { CompareChangesDefaults(root, loc, v, 0); }
  }

  lemma {:induction false} RefChangesDefaults(root: Json, ref: string, key: string, v: Values)
    ensures var r := ThroughRef(root, ref, key, v); r.Ok? ==> SameButDefaults(root, r.value)
    decreases v, Size(v), 2
  {
    SameButDefaultsSelf(root);
    BelowChangesDefaults(root, RefPath(ref) + ["properties", key], v);
  }

  lemma {:induction false} EntryChangesDefaults(root: Json, loc: seq<string>, key: string, v: Values)
    ensures var r := CompareEntry(root, loc, key, v); r.Ok? ==> SameButDefaults(root, r.value)
    decreases v, Size(v), 3
  {
    SameButDefaultsSelf(root);
    BelowChangesDefaults(root, loc + ["properties", key], v);
    var e := At(root, loc);
    if e.Ok? && Has(e.value, "$ref") && e.value.fields["$ref"].Text? {
      RefChangesDefaults(root, e.value.fields["$ref"].s, key, v);
    }
    if e.Ok? && HasProperty(e.value, key) && Has(Properties(e.value)[key], "default") {
      NewDefault(e.value, key, ToJson(v));
      PutSameButDefaults(root, loc, WithProperty(e.value, key, With(Properties(e.value)[key], "default", ToJson(v))));
    }
  }
}
