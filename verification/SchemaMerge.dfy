// The deep merge of schema properties: base and override are merged below nodes that
// have properties on both sides, otherwise the override replaces the base.

module SchemaMerge {
  import opened Json

  /** One key present on both sides. Of the override only its properties are used when both sides have some. */
  function MergeNode(base: Json, override: Json): Json
    decreases override, 0
  {
    if HasProperties(base) && HasProperties(override) then
      With(base, "properties", Object(Merge(Properties(base), Properties(override))))
    else override
  }

  function Merge(base: map<string, Json>, override: map<string, Json>): map<string, Json>
    decreases Object(override), 1
  {
    map key | key in base.Keys + override.Keys ::
      if key !in override then base[key]
      else if key !in base then override[key]
      else MergeNode(base[key], override[key])
  }

  // ---------- the program ----------

  /** The merge as the program does it: `properties` that are no object cannot be merged, except that nothing happens to
      them when the override lists none. */
  function Merged(base: map<string, Json>, override: map<string, Json>): Result<map<string, Json>>
    decreases Object(override), 1
  {
    if exists key :: key in base && key in override && MergedNode(base[key], override[key]).Raised?
    then Raised(WrongType)
    else Ok(map key | key in base.Keys + override.Keys ::
              if key !in override then base[key]
              else if key !in base then override[key]
              else MergedNode(base[key], override[key]).value)
  }

  function MergedNode(base: Json, override: Json): Result<Json>
    decreases override, 0
  {
    if !Has(base, "properties") || !Has(override, "properties") then Ok(override)
    else if !HasProperties(override) then Raised(WrongType)
    else if !HasProperties(base) then
      if Properties(override) == map[] then Ok(base) else Raised(WrongType)
    else
      var properties :- Merged(Properties(base), Properties(override));
      Ok(With(base, "properties", Object(properties)))
  }

  /** deep_merge_schema_properties: a copy of base, updated key by key in whatever order the override lists them. */
  method DeepMerge(base: map<string, Json>, override: map<string, Json>) returns (r: Result<map<string, Json>>)
    ensures r == Merged(base, override)
    decreases Object(override), 1
  {
    var result := base;
    var todo := override.Keys;
    while todo != {}
      invariant todo <= override.Keys
      invariant result.Keys == base.Keys + (override.Keys - todo)
      invariant forall key | key in result && (key !in override || key in todo) :: result[key] == base[key]
      invariant forall key | key in override && key !in todo ::
        if key in base then MergedNode(base[key], override[key]) == Ok(result[key]) else result[key] == override[key]
      decreases todo
    {
      var key :| key in todo;
      if key in result && Has(result[key], "properties") && Has(override[key], "properties") {
        var merged := DeepMergeProperties(result[key], override[key]);
        if merged.Raised? {
          assert MergedNode(base[key], override[key]).Raised?;
          return Raised(WrongType);
        }
        result := result[key := merged.value];
      } else {
        result := result[key := override[key]];
      }
      todo := todo - {key};
    }
    assert Merged(base, override).Ok? ==> Merged(base, override).value == result;
    r := Ok(result);
  }

  /** Two nodes with `properties`: what the recursive call meets may not be an object. */
  method DeepMergeProperties(base: Json, override: Json) returns (r: Result<Json>)
    requires Has(base, "properties") && Has(override, "properties")
    ensures r == MergedNode(base, override)
    decreases override, 0
  {
    if !HasProperties(override) {
      return Raised(WrongType);
    }
    if !HasProperties(base) {
      return if Properties(override) == map[] then Ok(base) else Raised(WrongType);
    }
    var merged := DeepMerge(Properties(base), Properties(override));
    if merged.Raised? {
      return Raised(merged.error);
    }
    r := Ok(With(base, "properties", Object(merged.value)));
  }

  /** Every `properties` down through the nodes is an object, as in a schema. */
  predicate Tidy(m: map<string, Json>)
    decreases Object(m)
  {
    forall key | key in m && Has(m[key], "properties") :: HasProperties(m[key]) && Tidy(Properties(m[key]))
  }

  /** On such documents the program returns the merge the laws below are about. */
  lemma {:induction false} MergedIsMerge(base: map<string, Json>, override: map<string, Json>)
    requires Tidy(base) && Tidy(override)
    ensures Merged(base, override) == Ok(Merge(base, override)) && Tidy(Merge(base, override))
    decreases Object(override)
  {
    forall key | key in base && key in override
      ensures MergedNode(base[key], override[key]) == Ok(MergeNode(base[key], override[key]))
      ensures Has(MergeNode(base[key], override[key]), "properties") ==>
        HasProperties(MergeNode(base[key], override[key])) && Tidy(Properties(MergeNode(base[key], override[key])))
    {
      if HasProperties(base[key]) && HasProperties(override[key]) {
        MergedIsMerge(Properties(base[key]), Properties(override[key]));
      }
    }
    var r := map key | key in base.Keys + override.Keys ::
      if key !in override then base[key]
      else if key !in base then override[key]
      else MergedNode(base[key], override[key]).value;
    assert r == Merge(base, override);
    assert Merged(base, override) == Ok(r);
  }

  /** On any other document the program fails: it cannot even be merged into itself. */
  lemma {:induction false} SelfMergeIff(m: map<string, Json>)
    ensures Merged(m, m) == Ok(m) <==> Tidy(m)
    ensures Merged(m, m).Ok? <==> Tidy(m)
    decreases Object(m)
  {
    if Tidy(m) {
      MergedIsMerge(m, m);
      MergeSelf(m);
    } else {
      var key :| key in m && Has(m[key], "properties") && !(HasProperties(m[key]) && Tidy(Properties(m[key])));
      if HasProperties(m[key]) { SelfMergeIff(Properties(m[key])); }
      assert MergedNode(m[key], m[key]).Raised?;
    }
  }

  /** The merge has the keys of both sides. A key of one side keeps its value; of a key of both sides the override wins,
      but for the properties, which are merged when both have some. */
  lemma MergeKeys(base: map<string, Json>, override: map<string, Json>, key: string)
    requires Merged(base, override).Ok?
    ensures var r := Merged(base, override).value;
      && (key in r <==> key in base || key in override)
      && (key in base && key !in override ==> r[key] == base[key])
      && (key in override && key !in base ==> r[key] == override[key])
      && (key in base && key in override ==>
            if !Has(base[key], "properties") || !Has(override[key], "properties") then r[key] == override[key]
            else
              && Has(r[key], "properties") && r[key].fields.Keys == base[key].fields.Keys
              && (forall k | k in base[key].fields && k != "properties" :: r[key].fields[k] == base[key].fields[k])
              && (HasProperties(base[key]) && HasProperties(override[key]) ==>
                    Merged(Properties(base[key]), Properties(override[key])).Ok? && HasProperties(r[key]) &&
                    Properties(r[key]) == Merged(Properties(base[key]), Properties(override[key])).value))
  {
    if key in base && key in override {
      assert MergedNode(base[key], override[key]).Ok?;
      assert Merged(base, override).value[key] == MergedNode(base[key], override[key]).value;
    }
  }

  // ---------- idempotence ----------

  /** Merging a schema into itself changes nothing. */
  lemma {:induction false} MergeSelf(a: map<string, Json>)
    ensures Merge(a, a) == a
    decreases Object(a)
  {
    forall key | key in a ensures MergeNode(a[key], a[key]) == a[key] {
      if HasProperties(a[key]) {
        MergeSelf(Properties(a[key]));
        assert a[key].fields["properties" := a[key].fields["properties"]] == a[key].fields;
      }
    }
  }

  /** Merging the same override a second time changes nothing. */
  lemma {:induction false} MergeTwice(a: map<string, Json>, b: map<string, Json>)
    ensures Merge(Merge(a, b), b) == Merge(a, b)
    decreases Object(b)
  {
    var once := Merge(a, b);
    forall key | key in b ensures MergeNode(once[key], b[key]) == once[key] {
      if HasProperties(b[key]) {
        if key in a && HasProperties(a[key]) {
          MergeTwice(Properties(a[key]), Properties(b[key]));
          WithTwice(a[key], Object(Merge(Properties(a[key]), Properties(b[key]))));
        } else {
          MergeSelf(Properties(b[key]));
          WithTwice(b[key], b[key].fields["properties"]);
        }
      }
    }
  }

  lemma WithTwice(e: Json, p: Json)
    requires e.Object?
    ensures With(With(e, "properties", p), "properties", p) == With(e, "properties", p)
    ensures Has(e, "properties") && e.fields["properties"] == p ==> With(e, "properties", p) == e
  {
    assert e.fields["properties" := p]["properties" := p] == e.fields["properties" := p];
    if Has(e, "properties") && e.fields["properties"] == p {
      assert e.fields["properties" := p] == e.fields;
    }
  }

  // ---------- absorption ----------

  /** Apart from their properties the two nodes are the same. */
  predicate SameShell(a: Json, c: Json)
    requires HasProperties(a) && HasProperties(c)
  {
    a.fields - {"properties"} == c.fields - {"properties"}
  }

  /** The override already says everything the base says. */
  ghost predicate Absorbed(a: map<string, Json>, c: map<string, Json>)
    decreases Object(c)
  {
    && a.Keys <= c.Keys
    && forall key | key in a && key in c && HasProperties(a[key]) && HasProperties(c[key]) ::
         SameShell(a[key], c[key]) && Absorbed(Properties(a[key]), Properties(c[key]))
  }

  lemma ShellAndProperties(a: Json, c: Json)
    requires HasProperties(a) && HasProperties(c)
    ensures (SameShell(a, c) && Merge(Properties(a), Properties(c)) == Properties(c)) <==> MergeNode(a, c) == c
  {
    var merged := Object(Merge(Properties(a), Properties(c)));
    if SameShell(a, c) && merged.fields == Properties(c) {
      assert a.fields["properties" := merged] == c.fields by {
        forall key | key in c.fields && key != "properties" ensures key in a.fields && a.fields[key] == c.fields[key] {
          assert key in c.fields - {"properties"};
        }
        forall key | key in a.fields && key != "properties" ensures key in c.fields {
          assert key in a.fields - {"properties"};
        }
      }
    }
    if MergeNode(a, c) == c {
      assert a.fields["properties" := merged] == c.fields;
      assert c.fields["properties"] == merged;
      forall key | key in a.fields && key != "properties" ensures key in c.fields && a.fields[key] == c.fields[key] {}
      forall key | key in c.fields && key != "properties" ensures key in a.fields {}
    }
  }

  /** Merging leaves the override as it is exactly when it absorbs the base. */
  lemma {:induction false} AbsorbedIff(a: map<string, Json>, c: map<string, Json>)
    ensures Absorbed(a, c) <==> Merge(a, c) == c
    decreases Object(c)
  {
    forall key | key in a && key in c && HasProperties(a[key]) && HasProperties(c[key])
      ensures (SameShell(a[key], c[key]) && Absorbed(Properties(a[key]), Properties(c[key]))) <==>
              MergeNode(a[key], c[key]) == c[key]
    {
      AbsorbedIff(Properties(a[key]), Properties(c[key]));
      ShellAndProperties(a[key], c[key]);
    }
    if Absorbed(a, c) {
      assert Merge(a, c).Keys == c.Keys;
    }
    if Merge(a, c) == c {
      forall key | key in a ensures key in c { assert key in Merge(a, c); }
      forall key | key in a && key in c ensures MergeNode(a[key], c[key]) == c[key] {
        assert Merge(a, c)[key] == c[key];
      }
    }
  }

  // ---------- associativity ----------

  /** Nowhere does b replace a node of a that has properties by one without and c bring properties back, unless c
      absorbs what a had there. */
  ghost predicate NoRevival(a: map<string, Json>, b: map<string, Json>, c: map<string, Json>)
    decreases Object(c)
  {
    forall key | key in a && key in b && key in c && HasProperties(a[key]) && HasProperties(c[key]) ::
      if HasProperties(b[key]) then NoRevival(Properties(a[key]), Properties(b[key]), Properties(c[key]))
      else SameShell(a[key], c[key]) && Absorbed(Properties(a[key]), Properties(c[key]))
  }

  lemma AssociativeAt(a: Json, b: Json, c: Json)
    requires HasProperties(a) && HasProperties(b) && HasProperties(c)
    ensures MergeNode(MergeNode(a, b), c) == MergeNode(a, MergeNode(b, c)) <==>
            Merge(Merge(Properties(a), Properties(b)), Properties(c)) ==
                Merge(Properties(a), Merge(Properties(b), Properties(c)))
  {
    var ab, l := Object(Merge(Properties(a), Properties(b))),
        Object(Merge(Merge(Properties(a), Properties(b)), Properties(c)));
    var r := Object(Merge(Properties(a), Merge(Properties(b), Properties(c))));
    assert a.fields["properties" := ab]["properties" := l] == a.fields["properties" := l];
    assert MergeNode(MergeNode(a, b), c) == With(a, "properties", l);
    assert MergeNode(a, MergeNode(b, c)) == With(a, "properties", r);
    if With(a, "properties", l) == With(a, "properties", r) {
      assert a.fields["properties" := l]["properties"] == a.fields["properties" := r]["properties"];
    }
  }

  /** Merging is associative exactly when no such revival occurs. */
  lemma {:induction false} AssociativeIff(a: map<string, Json>, b: map<string, Json>, c: map<string, Json>)
    ensures Merge(Merge(a, b), c) == Merge(a, Merge(b, c)) <==> NoRevival(a, b, c)
    decreases Object(c)
  {
    var l, r := Merge(Merge(a, b), c), Merge(a, Merge(b, c));
    assert l.Keys == r.Keys;
    forall key | key in l
      ensures l[key] == r[key] <==>
        (key in a && key in b && key in c && HasProperties(a[key]) && HasProperties(c[key]) ==>
          if HasProperties(b[key]) then NoRevival(Properties(a[key]), Properties(b[key]), Properties(c[key]))
          else SameShell(a[key], c[key]) && Absorbed(Properties(a[key]), Properties(c[key])))
    {
      if key in a && key in b && key in c {
        assert l[key] == MergeNode(MergeNode(a[key], b[key]), c[key]);
        assert r[key] == MergeNode(a[key], MergeNode(b[key], c[key]));
        if HasProperties(a[key]) && HasProperties(c[key]) {
          if HasProperties(b[key]) {
            AssociativeIff(Properties(a[key]), Properties(b[key]), Properties(c[key]));
            AssociativeAt(a[key], b[key], c[key]);
          } else {
            AbsorbedIff(Properties(a[key]), Properties(c[key]));
            ShellAndProperties(a[key], c[key]);
          }
        }
      }
    }
    if NoRevival(a, b, c) {
      assert l == r;
    }
    if l == r {
      assert forall key | key in l :: l[key] == r[key];
    }
  }
}
