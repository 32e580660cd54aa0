// What the customised schema looks like, location by location: its top level, the
// interior nodes on the way to the listed parameters, and the parameters themselves.

module SchemaReuse {
  import opened Json
  import opened SchemaProjection

  /** Some path goes through the prefix and on with the key. */
  ghost predicate Listed(paths: set<seq<string>>, prefix: seq<string>, key: string) {
    exists p :: p in paths && |p| > |prefix| && p[..|prefix|] == prefix && p[|prefix|] == key
  }

  /** All keys of the original, with their values, but for the properties and what it says about additional ones: they
      are allowed where the original spoke about them. */
  ghost predicate Narrowed(custom: Json, original: Json) {
    && HasProperties(custom) && original.Object?
    && custom.fields.Keys == original.fields.Keys + {"properties"}
    && (forall k | k in original.fields && k in custom.fields && k != "properties" && k != "additionalProperties" ::
          custom.fields[k] == original.fields[k])
    && ("additionalProperties" in original.fields ==> custom.fields["additionalProperties"] == Bool(true))
  }

  lemma NodeNarrows(child: Json, paths: set<seq<string>>, root: Json)
    requires child.Object?
    ensures Narrowed(Node(Opened(child).fields, child, paths, root), child)
  {
  }

  lemma ListedHeads(paths: set<seq<string>>, key: string)
    ensures key in Heads(paths) <==> Listed(paths, [], key)
  {
    if key in Heads(paths) {
      var p :| p in paths && p != [] && p[0] == key;
      assert p[..0] == [];
    }
  }

  lemma ListedTails(paths: set<seq<string>>, first: string, prefix: seq<string>, key: string)
    ensures Listed(Tails(paths, first), prefix, key) <==> Listed(paths, [first] + prefix, key)
  {
    var longer := [first] + prefix;
    if Listed(Tails(paths, first), prefix, key) {
      var q :| q in Tails(paths, first) && |q| > |prefix| && q[..|prefix|] == prefix && q[|prefix|] == key;
      var p :| p in paths && p != [] && p[0] == first && p[1..] == q;
      assert p == [first] + q;
      assert p[..|longer|] == longer && p[|longer|] == key;
    }
    if Listed(paths, longer, key) {
      var p :| p in paths && |p| > |longer| && p[..|longer|] == longer && p[|longer|] == key;
      var q := p[1..];
      assert p[0] == p[..|longer|][0] == first;
      assert q in Tails(paths, first);
      assert q[..|prefix|] == longer[1..] == prefix && q[|prefix|] == key;
    }
  }

  lemma KeptAt(fields: map<string, Json>, e: Json, paths: set<seq<string>>, path: seq<string>, root: Json)
    requires path in paths && Resolves(e, path, root)
    ensures HasProperty(Node(fields, e, paths, root), path[0])
    ensures Properties(Node(fields, e, paths, root))[path[0]] == Kept(e, path[0], paths, root)
  {
    assert path[0] in Heads(paths);
    assert Node(fields, e, paths, root) == Object(fields["properties" := Object(Restricted(e, paths, root))]);
    assert path[0] in Restricted(e, paths, root);
  }

  /** One step along a listed path that goes on: the same in the restriction and in the original. */
  lemma StepDown(fields: map<string, Json>, e: Json, paths: set<seq<string>>, path: seq<string>, root: Json)
    requires AllResolve(e, paths, root) && PrefixFree(paths) && path in paths && |path| > 1
    ensures HasProperty(e, path[0]) && Properties(e)[path[0]].Object?
    ensures var (key, child) := (path[0], Properties(e)[path[0]]);
      && HasProperty(Node(fields, e, paths, root), key)
      && Properties(Node(fields, e, paths, root))[key] == Node(Opened(child).fields, child, Tails(paths, key), root)
      && AllResolve(child, Tails(paths, key), root) && PrefixFree(Tails(paths, key)) && path[1..] in Tails(paths, key)
  {
    var key := path[0];
    assert Resolves(e, path, root);
    assert paths + {path} == paths;
    NotALeaf(paths, path);
    KeptAt(fields, e, paths, path, root);
    TailsResolve(e, paths, root, key);
    TailsPrefixFree(paths, key);
  }

  lemma AtStep(e: Json, path: seq<string>, i: nat)
    requires 1 <= i <= |path| && HasProperty(e, path[0])
    ensures At(e, Location(path[..i])) == At(Properties(e)[path[0]], Location(path[1..][..i - 1]))
  {
    var key := path[0];
    assert path[..i][1..] == path[1..][..i - 1];
    assert Location(path[..i]) == ["properties", key] + Location(path[1..][..i - 1]);
    AtAppend(e, ["properties", key], Location(path[1..][..i - 1]));
    AtTwo(e, "properties", key);
  }

  /** An interior node on a listed path is the original one, narrowed to the children the list names. */
  lemma {:induction false} InteriorIs(fields: map<string, Json>, e: Json, paths: set<seq<string>>, path: seq<string>,
                                      i: nat, root: Json)
    requires AllResolve(e, paths, root) && PrefixFree(paths) && path in paths && 0 < i < |path|
    ensures var (custom, original) := (At(Node(fields, e, paths, root), Location(path[..i])),
        At(e, Location(path[..i])));
      && custom.Ok? && original.Ok? && Narrowed(custom.value, original.value)
      && forall key :: key in Properties(custom.value) <==> Listed(paths, path[..i], key)
    decreases i
  {
    var node := Node(fields, e, paths, root);
    var key, child := path[0], Properties(e)[path[0]];
    var tails := Tails(paths, key);
    StepDown(fields, e, paths, path, root);
    AtStep(node, path, i);
    AtStep(e, path, i);
    assert path[..i] == [key] + path[1..][..i - 1];
    if i == 1 {
      assert path[1..][..0] == [];
      NodeNarrows(child, tails, root);
      HeadsResolve(child, tails, root);
      forall k ensures k in Heads(tails) <==> Listed(paths, path[..1], k) {
        ListedHeads(tails, k);
        ListedTails(paths, key, [], k);
        assert path[..1] == [key] + [];
      }
    } else {
      InteriorIs(Opened(child).fields, child, tails, path[1..], i - 1, root);
      forall k ensures Listed(tails, path[1..][..i - 1], k) <==> Listed(paths, path[..i], k) {
        ListedTails(paths, key, path[1..][..i - 1], k);
      }
    }
  }

  /** A listed parameter is the original one, with its reference inlined. */
  lemma {:induction false} LeafIs(fields: map<string, Json>, e: Json, paths: set<seq<string>>, path: seq<string>,
      root: Json)
    requires AllResolve(e, paths, root) && PrefixFree(paths) && path in paths
    ensures At(e, Location(path)).Ok? && At(e, Location(path)).value.Object?
    ensures At(Node(fields, e, paths, root), Location(path)) == InlineRef(At(e, Location(path)).value, root)
    decreases |path|
  {
    var node := Node(fields, e, paths, root);
    assert Resolves(e, path, root);
    var key, child := path[0], Properties(e)[path[0]];
    assert path[..|path|] == path && path[1..][..|path| - 1] == path[1..];
    KeptAt(fields, e, paths, path, root);
    AtStep(node, path, |path|);
    AtStep(e, path, |path|);
    if |path| == 1 {
      assert path == [key] && path[1..] == [];
    } else {
      StepDown(fields, e, paths, path, root);
      LeafIs(Opened(child).fields, child, Tails(paths, key), path[1..], root);
    }
  }

  // ---------- the result ----------

  /** The list as the generator expects it. */
  ghost predicate GoodList(community: Json, paths: seq<seq<string>>) {
    && NonEmpty(paths) && Distinct(paths) && PrefixFree(AsSet(paths)) && AllResolve(community, AsSet(paths), community)
  }

  lemma {:induction false} GlobalsAre(community: Json, names: seq<string>)
    ensures CopyGlobals(community, names).Ok? <==> forall name | name in names :: Has(community, name)
    ensures CopyGlobals(community, names).Ok? ==>
      var copied := CopyGlobals(community, names).value;
      && (forall name :: name in copied <==> name in names)
      && forall name | name in copied :: Has(community, name) && copied[name] == community.fields[name]
  {
    if names != [] {
      var init, last := names[..|names| - 1], names[|names| - 1];
      GlobalsAre(community, init);
      assert names == init + [last];
      assert last in names && forall name | name in init :: name in names;
    }
  }

  /** The top level has the global keys, as the community schema has them, and the listed first parameters. */
  lemma ReusedTop(community: Json, globals: seq<string>, paths: seq<seq<string>>)
    requires GoodList(community, paths)
    ensures Reuse(community, globals, paths).Ok? <==> forall name | name in globals :: Has(community, name)
    ensures Reuse(community, globals, paths).Ok? ==>
      var r := Reuse(community, globals, paths).value;
      && HasProperties(r)
      && (forall k :: k in r.fields <==> k in globals || k == "properties")
      && (forall k | k in globals && k != "properties" :: Has(community, k) && r.fields[k] == community.fields[k])
      && forall key :: key in Properties(r) <==> Listed(AsSet(paths), [], key)
  {
    GlobalsAre(community, globals);
    if CopyGlobals(community, globals).Ok? {
      ReuseIsRestriction(community, globals, paths);
      HeadsResolve(community, AsSet(paths), community);
      forall key ensures key in Heads(AsSet(paths)) <==> Listed(AsSet(paths), [], key) {
        ListedHeads(AsSet(paths), key);
      }
    }
  }

  /** Every interior node on a listed path keeps its keys and values, has room for additional properties exactly if it
      spoke about them, and of its children exactly the listed ones. */
  lemma ReusedInterior(community: Json, globals: seq<string>, paths: seq<seq<string>>, path: seq<string>, i: nat)
    requires GoodList(community, paths) && Reuse(community, globals, paths).Ok?
    requires path in paths && 0 < i < |path|
    ensures var custom := At(Reuse(community, globals, paths).value, Location(path[..i]));
      var original := At(community, Location(path[..i]));
      && custom.Ok? && original.Ok? && Narrowed(custom.value, original.value)
      && forall key :: key in Properties(custom.value) <==> Listed(AsSet(paths), path[..i], key)
  {
    ReuseIsRestriction(community, globals, paths);
    InteriorIs(CopyGlobals(community, globals).value, community, AsSet(paths), path, i, community);
  }

  /** Every listed parameter is there: unchanged, unless it is a bare reference; then without the reference, and with
      what the definition adds to its own keys. */
  lemma ReusedLeaf(community: Json, globals: seq<string>, paths: seq<seq<string>>, path: seq<string>)
    requires GoodList(community, paths) && Reuse(community, globals, paths).Ok? && path in paths
    ensures var custom := At(Reuse(community, globals, paths).value, Location(path));
      var original := At(community, Location(path));
      && custom.Ok? && original.Ok? && original.value.Object? && custom.value.Object?
      && var (leaf, own) := (custom.value.fields, original.value.fields);
      if "$ref" !in own || "properties" in own then leaf == own
      else
        && own["$ref"].Text?
        && var definition := At(community, RefPath(own["$ref"].s));
        && definition.Ok? && definition.value.Object?
        && (forall k :: k in leaf <==> (k in own && k != "$ref") || k in definition.value.fields)
        && (forall k | k in own && k != "$ref" :: leaf[k] == own[k])
        && (forall k | k in definition.value.fields && (k == "$ref" || k !in own) ::
            leaf[k] == definition.value.fields[k])
  {
    ReuseIsRestriction(community, globals, paths);
    LeafIs(CopyGlobals(community, globals).value, community, AsSet(paths), path, community);
    var original := At(community, Location(path)).value;
    LeafResolves(community, path, community);
    if "$ref" in original.fields && "properties" !in original.fields { InlinedLeaf(original, community); }
  }

  lemma {:induction false} LeafResolves(e: Json, path: seq<string>, root: Json)
    requires Resolves(e, path, root)
    ensures At(e, Location(path)).Ok? && InlineRef(At(e, Location(path)).value, root).Ok?
    decreases |path|
  {
    assert path[..|path|] == path && path[1..][..|path| - 1] == path[1..];
    AtStep(e, path, |path|);
    if |path| > 1 { LeafResolves(Properties(e)[path[0]], path[1..], root); }
  }
}
