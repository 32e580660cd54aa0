// Building the customised schema from the community schema: the cursor loop over the
// parameters to keep, and the restriction of the community schema it computes.

module SchemaProjection {
  import opened Json

  // ---------- pieces ----------

  /** e["properties"][key] */
  function Property(e: Json, key: string): Result<Json> {
    var properties :- Member(e, "properties");
    Member(properties, key)
  }

  /** A kept leaf: a bare `$ref` is replaced by the definition it names, one level deep, with the leaf's own keys
      taking precedence. */
  function InlineRef(copied: Json, root: Json): Result<Json> {
    if !copied.Object? then Raised(WrongType)
    else if "$ref" in copied.fields && "properties" !in copied.fields then
      if !copied.fields["$ref"].Text? then Raised(WrongType)
      else
        var definition :- At(root, RefPath(copied.fields["$ref"].s));
        if !definition.Object? then Raised(WrongType)
        else Ok(Object(definition.fields + (copied.fields - {"$ref"})))
    else Ok(copied)
  }

  /** An interior node: all its own keys, no properties yet, and room for additional ones if it spoke about them. */
  function Opened(e: Json): Json
    requires e.Object?
  {
    var fields := if "additionalProperties" in e.fields then e.fields["additionalProperties" := Bool(true)]
        else e.fields;
    Object(fields["properties" := Object(map[])])
  }

  function OpenedCopy(e: Json): Result<Json> {
    if e.Object? then Ok(Opened(e)) else Raised(WrongType)
  }

  // ---------- one path ----------

  /** The customised element after one path of parameters is added to it. */
  function Insert(custom: Json, community: Json, path: seq<string>, root: Json): Result<Json>
    requires path != []
    decreases |path|
  {
    var key := path[0];
    var child :- Property(community, key);
    if HasProperty(custom, key) then
      if |path| == 1 then Ok(custom)
      else
        var sub :- Insert(Properties(custom)[key], child, path[1..], root);
        Ok(WithProperty(custom, key, sub))
    else if !HasProperties(custom) then Raised(KeyError)
    else if |path| == 1 then
      var leaf :- InlineRef(child, root);
      Ok(WithProperty(custom, key, leaf))
    else
      var interior :- OpenedCopy(child);
      var sub :- Insert(interior, child, path[1..], root);
      Ok(WithProperty(custom, key, sub))
  }

  predicate NonEmpty(paths: seq<seq<string>>) {
    forall i | 0 <= i < |paths| :: paths[i] != []
  }

  function InsertAll(custom: Json, community: Json, paths: seq<seq<string>>): Result<Json>
    requires NonEmpty(paths)
  {
    if paths == [] then Ok(custom)
    else
      var last := |paths| - 1;
      var before :- InsertAll(custom, community, paths[..last]);
      Insert(before, community, paths[last], community)
  }

  function CopyGlobals(community: Json, names: seq<string>): Result<map<string, Json>> {
    if names == [] then Ok(map[])
    else
      var last := |names| - 1;
      var before :- CopyGlobals(community, names[..last]);
      var value :- Member(community, names[last]);
      Ok(before[names[last] := value])
  }

  function Reuse(community: Json, globals: seq<string>, paths: seq<seq<string>>): Result<Json>
    requires NonEmpty(paths)
  {
    var copied :- CopyGlobals(community, globals);
    InsertAll(Object(copied["properties" := Object(map[])]), community, paths)
  }

  // ---------- the declarative restriction ----------

  /** The path leads through inline properties to a leaf that can be copied. */
  predicate Resolves(e: Json, path: seq<string>, root: Json) {
    && path != []
    && HasProperty(e, path[0])
    && Properties(e)[path[0]].Object?
    && (if |path| == 1 then InlineRef(Properties(e)[path[0]], root).Ok?
        else Resolves(Properties(e)[path[0]], path[1..], root))
  }

  ghost function Heads(paths: set<seq<string>>): set<string> {
    set path | path in paths && path != [] :: path[0]
  }

  /** What the paths that start with key go on with. */
  ghost function Tails(paths: set<seq<string>>, key: string): set<seq<string>> {
    set path | path in paths && path != [] && path[0] == key :: path[1..]
  }

  ghost predicate AllResolve(e: Json, paths: set<seq<string>>, root: Json) {
    forall path | path in paths :: Resolves(e, path, root)
  }

  ghost predicate PrefixFree(paths: set<seq<string>>) {
    forall p, q | p in paths && q in paths && p <= q :: p == q
  }

  /** The listed properties of an element and nothing else. */
  ghost function Restricted(e: Json, paths: set<seq<string>>, root: Json): map<string, Json>
    decreases e, 1
  {
    map key | key in Heads(paths) && HasProperty(e, key) :: Kept(e, key, paths, root)
  }

  /** A listed leaf is copied with its `$ref` inlined; an interior node keeps all its own keys but only its listed
      children. (Null where a path does not resolve.) */
  ghost function Kept(e: Json, key: string, paths: set<seq<string>>, root: Json): Json
    requires HasProperty(e, key)
    decreases e, 0
  {
    var child := Properties(e)[key];
    if [key] in paths then
      if InlineRef(child, root).Ok? then InlineRef(child, root).value else Null
    else if child.Object? then Node(Opened(child).fields, child, Tails(paths, key), root)
    else Null
  }

  /** An element with the given other keys whose properties are exactly the restriction. */
  ghost function Node(fields: map<string, Json>, e: Json, paths: set<seq<string>>, root: Json): Json
    decreases e, 2
  {
    Object(fields["properties" := Object(Restricted(e, paths, root))])
  }

  // ---------- adding one path to a restriction ----------

  lemma HeadsAdd(paths: set<seq<string>>, path: seq<string>)
    requires path != []
    ensures Heads(paths + {path}) == Heads(paths) + {path[0]}
    ensures forall key ::
        Tails(paths + {path}, key) == if key == path[0] then Tails(paths, key) + {path[1..]} else Tails(paths, key)
  {
    assert path in paths + {path};
    forall key ensures key in Heads(paths + {path}) <==> key in Heads(paths) + {path[0]} {
      if key in Heads(paths) {
        var p :| p in paths && p != [] && p[0] == key;
        assert p in paths + {path};
      }
    }
    forall key
      ensures Tails(paths + {path}, key) == if key == path[0] then Tails(paths, key) + {path[1..]}
          else Tails(paths, key)
    {
      var l := Tails(paths + {path}, key);
      var r := if key == path[0] then Tails(paths, key) + {path[1..]} else Tails(paths, key);
      forall tail ensures tail in l <==> tail in r {
        if tail in Tails(paths, key) {
          var p :| p in paths && p != [] && p[0] == key && p[1..] == tail;
          assert p in paths + {path};
        }
      }
    }
  }

  lemma TailsPrefixFree(paths: set<seq<string>>, key: string)
    requires PrefixFree(paths)
    ensures PrefixFree(Tails(paths, key))
  {
    forall p, q | p in Tails(paths, key) && q in Tails(paths, key) && p <= q ensures p == q {
      var p' :| p' in paths && p' != [] && p'[0] == key && p'[1..] == p;
      var q' :| q' in paths && q' != [] && q'[0] == key && q'[1..] == q;
      assert p' == [key] + p && q' == [key] + q;
      assert p' <= q';
    }
  }

  lemma NoPaths(e: Json, root: Json)
    ensures Restricted(e, {}, root) == map[]
  {
    assert Heads({}) == {};
  }

  /** Restricting to one more path changes the property that path goes through, and no other. */
  lemma RestrictedAdd(e: Json, paths: set<seq<string>>, path: seq<string>, root: Json)
    requires path != [] && HasProperty(e, path[0])
    ensures Restricted(e, paths + {path}, root) ==
            Restricted(e, paths, root)[path[0] := Kept(e, path[0], paths + {path}, root)]
  {
    HeadsAdd(paths, path);
    forall key | key in Heads(paths) && HasProperty(e, key) && key != path[0]
      ensures Kept(e, key, paths + {path}, root) == Kept(e, key, paths, root)
    {
      assert [key] in paths + {path} <==> [key] in paths;
      assert Tails(paths + {path}, key) == Tails(paths, key);
    }
  }

  lemma NodeAdd(fields: map<string, Json>, e: Json, paths: set<seq<string>>, path: seq<string>, root: Json)
    requires path != [] && HasProperty(e, path[0])
    ensures var custom := Node(fields, e, paths, root);
      && HasProperties(custom) && Properties(custom) == Restricted(e, paths, root)
      && Node(fields, e, paths + {path}, root) == WithProperty(custom, path[0], Kept(e, path[0], paths + {path}, root))
  {
    RestrictedAdd(e, paths, path, root);
    var l, r := Object(Restricted(e, paths, root)), Object(Restricted(e, paths + {path}, root));
    assert fields["properties" := l]["properties" := r] == fields["properties" := r];
  }

  /** The cursor step keeps the shape: a restriction with one more path inserted is the restriction to one more path. */
  lemma {:induction false} InsertRestricted(fields: map<string, Json>, e: Json, paths: set<seq<string>>,
      path: seq<string>, root: Json)
    requires path != [] && AllResolve(e, paths, root) && Resolves(e, path, root)
    requires path !in paths && PrefixFree(paths + {path})
    ensures Insert(Node(fields, e, paths, root), e, path, root) == Ok(Node(fields, e, paths + {path}, root))
    decreases |path|
  {
    var custom := Node(fields, e, paths, root);
    NodeAdd(fields, e, paths, path, root);
    if |path| == 1 {
      InsertLeaf(custom, e, paths, path, root);
    } else {
      InsertBelow(custom, e, paths, path, root);
    }
  }

  lemma InsertLeaf(custom: Json, e: Json, paths: set<seq<string>>, path: seq<string>, root: Json)
    requires |path| == 1 && AllResolve(e, paths, root) && Resolves(e, path, root)
    requires path !in paths && PrefixFree(paths + {path})
    requires HasProperties(custom) && Properties(custom) == Restricted(e, paths, root)
    ensures Insert(custom, e, path, root) == Ok(WithProperty(custom, path[0], Kept(e, path[0], paths + {path}, root)))
  {
    assert path == [path[0]];
    HeadsResolve(e, paths, root);
    LeafIsNew(paths, path);
  }

  lemma HeadsResolve(e: Json, paths: set<seq<string>>, root: Json)
    requires AllResolve(e, paths, root)
    ensures Restricted(e, paths, root).Keys == Heads(paths)
  {
    forall key | key in Heads(paths) ensures HasProperty(e, key) {
      var p :| p in paths && p != [] && p[0] == key;
      assert Resolves(e, p, root);
    }
  }

  lemma LeafIsNew(paths: set<seq<string>>, path: seq<string>)
    requires |path| == 1 && path !in paths && PrefixFree(paths + {path})
    ensures path[0] !in Heads(paths)
  {
    assert path == [path[0]] && path in paths + {path};
    forall q | q in paths && q != [] ensures q[0] != path[0] {
      assert q in paths + {path};
      assert !(path <= q);
    }
  }

  /** What the rest of a path and the rests of the other paths have to meet one level down. */
  lemma TailsReady(e: Json, paths: set<seq<string>>, path: seq<string>, root: Json)
    requires |path| > 1 && AllResolve(e, paths, root) && Resolves(e, path, root)
    requires path !in paths && PrefixFree(paths + {path})
    ensures var (key, tails) := (path[0], Tails(paths, path[0]));
      && [key] !in paths && [key] !in paths + {path}
      && Tails(paths + {path}, key) == tails + {path[1..]}
      && AllResolve(Properties(e)[key], tails, root)
      && path[1..] !in tails && PrefixFree(tails + {path[1..]})
  {
    NotALeaf(paths, path);
    HeadsAdd(paths, path);
    TailsResolve(e, paths, root, path[0]);
    TailsPrefixFree(paths + {path}, path[0]);
    TailNotThere(paths, path);
  }

  /** The interior node on the way, there already or just opened, is the restriction to the other paths. */
  lemma Below(e: Json, paths: set<seq<string>>, key: string, root: Json)
    requires AllResolve(e, paths, root) && HasProperty(e, key) && Properties(e)[key].Object? && [key] !in paths
    ensures var (child, node) := (Properties(e)[key],
        Node(Opened(Properties(e)[key]).fields, Properties(e)[key], Tails(paths, key), root));
      && Restricted(e, paths, root).Keys == Heads(paths)
      && (key in Heads(paths) ==> Restricted(e, paths, root)[key] == node)
      && (key !in Heads(paths) ==> Opened(child) == node)
  {
    HeadsResolve(e, paths, root);
    if key !in Heads(paths) {
      NoTails(paths, key);
      NoPaths(Properties(e)[key], root);
    }
  }

  lemma {:induction false} InsertBelow(custom: Json, e: Json, paths: set<seq<string>>, path: seq<string>, root: Json)
    requires |path| > 1 && AllResolve(e, paths, root) && Resolves(e, path, root)
    requires path !in paths && PrefixFree(paths + {path})
    requires HasProperties(custom) && Properties(custom) == Restricted(e, paths, root)
    ensures Insert(custom, e, path, root) == Ok(WithProperty(custom, path[0], Kept(e, path[0], paths + {path}, root)))
    decreases |path|, 0
  {
    var key, child := path[0], Properties(e)[path[0]];
    TailsReady(e, paths, path, root);
    Below(e, paths, key, root);
    InsertRestricted(Opened(child).fields, child, Tails(paths, key), path[1..], root);
  }

  lemma TailsResolve(e: Json, paths: set<seq<string>>, root: Json, key: string)
    requires AllResolve(e, paths, root) && [key] !in paths && HasProperty(e, key)
    ensures AllResolve(Properties(e)[key], Tails(paths, key), root)
  {
    forall tail | tail in Tails(paths, key) ensures Resolves(Properties(e)[key], tail, root) {
      var path :| path in paths && path != [] && path[0] == key && path[1..] == tail;
      assert Resolves(e, path, root);
      assert |path| == 1 ==> path == [key];
    }
  }

  lemma NotALeaf(paths: set<seq<string>>, path: seq<string>)
    requires |path| > 1 && PrefixFree(paths + {path})
    ensures [path[0]] !in paths && [path[0]] !in paths + {path}
  {
    assert [path[0]] <= path && path in paths + {path};
  }

  lemma TailNotThere(paths: set<seq<string>>, path: seq<string>)
    requires path != [] && path !in paths
    ensures path[1..] !in Tails(paths, path[0])
  {
    assert path == [path[0]] + path[1..];
    forall p | p in paths && p != [] && p[0] == path[0] ensures p[1..] != path[1..] {
      assert p == [p[0]] + p[1..];
    }
  }

  lemma NoTails(paths: set<seq<string>>, key: string)
    requires key !in Heads(paths)
    ensures Tails(paths, key) == {}
  {
    assert forall p | p in paths && p != [] :: p[0] in Heads(paths);
  }

  // ---------- the whole list ----------

  ghost predicate Distinct(paths: seq<seq<string>>) {
    forall i, j | 0 <= i < j < |paths| :: paths[i] != paths[j]
  }

  ghost function AsSet(paths: seq<seq<string>>): set<seq<string>> {
    set path | path in paths
  }

  lemma {:induction false} InsertAllRestricted(fields: map<string, Json>, community: Json, paths: seq<seq<string>>)
    requires Distinct(paths) && PrefixFree(AsSet(paths)) && AllResolve(community, AsSet(paths), community)
    requires NonEmpty(paths)
    ensures InsertAll(Object(fields["properties" := Object(map[])]), community, paths) ==
            Ok(Node(fields, community, AsSet(paths), community))
  {
    if paths == [] {
      NoPaths(community, community);
      assert AsSet(paths) == {};
    } else {
      var last := |paths| - 1;
      var before := paths[..last];
      assert AsSet(paths) == AsSet(before) + {paths[last]};
      InsertAllRestricted(fields, community, before);
      InsertRestricted(fields, community, AsSet(before), paths[last], community);
    }
  }

  /** For distinct, prefix-free paths that resolve through inline properties, the result holds the copied global
      parameters and exactly the restriction of the community schema to the listed paths. */
  lemma ReuseIsRestriction(community: Json, globals: seq<string>, paths: seq<seq<string>>)
    requires Distinct(paths) && PrefixFree(AsSet(paths)) && AllResolve(community, AsSet(paths), community)
    requires NonEmpty(paths)
    requires CopyGlobals(community, globals).Ok?
    ensures Reuse(community, globals, paths) ==
            Ok(Node(CopyGlobals(community, globals).value, community, AsSet(paths), community))
  {
    InsertAllRestricted(CopyGlobals(community, globals).value, community, paths);
  }

  /** The order of the list does not matter. */
  lemma ReuseIgnoresOrder(community: Json, globals: seq<string>, paths: seq<seq<string>>, permuted: seq<seq<string>>)
    requires Distinct(paths) && PrefixFree(AsSet(paths)) && AllResolve(community, AsSet(paths), community)
    requires NonEmpty(paths)
    requires Distinct(permuted) && AsSet(permuted) == AsSet(paths)
    ensures NonEmpty(permuted) && Reuse(community, globals, permuted) == Reuse(community, globals, paths)
  {
    forall i | 0 <= i < |permuted| ensures permuted[i] != [] {
      assert permuted[i] in AsSet(permuted);
      assert Resolves(community, permuted[i], community);
    }
    if CopyGlobals(community, globals).Ok? {
      ReuseIsRestriction(community, globals, paths);
      ReuseIsRestriction(community, globals, permuted);
    }
  }

  /** What inlining yields: no key of the leaf but `$ref` is lost or changed, the definition supplies the rest, and a
      `$ref` remains only if the definition itself has one. */
  lemma InlinedLeaf(copied: Json, root: Json)
    requires copied.Object? && "$ref" in copied.fields && "properties" !in copied.fields && InlineRef(copied, root).Ok?
    ensures var leaf := InlineRef(copied, root).value;
      var definition := At(root, RefPath(copied.fields["$ref"].s)).value;
      && leaf.Object? && definition.Object?
      && leaf.fields.Keys == (copied.fields.Keys - {"$ref"}) + definition.fields.Keys
      && (forall key | key in copied.fields && key != "$ref" :: leaf.fields[key] == copied.fields[key])
      && (forall key | key in definition.fields && (key == "$ref" || key !in copied.fields) ::
          leaf.fields[key] == definition.fields[key])
  {
  }

  /** A leaf can be kept unless it is no object, or a bare reference that does not lead to one. */
  lemma LeafOkIff(copied: Json, root: Json)
    ensures InlineRef(copied, root).Ok? <==>
      && copied.Object?
      && ("$ref" in copied.fields && "properties" !in copied.fields ==>
            && copied.fields["$ref"].Text?
            && At(root, RefPath(copied.fields["$ref"].s)).Ok?
            && At(root, RefPath(copied.fields["$ref"].s)).value.Object?)
  {
  }

  // ---------- the loops ----------

  lemma WithPropertyTwice(e: Json, key: string, a: Json, b: Json)
    requires HasProperties(e)
    ensures WithProperty(WithProperty(e, key, a), key, b) == WithProperty(e, key, b)
  {
    assert Properties(e)[key := a][key := b] == Properties(e)[key := b];
    var x, y := Object(Properties(e)[key := a]), Object(Properties(e)[key := b]);
    assert e.fields["properties" := x]["properties" := y] == e.fields["properties" := y];
  }

  /** Writing a property of the element at loc, then writing below it. */
  lemma PutThenBelow(document: Json, loc: seq<string>, e: Json, key: string, a: Json)
    requires At(document, loc) == Ok(e) && HasProperties(e)
    ensures var extended := Put(document, loc, WithProperty(e, key, a));
      && At(extended, loc) == Ok(WithProperty(e, key, a))
      && At(extended, loc + ["properties", key]) == Ok(a)
      && forall b :: Put(extended, loc + ["properties", key], b) == Put(document, loc, WithProperty(e, key, b))
  {
    var extended := Put(document, loc, WithProperty(e, key, a));
    AtPut(document, loc, WithProperty(e, key, a));
    AtProperty(extended, loc, key);
    forall b ensures Put(extended, loc + ["properties", key], b) == Put(document, loc, WithProperty(e, key, b)) {
      WithPropertyTwice(e, key, a, b);
      PutPut(document, loc, WithProperty(e, key, a), WithProperty(e, key, b));
    }
  }

  /** The inner loop of reuse_existing_params: a cursor walks down the customised and the community schema together. */
  method AddPath(start: Json, community: Json, path: seq<string>) returns (r: Result<Json>)
    requires path != []
    ensures r == Insert(start, community, path, community)
  {
    var customized := start;
    var loc: seq<string> := [];
    var current := community;
    for i := 0 to |path|
      invariant At(customized, loc).Ok?
      invariant i < |path| ==>
        Insert(start, community, path, community) ==
          PutBack(customized, loc, Insert(At(customized, loc).value, current, path[i..], community))
      invariant i == |path| ==> Insert(start, community, path, community) == Ok(customized)
    {
      var key := path[i];
      var element := At(customized, loc).value;
      assert path[i..][0] == key && path[i..][1..] == path[i + 1..];
      var child := Property(current, key);
      if child.Raised? {
        return Raised(child.error);
      }
      AtPut(customized, loc, element);
      if HasProperty(element, key) {
        AtProperty(customized, loc, key);
      } else if !HasProperties(element) {
        return Raised(KeyError);
      } else {
        var copied := if i + 1 == |path| then InlineRef(child.value, community) else OpenedCopy(child.value);
        if copied.Raised? {
          return Raised(copied.error);
        }
        PutThenBelow(customized, loc, element, key, copied.value);
        customized := Put(customized, loc, WithProperty(element, key, copied.value));
      }
      loc := loc + ["properties", key];
      current := child.value;
    }
    r := Ok(customized);
  }

  /** reuse_existing_params */
  method ReuseExistingParams(community: Json, globals: seq<string>, paths: seq<seq<string>>) returns (r: Result<Json>)
    requires NonEmpty(paths)
    ensures r == Reuse(community, globals, paths)
  {
    var fields: map<string, Json> := map[];
    for i := 0 to |globals|
      invariant CopyGlobals(community, globals[..i]) == Ok(fields)
      invariant CopyGlobals(community, globals[..i]).Raised? ==> CopyGlobals(community, globals).Raised?
    {
      assert globals[..i + 1][..i] == globals[..i];
      var value := Member(community, globals[i]);
      if value.Raised? {
        GlobalMissing(community, globals, i + 1);
        return Raised(value.error);
      }
      fields := fields[globals[i] := value.value];
    }
    assert globals[..|globals|] == globals;
    var customized := Object(fields["properties" := Object(map[])]);
    ghost var start := customized;
    for i := 0 to |paths|
      invariant InsertAll(start, community, paths[..i]) == Ok(customized)
    {
      assert paths[..i + 1][..i] == paths[..i];
      var added := AddPath(customized, community, paths[i]);
      if added.Raised? {
        PathFails(start, community, paths, i + 1);
        return added;
      }
      customized := added.value;
    }
    assert paths[..|paths|] == paths;
    r := Ok(customized);
  }

  lemma {:induction false} GlobalMissing(community: Json, names: seq<string>, i: nat)
    requires i <= |names| && CopyGlobals(community, names[..i]).Raised?
    ensures CopyGlobals(community, names) == CopyGlobals(community, names[..i])
    decreases |names|
  {
    if i == |names| {
      assert names[..i] == names;
    } else {
      var before := names[..|names| - 1];
      assert before[..i] == names[..i];
      GlobalMissing(community, before, i);
    }
  }

  lemma {:induction false} PathFails(start: Json, community: Json, paths: seq<seq<string>>, i: nat)
    requires i <= |paths| && NonEmpty(paths)
    requires InsertAll(start, community, paths[..i]).Raised?
    ensures InsertAll(start, community, paths) == InsertAll(start, community, paths[..i])
    decreases |paths|
  {
    if i == |paths| {
      assert paths[..i] == paths;
    } else {
      var before := paths[..|paths| - 1];
      assert before[..i] == paths[..i];
      PathFails(start, community, before, i);
    }
  }
}
