// update_node: the walk over a values tree that moves image tags to the released ones.

module TagUpdate {
  import opened Json
  import opened ImageTags
  import opened Options

  // ---------- the rules ----------

  /** image_versions[j], if j is a known key; unhashable values raise. */
  function Lookup(j: Json, versions: map<string, string>): Result<Option<string>> {
    if j.Array? || j.Object? then Raised(WrongType)
    else if j.Text? && j.s in versions then Ok(Some(versions[j.s]))
    else Ok(None)
  }

  /** s.rstrip('/') */
  function TrimRight(s: string): string {
    if s != [] && s[|s| - 1] == '/' then TrimRight(s[..|s| - 1]) else s
  }

  /** s.lstrip('/') */
  function TrimLeft(s: string): string {
    if s != [] && s[0] == '/' then TrimLeft(s[1..]) else s
  }

  /** The tag the three rules for dictionaries leave behind; a later rule overrides an earlier one. */
  function Chosen(fields: map<string, Json>, versions: map<string, string>): Result<Option<string>> {
    if "tag" !in fields then Ok(None)
    else if "repository" !in fields then
      if "registry" in fields then Lookup(fields["registry"], versions) else Ok(None)
    else if "registry" in fields && !(fields["registry"].Text? && fields["repository"].Text?) then Raised(WrongType)
    else
      var own :- Lookup(fields["repository"], versions);
      if own.Some? || "registry" !in fields then Ok(own)
      else
        var full := TrimRight(fields["registry"].s) + "/" + TrimLeft(fields["repository"].s);
        Lookup(Text(full), versions)
  }

  function UpdateText(s: string, versions: map<string, string>): string {
    var image := ParseImage(s);
    if image.Some? && image.value.name in versions && versions[image.value.name] != image.value.tag then
      Print(Image(image.value.name, versions[image.value.name]))
    else s
  }

  // ---------- the walk ----------

  function Update(node: Json, versions: map<string, string>): Result<Json>
    decreases node, 2
  {
    match node
    case Text(s) => Ok(Text(UpdateText(s, versions)))
    case Array(items) =>
      var updated :- UpdateItems(items, |items|, versions);
      Ok(Array(updated))
    case Object(fields) =>
      var chosen :- Chosen(fields, versions);
      UpdateEach(node, chosen, versions)
    case _ => Ok(node)
  }

  function UpdateItems(items: seq<Json>, n: nat, versions: map<string, string>): Result<seq<Json>>
    requires n <= |items|
    decreases items, n
  {
    if n == 0 then Ok([])
    else
      var before :- UpdateItems(items, n - 1, versions);
      var last :- Update(items[n - 1], versions);
      Ok(before + [last])
  }

  function UpdateEach(node: Json, chosen: Option<string>, versions: map<string, string>): Result<Json>
    requires node.Object?
    decreases node, 1
  {
    if exists k :: k in node.fields && UpdateField(node, k, chosen, versions).Raised? then Raised(WrongType)
    else Ok(Object(map k | k in node.fields :: UpdateField(node, k, chosen, versions).value))
  }

  /** The field after the rules set the tag and the walk went through it. */
  function UpdateField(node: Json, k: string, chosen: Option<string>, versions: map<string, string>): Result<Json>
    requires Has(node, k)
    decreases node, 0
  {
    if k == "tag" && chosen.Some? then Ok(Text(UpdateText(chosen.value, versions)))
    else Update(node.fields[k], versions)
  }

  /** update_node: dictionaries are rewritten field by field, lists and strings are rebuilt. */
  method UpdateNode(node: Json, versions: map<string, string>) returns (r: Result<Json>)
    ensures r == Update(node, versions)
    decreases node
  {
    match node
    case Text(s) =>
      r := Ok(node);
      var image := ParseImage(s);
      if image.Some? && image.value.name in versions {
        var tag := versions[image.value.name];
        if tag != image.value.tag {
          r := Ok(Text(image.value.name + ":" + tag));
        }
      }
    case Array(items) =>
      var updated := [];
      for i := 0 to |items|
        invariant UpdateItems(items, i, versions) == Ok(updated)
      {
        var item := UpdateNode(items[i], versions);
        if item.Raised? {
          ItemFails(items, i + 1, |items|, versions);
          return item;
        }
        updated := updated + [item.value];
      }
      r := Ok(Array(updated));
    case Object(fields) =>
      r := UpdateDict(node, versions);
    case _ =>
      r := Ok(node);
  }

  lemma {:induction false} ItemFails(items: seq<Json>, i: nat, n: nat, versions: map<string, string>)
    requires i <= n <= |items| && UpdateItems(items, i, versions).Raised?
    ensures UpdateItems(items, n, versions) == UpdateItems(items, i, versions)
  {
    if i < n { ItemFails(items, i, n - 1, versions); }
  }

  /** A dictionary: first the rules for its tag, then its fields. */
  method UpdateDict(node: Json, versions: map<string, string>) returns (r: Result<Json>)
    requires node.Object?
    ensures r == Update(node, versions)
    decreases node, 1
  {
    var tagged := ApplyRules(node.fields, versions);
    if tagged.Raised? {
      return Raised(tagged.error);
    }
    r := UpdateFields(node, tagged.value, Chosen(node.fields, versions).value, versions);
  }

  function Tagged(fields: map<string, Json>, chosen: Option<string>): map<string, Json> {
    if chosen.Some? then fields["tag" := Text(chosen.value)] else fields
  }

  method SetTag(fields: map<string, Json>, tag: string) returns (r: map<string, Json>)
    requires "tag" in fields
    ensures r == fields["tag" := Text(tag)]
  {
    r := fields;
    if fields["tag"] != Text(tag) {
      r := fields["tag" := Text(tag)];
    }
  }

  /** The three rules, one after the other. */
  method ApplyRules(original: map<string, Json>, versions: map<string, string>) returns (r: Result<map<string, Json>>)
    ensures r == if Chosen(original, versions).Ok? then Ok(Tagged(original, Chosen(original, versions).value))
        else Raised(WrongType)
  {
    var fields := original;
    if "registry" in fields && "tag" in fields && "repository" !in fields {
      var tag := Lookup(fields["registry"], versions);
      if tag.Raised? {
        return Raised(WrongType);
      }
      if tag.value.Some? {
        fields := SetTag(fields, tag.value.value);
      }
    }
    if "registry" in fields && "repository" in fields && "tag" in fields {
      if !fields["registry"].Text? || !fields["repository"].Text? {
        return Raised(WrongType);
      }
      var full := TrimRight(fields["registry"].s) + "/" + TrimLeft(fields["repository"].s);
      if full in versions {
        fields := SetTag(fields, versions[full]);
      }
    }
    if "repository" in fields && "tag" in fields {
      var tag := Lookup(fields["repository"], versions);
      if tag.Raised? {
        return Raised(WrongType);
      }
      if tag.value.Some? {
        assert fields["tag" := Text(tag.value.value)] == original["tag" := Text(tag.value.value)];
        fields := SetTag(fields, tag.value.value);
      }
    }
    r := Ok(fields);
  }

  /** The loop over the fields, in any order, after the tag is set. */
  method UpdateFields(node: Json, tagged: map<string, Json>, ghost chosen: Option<string>,
                      versions: map<string, string>)
    returns (r: Result<Json>)
    requires node.Object? && tagged == Tagged(node.fields, chosen) && (chosen.Some? ==> "tag" in node.fields)
    ensures r == UpdateEach(node, chosen, versions)
    decreases node, 0
  {
    var fields := tagged;
    var todo := fields.Keys;
    while todo != {}
      invariant todo <= fields.Keys == node.fields.Keys
      invariant forall k | k in fields && k in todo :: fields[k] == tagged[k]
      invariant forall k | k in fields && k !in todo :: UpdateField(node, k, chosen, versions) == Ok(fields[k])
    {
      var k :| k in todo;
      var value;
      if fields[k].Text? {
        value := Ok(Text(UpdateText(fields[k].s, versions)));
      } else {
        value := UpdateNode(fields[k], versions);
      }
      assert value == UpdateField(node, k, chosen, versions);
      if value.Raised? {
        return Raised(WrongType);
      }
      fields := fields[k := value.value];
      todo := todo - {k};
    }
    assert (map k | k in node.fields :: UpdateField(node, k, chosen, versions).value) == fields;
    r := Ok(Object(fields));
  }
}
