// What update_node keeps, and exactly when a second run would change nothing.

module TagUpdateLaws {
  import opened Json
  import opened ImageTags
  import opened Options
  import opened TagUpdate

  // ---------- strings ----------

  lemma PrintIsLine(image: Image)
    requires IsTag(image.tag)
    ensures Line(Print(image)) == Print(image)
  {
    PrintShape(image);
    assert Print(image)[|Print(image)| - 1] == image.tag[|image.tag| - 1];
  }

  /** A known image keeps its name and gets the released tag; every other string stays. */
  lemma UpdatedText(s: string, versions: map<string, string>)
    requires WellFormed(versions)
    ensures var (image, u) := (ParseImage(s), UpdateText(s, versions));
      if image.Some? && image.value.name in versions
      then ParseImage(u) == Some(Image(image.value.name, versions[image.value.name])) &&
          (image.value.tag == versions[image.value.name] ==> u == s)
      else u == s
    ensures UpdateText(UpdateText(s, versions), versions) == UpdateText(s, versions)
  {
    var image := ParseImage(s);
    if image.Some? && image.value.name in versions && versions[image.value.name] != image.value.tag {
      var released := Image(image.value.name, versions[image.value.name]);
      PrintIsLine(released);
      ParseImageIff(s, image.value);
      ParseImageIff(Print(released), released);
    }
  }

  /** A bare tag is not an image. */
  lemma TagStands(tag: string, versions: map<string, string>)
    requires IsTag(tag)
    ensures UpdateText(tag, versions) == tag
  {
    var found := ParseRelease(Line(tag));
    if found.Some? {
      PrintShape(found.value);
      assert Print(found.value)[|found.value.name|] == ':';
      assert ':' !in Line(tag);
    }
  }

  lemma ChosenIsTag(fields: map<string, Json>, versions: map<string, string>)
    requires WellFormed(versions) && Chosen(fields, versions).Ok? && Chosen(fields, versions).value.Some?
    ensures var t := Chosen(fields, versions).value.value; IsTag(t) && UpdateText(t, versions) == t && "tag" in fields
  {
    TagStands(Chosen(fields, versions).value.value, versions);
  }

  // ---------- lists ----------

  lemma {:induction false} ItemsAt(items: seq<Json>, n: nat, versions: map<string, string>)
    requires n <= |items| && UpdateItems(items, n, versions).Ok?
    ensures var r := UpdateItems(items, n, versions).value;
      |r| == n && forall i | 0 <= i < n :: Update(items[i], versions) == Ok(r[i])
  {
    if n > 0 { ItemsAt(items, n - 1, versions); }
  }

  lemma {:induction false} ItemsFixed(items: seq<Json>, n: nat, versions: map<string, string>)
    requires n <= |items|
    ensures UpdateItems(items, n, versions) == Ok(items[..n]) <==>
        forall i | 0 <= i < n :: Update(items[i], versions) == Ok(items[i])
  {
    if n > 0 {
      ItemsFixed(items, n - 1, versions);
      assert items[..n] == items[..n - 1] + [items[n - 1]];
      if UpdateItems(items, n, versions) == Ok(items[..n]) {
        ItemsAt(items, n, versions);
      }
    }
  }

  // ---------- what is kept ----------

  /** Same shape and leaves, up to strings of known images, which keep their name, and tag fields of known images. */
  predicate Retagged(a: Json, b: Json, versions: map<string, string>) {
    match a
    case Text(s) =>
      var image := ParseImage(s);
      if image.Some? && image.value.name in versions
      then b.Text? && ParseImage(b.s) == Some(Image(image.value.name, versions[image.value.name]))
      else b == a
    case Array(items) =>
      b.Array? && |b.items| == |items| && forall i | 0 <= i < |items| :: Retagged(items[i], b.items[i], versions)
    case Object(fields) =>
      var chosen := Chosen(fields, versions);
      && b.Object? && b.fields.Keys == fields.Keys && chosen.Ok?
      && forall k | k in fields && k in b.fields ::
           if k == "tag" && chosen.value.Some? then b.fields[k] == Text(chosen.value.value)
           else Retagged(fields[k], b.fields[k], versions)
    case _ => b == a
  }

  lemma {:induction false} UpdateRetags(a: Json, versions: map<string, string>)
    requires WellFormed(versions) && Update(a, versions).Ok?
    ensures Retagged(a, Update(a, versions).value, versions)
  {
    match a
    case Text(s) =>
      UpdatedText(s, versions);
    case Array(items) =>
      ItemsAt(items, |items|, versions);
      forall i | 0 <= i < |items| ensures Retagged(items[i], Update(items[i], versions).value, versions) {
        UpdateRetags(items[i], versions);
      }
    case Object(fields) =>
      var chosen := Chosen(fields, versions).value;
      var b := Update(a, versions).value;
      FieldsUpdated(a, versions);
      forall k | k in fields
        ensures if k == "tag" && chosen.Some? then b.fields[k] == Text(chosen.value)
                else Retagged(fields[k], b.fields[k], versions)
      {
        if k == "tag" && chosen.Some? {
          ChosenIsTag(fields, versions);
        } else {
          UpdateRetags(fields[k], versions);
        }
      }
    case _ =>
  }

  lemma FieldsUpdated(a: Json, versions: map<string, string>)
    requires a.Object? && Update(a, versions).Ok?
    ensures var (chosen, b) := (Chosen(a.fields, versions), Update(a, versions).value);
      && chosen.Ok? && b.Object? && b.fields.Keys == a.fields.Keys
      && forall k | k in a.fields :: UpdateField(a, k, chosen.value, versions) == Ok(b.fields[k])
  {
  }

  // ---------- when the walk fails ----------

  /** The names next to a tag can be looked up: lists and dictionaries cannot, and two parts have to be strings. */
  predicate ImageReadable(fields: map<string, Json>) {
    if "tag" !in fields then true
    else if "repository" in fields && "registry" in fields then fields["repository"].Text? && fields["registry"].Text?
    else
      && ("repository" in fields ==> !fields["repository"].Array? && !fields["repository"].Object?)
      && ("registry" in fields ==> !fields["registry"].Array? && !fields["registry"].Object?)
  }

  /** That holds for every dictionary the walk enters; a tag that is replaced is not entered. */
  predicate Readable(node: Json, versions: map<string, string>) {
    match node
    case Array(items) => forall i | 0 <= i < |items| :: Readable(items[i], versions)
    case Object(fields) =>
      && ImageReadable(fields)
      && forall k | k in fields ::
           (k == "tag" && Chosen(fields, versions).Ok? &&
               Chosen(fields, versions).value.Some?) || Readable(fields[k], versions)
    case _ => true
  }

  lemma {:induction false} ItemsOk(items: seq<Json>, n: nat, versions: map<string, string>)
    requires n <= |items|
    ensures UpdateItems(items, n, versions).Ok? <==> forall i | 0 <= i < n :: Update(items[i], versions).Ok?
  {
    if n > 0 { ItemsOk(items, n - 1, versions); }
  }

  /** The update fails exactly on trees with a name that cannot be looked up. */
  lemma {:induction false} UpdateOkIff(node: Json, versions: map<string, string>)
    ensures Update(node, versions).Ok? <==> Readable(node, versions)
  {
    match node
    case Array(items) =>
      ItemsOk(items, |items|, versions);
      forall i | 0 <= i < |items| ensures Update(items[i], versions).Ok? <==> Readable(items[i], versions) {
        UpdateOkIff(items[i], versions);
      }
    case Object(fields) =>
      assert Chosen(fields, versions).Ok? <==> ImageReadable(fields);
      if ImageReadable(fields) {
        var chosen := Chosen(fields, versions).value;
        assert Update(node, versions) == UpdateEach(node, chosen, versions);
        forall k | k in fields
          ensures UpdateField(node, k, chosen, versions).Ok? <==>
              (k == "tag" && chosen.Some?) || Readable(fields[k], versions)
        {
          UpdateOkIff(fields[k], versions);
        }
      }
    case _ =>
  }

  // ---------- which tag a dictionary gets ----------

  predicate Slashes(z: string) {
    forall i | 0 <= i < |z| :: z[i] == '/'
  }

  /** rstrip takes off slashes at the end, all of them and nothing else. */
  lemma {:induction false} TrimRightIs(s: string)
    ensures TrimRight(s) <= s && Slashes(s[|TrimRight(s)|..])
    ensures TrimRight(s) != "" ==> TrimRight(s)[|TrimRight(s)| - 1] != '/'
  {
    if s != [] && s[|s| - 1] == '/' {
      var init := s[..|s| - 1];
      TrimRightIs(init);
      assert forall i | |TrimRight(init)| <= i < |init| :: s[i] == init[|TrimRight(init)|..][i - |TrimRight(init)|];
    }
  }

  /** lstrip does the same at the beginning. */
  lemma {:induction false} TrimLeftIs(s: string)
    ensures var cut := |s| - |TrimLeft(s)|; cut >= 0 && TrimLeft(s) == s[cut..] && Slashes(s[..cut])
    ensures TrimLeft(s) != "" ==> TrimLeft(s)[0] != '/'
  {
    if s != [] && s[0] == '/' {
      TrimLeftIs(s[1..]);
      var cut := |s| - |TrimLeft(s)|;
      assert s[..cut] == [s[0]] + s[1..][..cut - 1];
    }
  }

  lemma {:induction false} TrimRightOf(r: string, z: string)
    requires Slashes(z) && (r != "" ==> r[|r| - 1] != '/')
    ensures TrimRight(r + z) == r
  {
    if z == "" {
      assert r + z == r;
    } else {
      TrimRightOf(r, z[..|z| - 1]);
      assert (r + z)[..|r + z| - 1] == r + z[..|z| - 1];
    }
  }

  lemma {:induction false} TrimLeftOf(z: string, p: string)
    requires Slashes(z) && (p != "" ==> p[0] != '/')
    ensures TrimLeft(z + p) == p
  {
    if z == "" {
      assert z + p == p;
    } else {
      TrimLeftOf(z[1..], p);
      assert (z + p)[1..] == z[1..] + p;
    }
  }

  /** The tag field after the walk is the chosen tag, if there is one, and else what the walk makes of the old one. */
  lemma TagGets(node: Json, versions: map<string, string>)
    requires WellFormed(versions) && Has(node, "tag") && Update(node, versions).Ok?
    ensures Has(Update(node, versions).value, "tag") && Chosen(node.fields, versions).Ok?
    ensures var (chosen, tag) := (Chosen(node.fields, versions).value, Update(node, versions).value.fields["tag"]);
      if chosen.Some? then tag == Text(chosen.value) else Update(node.fields["tag"], versions) == Ok(tag)
  {
    FieldsUpdated(node, versions);
    var chosen := Chosen(node.fields, versions).value;
    if chosen.Some? { ChosenIsTag(node.fields, versions); }
    assert UpdateField(node, "tag", chosen, versions) == Ok(Update(node, versions).value.fields["tag"]);
  }

  /** A listed registry is the image where there is no repository. */
  lemma RegistryRule(node: Json, registry: string, versions: map<string, string>)
    requires WellFormed(versions) && Has(node, "tag") && !Has(node, "repository") && Update(node, versions).Ok?
    requires Has(node, "registry") && node.fields["registry"] == Text(registry) && registry in versions
    ensures Has(Update(node, versions).value, "tag")
    ensures Update(node, versions).value.fields["tag"] == Text(versions[registry])
  {
    TagGets(node, versions);
  }

  /** A listed repository is the image, whatever the registry. */
  lemma RepositoryRule(node: Json, repository: string, versions: map<string, string>)
    requires WellFormed(versions) && Has(node, "tag") && Update(node, versions).Ok?
    requires Has(node, "repository") && node.fields["repository"] == Text(repository) && repository in versions
    ensures Has(Update(node, versions).value, "tag")
    ensures Update(node, versions).value.fields["tag"] == Text(versions[repository])
  {
    TagGets(node, versions);
  }

  /** Where the repository is not listed by itself, registry and repository with one slash between them are the image,
      however many slashes there are at the joint. */
  lemma FullImageRule(node: Json, r: string, right: string, left: string, p: string, versions: map<string, string>)
    requires WellFormed(versions) && Has(node, "tag") && Update(node, versions).Ok?
    requires Has(node, "registry") && node.fields["registry"] == Text(r + right)
    requires Has(node, "repository") && node.fields["repository"] == Text(left + p)
    requires Slashes(right) && Slashes(left) && (r != "" ==> r[|r| - 1] != '/') && (p != "" ==> p[0] != '/')
    requires left + p !in versions
    ensures Has(Update(node, versions).value, "tag")
    ensures var tag := Update(node, versions).value.fields["tag"];
      if r + "/" + p in versions then tag == Text(versions[r + "/" + p])
      else Update(node.fields["tag"], versions) == Ok(tag)
  {
    TrimRightOf(r, right);
    TrimLeftOf(left, p);
    TagGets(node, versions);
  }

  /** A dictionary without registry and repository keeps its tag, as far as the tag itself is no known image. */
  lemma NoImageRule(node: Json, versions: map<string, string>)
    requires WellFormed(versions) && Has(node, "tag") && Update(node, versions).Ok?
    requires !Has(node, "repository") && (Has(node, "registry") ==> node.fields["registry"].Text?)
    requires Has(node, "registry") ==> node.fields["registry"].s !in versions
    ensures Has(Update(node, versions).value, "tag")
    ensures Update(node.fields["tag"], versions) == Ok(Update(node, versions).value.fields["tag"])
  {
    TagGets(node, versions);
  }

  // ---------- a second run ----------

  /** The fields the rules look at, as the walk leaves them. */
  function ImageFields(fields: map<string, Json>, versions: map<string, string>): map<string, Json> {
    map k | k in fields && (k == "registry" || k == "repository" || k == "tag") ::
      if fields[k].Text? then Text(UpdateText(fields[k].s, versions)) else fields[k]
  }

  /** The rules would choose no other tag than the dictionary has after the walk. */
  predicate SameChoice(fields: map<string, Json>, versions: map<string, string>)
    requires Chosen(fields, versions).Ok?
  {
    var again := Chosen(ImageFields(fields, versions), versions);
    var chosen := Chosen(fields, versions).value;
    again.Ok? && again.value.Some? ==>
      if chosen.Some? then again.value == chosen else ImageFields(fields, versions)["tag"] == Text(again.value.value)
  }

  /** The tag field after one run. */
  function TagAfter(fields: map<string, Json>, versions: map<string, string>): Json
    requires "tag" in fields && Chosen(fields, versions).Ok?
  {
    var chosen := Chosen(fields, versions).value;
    if chosen.Some? then Text(chosen.value)
    else if fields["tag"].Text? then Text(UpdateText(fields["tag"].s, versions))
    else fields["tag"]
  }

  /** The release file has the image, with another tag. */
  predicate HasOther(image: string, tag: Json, versions: map<string, string>) {
    image in versions && tag != Text(versions[image])
  }

  /** Three lookups: neither the repository nor, if that is unknown, the full image, nor, where there is no repository,
      the registry is listed with another tag. */
  predicate NoOther(fields: map<string, Json>, tag: Json, versions: map<string, string>) {
    if "repository" !in fields then
      "registry" in fields && fields["registry"].Text? ==> !HasOther(fields["registry"].s, tag, versions)
    else if fields["repository"].Text? then
      && !HasOther(fields["repository"].s, tag, versions)
      && (fields["repository"].s !in versions && "registry" in fields && fields["registry"].Text? ==>
            !HasOther(TrimRight(fields["registry"].s) + "/" + TrimLeft(fields["repository"].s), tag, versions))
    else true
  }

  /** With the strings the walk makes of registry and repository, the release file lists no other tag than the one the
      dictionary has after the walk. */
  predicate TagStays(fields: map<string, Json>, versions: map<string, string>)
    requires Chosen(fields, versions).Ok?
  {
    "tag" in fields ==> NoOther(ImageFields(fields, versions), TagAfter(fields, versions), versions)
  }

  lemma NoOtherIff(fields: map<string, Json>, tag: Json, versions: map<string, string>)
    requires "tag" in fields && Chosen(fields, versions).Ok?
    ensures var chosen := Chosen(fields, versions).value;
      NoOther(fields, tag, versions) <==> (chosen.Some? ==> tag == Text(chosen.value))
  {
  }

  lemma StaysIff(fields: map<string, Json>, versions: map<string, string>)
    requires Chosen(fields, versions).Ok?
    ensures TagStays(fields, versions) <==> SameChoice(fields, versions)
  {
    var seen := ImageFields(fields, versions);
    ImageFieldsChosen(fields, versions);
    assert "tag" in seen <==> "tag" in fields;
    if "tag" in fields {
      NoOtherIff(seen, TagAfter(fields, versions), versions);
    }
  }

  /** That holds for every dictionary the walk enters. */
  predicate Steady(node: Json, versions: map<string, string>) {
    match node
    case Array(items) => forall i | 0 <= i < |items| :: Steady(items[i], versions)
    case Object(fields) =>
      var chosen := Chosen(fields, versions);
      && chosen.Ok? && TagStays(fields, versions)
      && forall k | k in fields :: (k == "tag" && chosen.value.Some?) || Steady(fields[k], versions)
    case _ => true
  }

  lemma KindKept(a: Json, versions: map<string, string>)
    requires Update(a, versions).Ok?
    ensures var b := Update(a, versions).value;
      if a.Text? then b == Text(UpdateText(a.s, versions))
      else if a.Array? then b.Array?
      else if a.Object? then b.Object?
      else b == a
  {
  }

  predicate Container(j: Json) {
    j.Array? || j.Object?
  }

  /** The rules cannot tell two dictionaries apart that agree in which fields they have and, up to containers, in what
      the registry and repository are. */
  predicate Alike(f: map<string, Json>, g: map<string, Json>, k: string) {
    && (k in f <==> k in g)
    && (k in f && k in g ==> f[k] == g[k] || (Container(f[k]) && Container(g[k])))
  }

  lemma ChosenAlike(f: map<string, Json>, g: map<string, Json>, versions: map<string, string>)
    requires Alike(f, g, "registry") && Alike(f, g, "repository") && ("tag" in f <==> "tag" in g)
    ensures Chosen(f, versions) == Chosen(g, versions)
  {
  }

  lemma ImageFieldsChosen(fields: map<string, Json>, versions: map<string, string>)
    requires Chosen(fields, versions).Ok?
    ensures Chosen(ImageFields(fields, versions), versions).Ok?
  {
    var seen := ImageFields(fields, versions);
    assert "tag" in seen <==> "tag" in fields;
    assert "registry" in seen <==> "registry" in fields;
    assert "repository" in seen <==> "repository" in fields;
    assert "registry" in fields ==> SameKind(fields["registry"], seen["registry"]);
    assert "repository" in fields ==> SameKind(fields["repository"], seen["repository"]);
  }

  predicate SameKind(a: Json, b: Json) {
    (a.Text? <==> b.Text?) && (Container(a) <==> Container(b))
  }

  lemma FieldAlike(node: Json, k: string, versions: map<string, string>)
    requires node.Object? && Update(node, versions).Ok? && Update(node, versions).value.Object? &&
        (k == "registry" || k == "repository")
    ensures Alike(Update(node, versions).value.fields, ImageFields(node.fields, versions), k)
  {
    FieldsUpdated(node, versions);
    if k in node.fields {
      assert UpdateField(node, k, Chosen(node.fields, versions).value, versions) ==
          Ok(Update(node, versions).value.fields[k]);
      KindKept(node.fields[k], versions);
    }
  }

  /** A second run sees the same images as ImageFields. */
  lemma ChosenAgain(node: Json, versions: map<string, string>)
    requires WellFormed(versions) && node.Object? && Update(node, versions).Ok?
    ensures Update(node, versions).value.Object?
    ensures Chosen(Update(node, versions).value.fields, versions) ==
        Chosen(ImageFields(node.fields, versions), versions)
    ensures Chosen(ImageFields(node.fields, versions), versions).Ok?
  {
    FieldsUpdated(node, versions);
    FieldAlike(node, "registry", versions);
    FieldAlike(node, "repository", versions);
    var b, seen := Update(node, versions).value.fields, ImageFields(node.fields, versions);
    assert "tag" in b <==> "tag" in seen;
    ChosenAlike(b, seen, versions);
    ImageFieldsChosen(node.fields, versions);
  }

  /** update_node is idempotent on a tree exactly when every dictionary in it keeps its tag under the rewritten registry
      and repository. */
  lemma {:induction false} RepeatIff(node: Json, versions: map<string, string>)
    requires WellFormed(versions) && Update(node, versions).Ok?
    ensures Update(Update(node, versions).value, versions) == Update(node, versions) <==> Steady(node, versions)
  {
    match node
    case Text(s) =>
      UpdatedText(s, versions);
    case Array(items) =>
      ItemsAt(items, |items|, versions);
      var r := UpdateItems(items, |items|, versions).value;
      forall i | 0 <= i < |items| ensures Update(r[i], versions) == Ok(r[i]) <==> Steady(items[i], versions) {
        RepeatIff(items[i], versions);
      }
      ItemsFixed(r, |r|, versions);
      assert r[..|r|] == r;
    case Object(fields) =>
      FieldsUpdated(node, versions);
      ChosenAgain(node, versions);
      var chosen := Chosen(fields, versions).value;
      var b := Update(node, versions).value;
      EachFixed(b, versions);
      forall k | k in fields && (k != "tag" || chosen.None?)
        ensures Update(b.fields[k], versions) == Ok(b.fields[k]) <==> Steady(fields[k], versions)
      {
        assert UpdateField(node, k, chosen, versions) == Ok(b.fields[k]);
        RepeatIff(fields[k], versions);
      }
      if "tag" in fields { TagFixed(node, versions); }
      var again := Chosen(b.fields, versions).value;
      assert forall k | k in fields && k != "tag" ::
          UpdateField(b, k, again, versions) == Update(b.fields[k], versions);
    case _ =>
  }

  /** A dictionary is left alone when each of its fields is. */
  lemma EachFixed(b: Json, versions: map<string, string>)
    requires b.Object? && Chosen(b.fields, versions).Ok?
    ensures Update(b, versions) == Ok(b) <==>
            forall k | k in b.fields :: UpdateField(b, k, Chosen(b.fields, versions).value, versions) == Ok(b.fields[k])
  {
    var chosen := Chosen(b.fields, versions).value;
    assert Update(b, versions) == UpdateEach(b, chosen, versions);
    if forall k | k in b.fields :: UpdateField(b, k, chosen, versions) == Ok(b.fields[k]) {
      assert (map k | k in b.fields :: UpdateField(b, k, chosen, versions).value) == b.fields;
    }
    if Update(b, versions) == Ok(b) {
      FieldsUpdated(b, versions);
      assert Ok(b).value == b;
    }
  }

  lemma TagFixed(node: Json, versions: map<string, string>)
    requires WellFormed(versions) && Has(node, "tag") && Update(node, versions).Ok?
    requires Chosen(node.fields, versions).Ok? && Has(Update(node, versions).value, "tag")
    requires var tag := Update(node, versions).value.fields["tag"];
      Chosen(node.fields, versions).value.None? ==>
          (Update(tag, versions) == Ok(tag) <==> Steady(node.fields["tag"], versions))
    ensures var (chosen, b) := (Chosen(node.fields, versions).value, Update(node, versions).value);
      && Chosen(b.fields, versions).Ok?
      && (UpdateField(b, "tag", Chosen(b.fields, versions).value, versions) == Ok(b.fields["tag"]) <==>
          TagStays(node.fields, versions) && (chosen.Some? || Steady(node.fields["tag"], versions)))
  {
    FieldsUpdated(node, versions);
    ChosenAgain(node, versions);
    var chosen, b := Chosen(node.fields, versions).value, Update(node, versions).value;
    var again := Chosen(b.fields, versions).value;
    assert UpdateField(node, "tag", chosen, versions) == Ok(b.fields["tag"]);
    StaysIff(node.fields, versions);
    if chosen.Some? { ChosenIsTag(node.fields, versions); }
    if again.Some? { ChosenIsTag(b.fields, versions); }
    if chosen.None? { KindKept(node.fields["tag"], versions); }
  }

  /** No registry or repository field next to a tag is itself a string the walk rewrites. */
  predicate ImagesStand(node: Json, versions: map<string, string>) {
    match node
    case Array(items) => forall i | 0 <= i < |items| :: ImagesStand(items[i], versions)
    case Object(fields) =>
      forall k | k in fields ::
        && (k in ["registry", "repository"] && fields[k].Text? ==> UpdateText(fields[k].s, versions) == fields[k].s)
        && ImagesStand(fields[k], versions)
    case _ => true
  }

  /** On such trees a second run changes nothing. */
  lemma {:induction false} StandingRepeats(node: Json, versions: map<string, string>)
    requires WellFormed(versions) && Update(node, versions).Ok? && ImagesStand(node, versions)
    ensures Steady(node, versions)
    ensures Update(Update(node, versions).value, versions) == Update(node, versions)
  {
    RepeatIff(node, versions);
    match node
    case Array(items) =>
      ItemsAt(items, |items|, versions);
      forall i | 0 <= i < |items| ensures Steady(items[i], versions) {
        StandingRepeats(items[i], versions);
      }
    case Object(fields) =>
      FieldsUpdated(node, versions);
      var chosen := Chosen(fields, versions).value;
      ChosenAlike(fields, ImageFields(fields, versions), versions);
      StaysIff(fields, versions);
      forall k | k in fields && (k != "tag" || chosen.None?) ensures Steady(fields[k], versions) {
        assert UpdateField(node, k, chosen, versions) == Update(fields[k], versions);
        StandingRepeats(fields[k], versions);
      }
    case _ =>
  }

  function Entry(repository: Image, tag: string): Json {
    Object(map["repository" := Text(Print(repository)), "tag" := Text(tag)])
  }

  lemma PrintedUpdated(image: Image, versions: map<string, string>)
    requires IsName(image.name) && IsTag(image.tag) && image.name in versions
    ensures UpdateText(Print(image), versions) == Print(Image(image.name, versions[image.name]))
  {
    PrintIsLine(image);
    ParseImageIff(Print(image), image);
  }

  lemma EntryChosen(repository: Image, tag: string, versions: map<string, string>)
    requires Print(repository) in versions
    ensures Chosen(Entry(repository, tag).fields, versions) == Ok(Some(versions[Print(repository)]))
  {
  }

  lemma EntryUpdated(repository: Image, tag: string, versions: map<string, string>)
    requires WellFormed(versions) && IsName(repository.name) && IsTag(repository.tag)
    requires repository.name in versions && Print(repository) in versions
    ensures Update(Entry(repository, tag), versions) ==
            Ok(Entry(Image(repository.name, versions[repository.name]), versions[Print(repository)]))
  {
    var node := Entry(repository, tag);
    var chosen := Some(versions[Print(repository)]);
    EntryChosen(repository, tag, versions);
    TagStands(chosen.value, versions);
    PrintedUpdated(repository, versions);
    var updated := Entry(Image(repository.name, versions[repository.name]), chosen.value);
    assert forall k | k in node.fields :: k == "repository" || k == "tag";
    assert UpdateField(node, "repository", chosen, versions) == Ok(updated.fields["repository"]);
    assert UpdateField(node, "tag", chosen, versions) == Ok(updated.fields["tag"]);
    assert (map k | k in node.fields :: UpdateField(node, k, chosen, versions).value) == updated.fields;
    assert Update(node, versions) == UpdateEach(node, chosen, versions);
  }

  /** A repository field that is itself a known image moves away from the tag chosen for it: two runs, two tags. */
  lemma SecondRunDiffers(repository: Image, tag: string, versions: map<string, string>)
    requires WellFormed(versions) && IsName(repository.name) && IsTag(repository.tag)
    requires repository.name in versions && Print(repository) in versions
    requires var moved := Print(Image(repository.name, versions[repository.name]));
      moved in versions && versions[moved] != versions[Print(repository)]
    ensures var first := Update(Entry(repository, tag), versions);
      first.Ok? && Update(first.value, versions).Ok? && Update(first.value, versions) != first
  {
    var moved := Image(repository.name, versions[repository.name]);
    EntryUpdated(repository, tag, versions);
    EntryUpdated(moved, versions[Print(repository)], versions);
    assert Entry(moved, versions[Print(repository)]).fields["tag"] !=
        Entry(moved, versions[Print(moved)]).fields["tag"];
  }

  lemma PrintedRelease(image: Image)
    requires IsName(image.name) && IsTag(image.tag)
    ensures ParseRelease(Print(image)) == Some(image)
  {
    PrintIsLine(image);
    ParseImageIff(Print(image), image);
  }

  lemma ThreeEntries(a: Image, b: Image, c: Image)
    requires IsName(a.name) && IsTag(a.tag) && IsName(b.name) && IsTag(b.tag) && IsName(c.name) && IsTag(c.tag)
    ensures Versions([Print(a), Print(b), Print(c)]) == map[a.name := a.tag, b.name := b.tag, c.name := c.tag]
  {
    PrintedRelease(a);
    PrintedRelease(b);
    PrintedRelease(c);
    var one, two, three := [Print(a)], [Print(a), Print(b)], [Print(a), Print(b), Print(c)];
    assert one[..0] == [] && two[..1] == one && three[..2] == two;
    assert Versions(one) == map[a.name := a.tag];
    assert Versions(two) == map[a.name := a.tag, b.name := b.tag];
  }

  /** Such a release file: `a:2`, `a:1:7` and `a:2:9`. */
  lemma SuchVersions()
    ensures var entries := [Print(Image("a", "2")), Print(Image("a:1", "7")), Print(Image("a:2", "9"))];
      var (image, versions) := (Image("a", "1"), Versions(entries));
      && WellFormed(versions) && IsName(image.name) && IsTag(image.tag) && image.name in versions &&
          Print(image) in versions
      && var moved := Print(Image(image.name, versions[image.name]));
         moved in versions && versions[moved] != versions[Print(image)]
  {
    assert Print(Image("a", "1")) == "a:1" && Print(Image("a", "2")) == "a:2";
    assert "7" != "9" by { assert "7"[0] != "9"[0]; }
    assert "a" != "a:1" && "a" != "a:2" && "a:1" != "a:2" by { assert |"a"| == 1 && "a:1"[2] != "a:2"[2]; }
    ThreeEntries(Image("a", "2"), Image("a:1", "7"), Image("a:2", "9"));
    VersionsWellFormed([Print(Image("a", "2")), Print(Image("a:1", "7")), Print(Image("a:2", "9"))]);
  }
}
