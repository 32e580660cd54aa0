// JSON documents as the schema generator handles them, locations in a document, and
// the `$ref` notation: a simplified JSON Pointer (sections 4 and 6 of RFC 6901,
// without escapes).

module Json {

  /** Objects are compared as Python compares dictionaries: the order of keys does not matter. */
  datatype Json =
    | Null
    | Bool(b: bool)
    | Number(n: int)
    | Text(s: string)
    | Array(items: seq<Json>)
    | Object(fields: map<string, Json>)

  datatype Error = KeyError | WrongType | UpdateThroughRef

  datatype Result<T> = Ok(value: T) | Raised(error: Error) {
    predicate IsFailure() { Raised? }
    function PropagateFailure<U>(): Result<U>
      requires Raised?
    {
      Raised(error)
    }
    function Extract(): T
      requires Ok?
    {
      value
    }
  }

  /** j[key] */
  function Member(j: Json, key: string): Result<Json> {
    if !j.Object? then Raised(WrongType)
    else if key !in j.fields then Raised(KeyError)
    else Ok(j.fields[key])
  }

  predicate Has(j: Json, key: string) {
    j.Object? && key in j.fields
  }

  function With(j: Json, key: string, value: Json): Json
    requires j.Object?
  {
    Object(j.fields[key := value])
  }

  /** The properties of a schema element, when it has them inline. */
  predicate HasProperties(e: Json) {
    Has(e, "properties") && e.fields["properties"].Object?
  }

  function Properties(e: Json): map<string, Json>
    requires HasProperties(e)
  {
    e.fields["properties"].fields
  }

  predicate HasProperty(e: Json, key: string) {
    HasProperties(e) && key in Properties(e)
  }

  function WithProperty(e: Json, key: string, value: Json): Json
    requires HasProperties(e)
  {
    With(e, "properties", Object(Properties(e)[key := value]))
  }

  // ---------- locations ----------

  /** document[k0][k1]... */
  function At(j: Json, path: seq<string>): Result<Json> {
    if path == [] then Ok(j)
    else
      var child :- Member(j, path[0]);
      At(child, path[1..])
  }

  /** document[k0]...[kn] = value, for a location that exists. */
  function Put(j: Json, path: seq<string>, value: Json): Json
    requires At(j, path).Ok?
  {
    if path == [] then value else With(j, path[0], Put(j.fields[path[0]], path[1..], value))
  }

  lemma {:induction false} AtAppend(j: Json, p: seq<string>, q: seq<string>)
    ensures At(j, p + q) == if At(j, p).Ok? then At(At(j, p).value, q) else At(j, p)
  {
    if p == [] {
      assert p + q == q;
    } else {
      assert (p + q)[1..] == p[1..] + q;
      if Member(j, p[0]).Ok? { AtAppend(j.fields[p[0]], p[1..], q); }
    }
  }

  lemma AtTwo(j: Json, a: string, b: string)
    ensures At(j, [a, b]) == if Member(j, a).Ok? then Member(j.fields[a], b) else Member(j, a)
  {
    assert [a, b][1..] == [b] && [b][1..] == [];
    if Member(j, a).Ok? && Member(j.fields[a], b).Ok? {
      assert At(j.fields[a].fields[b], []) == Ok(j.fields[a].fields[b]);
      assert At(j.fields[a], [b]) == Ok(j.fields[a].fields[b]);
    }
  }

  lemma {:induction false} AtPut(j: Json, p: seq<string>, value: Json)
    requires At(j, p).Ok?
    ensures At(Put(j, p, value), p) == Ok(value)
    ensures Put(j, p, At(j, p).value) == j
  {
    if p != [] {
      AtPut(j.fields[p[0]], p[1..], value);
      assert j.fields[p[0] := j.fields[p[0]]] == j.fields;
    }
  }

  lemma {:induction false} PutPut(j: Json, p: seq<string>, v: Json, w: Json)
    requires At(j, p).Ok?
    ensures At(Put(j, p, v), p).Ok? && Put(Put(j, p, v), p, w) == Put(j, p, w)
  {
    if p != [] {
      PutPut(j.fields[p[0]], p[1..], v, w);
    }
  }

  /** Writing below a location is writing the rewritten part back. */
  lemma {:induction false} PutAppend(j: Json, p: seq<string>, q: seq<string>, value: Json)
    requires At(j, p + q).Ok?
    ensures At(j, p).Ok? && At(At(j, p).value, q).Ok?
    ensures Put(j, p + q, value) == Put(j, p, Put(At(j, p).value, q, value))
  {
    AtAppend(j, p, q);
    if p == [] {
      assert p + q == q;
    } else {
      assert (p + q)[1..] == p[1..] + q;
      PutAppend(j.fields[p[0]], p[1..], q, value);
    }
  }

  /** A write leaves every location alone that leaves the written path at its first step. */
  lemma PutElsewhere(j: Json, p: seq<string>, q: seq<string>, value: Json)
    requires At(j, p).Ok? && p != [] && q != [] && p[0] != q[0]
    ensures At(Put(j, p, value), q) == At(j, q)
  {
  }

  /** Where a path of parameters leads in a schema. */
  function Location(path: seq<string>): seq<string> {
    if path == [] then [] else ["properties", path[0]] + Location(path[1..])
  }

  lemma {:induction false} LocationAppend(path: seq<string>, key: string)
    ensures Location(path + [key]) == Location(path) + ["properties", key]
  {
    if path == [] {
      assert path + [key] == [key] && [key][1..] == [];
    } else {
      assert (path + [key])[1..] == path[1..] + [key];
      LocationAppend(path[1..], key);
    }
  }

  /** A result for the element at loc, put back into the document. */
  function PutBack(document: Json, loc: seq<string>, r: Result<Json>): Result<Json>
    requires At(document, loc).Ok?
  {
    if r.Ok? then Ok(Put(document, loc, r.value)) else r
  }

  lemma AtProperty(document: Json, loc: seq<string>, key: string)
    requires At(document, loc).Ok? && HasProperty(At(document, loc).value, key)
    ensures At(document, loc + ["properties", key]) == Ok(Properties(At(document, loc).value)[key])
    ensures forall value :: Put(document, loc + ["properties", key], value) ==
              Put(document, loc, WithProperty(At(document, loc).value, key, value))
  {
    var e := At(document, loc).value;
    AtAppend(document, loc, ["properties", key]);
    assert At(e, ["properties", key]) == At(Object(Properties(e)), [key])
        by { assert ["properties", key][1..] == [key]; }
    assert At(Object(Properties(e)), [key]) == Ok(Properties(e)[key]) by { assert [key][1..] == []; }
    forall value
      ensures Put(document, loc + ["properties", key], value) == Put(document, loc, WithProperty(e, key, value))
    {
      PutAppend(document, loc, ["properties", key], value);
      assert Put(Object(Properties(e)), [key], value) == Object(Properties(e)[key := value]);
    }
  }

  // ---------- $ref ----------

  /** `s.replace("#/", "", 1)` */
  function DropFirstMark(s: string): string {
    if |s| < 2 then s
    else if s[..2] == "#/" then s[2..]
    else [s[0]] + DropFirstMark(s[1..])
  }

  predicate MarkAt(s: string, i: nat) {
    i + 2 <= |s| && s[i] == '#' && s[i + 1] == '/'
  }

  /** The first mark goes, wherever it is, and nothing else. */
  lemma {:induction false} DropsFirstMark(s: string, i: nat)
    requires i <= |s| && forall k: nat | k < i :: !MarkAt(s, k)
    ensures MarkAt(s, i) ==> DropFirstMark(s) == s[..i] + s[i + 2..]
    ensures i == |s| ==> DropFirstMark(s) == s
  {
    if |s| >= 2 {
      assert s[..2] == "#/" <==> MarkAt(s, 0);
      if i > 0 {
        var rest := s[1..];
        forall k: nat | k < i - 1 ensures !MarkAt(rest, k) { assert !MarkAt(s, k + 1); }
        DropsFirstMark(rest, i - 1);
        assert [s[0]] + rest == s;
        if MarkAt(s, i) {
          assert MarkAt(rest, i - 1) && rest[i - 1 + 2..] == s[i + 2..];
          assert [s[0]] + rest[..i - 1] == s[..i];
        }
      }
    }
  }

  /** `s.split(separator)` for a single character */
  function Split(s: string, separator: char): (parts: seq<string>)
    ensures parts != []
  {
    if s == "" then [""]
    else
      var rest := Split(s[1..], separator);
      if s[0] == separator then [""] + rest else [[s[0]] + rest[0]] + rest[1..]
  }

  function RefPath(ref: string): seq<string> {
    Split(DropFirstMark(ref), '/')
  }

  function Join(parts: seq<string>, separator: char): string
    requires parts != []
  {
    if |parts| == 1 then parts[0] else parts[0] + [separator] + Join(parts[1..], separator)
  }

  /** The parts are what the separators part: joined they give the string again, and none contains a separator. */
  lemma {:induction false} JoinSplit(s: string, separator: char)
    ensures Join(Split(s, separator), separator) == s
    ensures forall i | 0 <= i < |Split(s, separator)| :: separator !in Split(s, separator)[i]
  {
    if s != "" {
      var rest := Split(s[1..], separator);
      JoinSplit(s[1..], separator);
      assert [s[0]] + s[1..] == s;
      if s[0] == separator {
        assert ([""] + rest)[1..] == rest;
      } else {
        var parts := [[s[0]] + rest[0]] + rest[1..];
        assert Split(s, separator) == parts;
        if |rest| > 1 {
          assert parts[1..] == rest[1..];
          assert [s[0]] + Join(rest, separator) == parts[0] + [separator] + Join(parts[1..], separator);
        }
      }
    }
  }

  /** Splitting undoes joining when no part contains the separator. */
  lemma {:induction false} SplitJoin(parts: seq<string>, separator: char)
    requires parts != [] && forall i | 0 <= i < |parts| :: separator !in parts[i]
    ensures Split(Join(parts, separator), separator) == parts
  {
    var rest := if |parts| == 1 then "" else [separator] + Join(parts[1..], separator);
    if |parts| > 1 { SplitJoin(parts[1..], separator); }
    SplitHead(parts[0], rest, separator);
    assert parts[0] + rest == Join(parts, separator);
    assert |parts| > 1 ==> rest[1..] == Join(parts[1..], separator);
  }

  lemma {:induction false} SplitHead(head: string, rest: string, separator: char)
    requires separator !in head && (rest == "" || rest[0] == separator)
    ensures Split(head + rest, separator) == [head] + if rest == "" then [] else Split(rest[1..], separator)
  {
    if head == "" {
      assert head + rest == rest;
    } else {
      assert (head + rest)[1..] == head[1..] + rest;
      SplitHead(head[1..], rest, separator);
      assert [head[0]] + head[1..] == head;
    }
  }

  /** Resolving "#/a/b/c" follows the keys a, b, c. */
  lemma RefPathOf(parts: seq<string>)
    requires parts != [] && forall i | 0 <= i < |parts| :: '/' !in parts[i]
    ensures RefPath("#/" + Join(parts, '/')) == parts
  {
    var ref := "#/" + Join(parts, '/');
    assert ref[..2] == "#/" && ref[2..] == Join(parts, '/');
    SplitJoin(parts, '/');
  }
}
