// Removing and renaming a key wherever it occurs below objects. Neither pass enters
// arrays, and renaming does not enter the values it moves.

module SchemaKeys {
  import opened Json

  // ---------- removal ----------

  function Remove(j: Json, key: string): Json {
    if j.Object? then Object(map k | k in j.fields && k != key :: Remove(j.fields[k], key)) else j
  }

  /** remove_common_key: deletes the key from an object and walks into the other values, in any order. */
  method RemoveCommonKey(j: Json, key: string) returns (r: Json)
    ensures r == Remove(j, key)
    decreases j
  {
    r := j;
    if j.Object? {
      var fields := j.fields;
      var todo := j.fields.Keys;
      while todo != {}
        invariant todo <= j.fields.Keys
        invariant fields.Keys == if key in todo then j.fields.Keys else j.fields.Keys - {key}
        invariant forall k | k in fields ::
          fields[k] == if k in todo || k == key then j.fields[k] else Remove(j.fields[k], key)
        decreases todo
      {
        var k :| k in todo;
        if k == key {
          fields := fields - {k};
        } else {
          var below := RemoveCommonKey(fields[k], key);
          fields := fields[k := below];
        }
        todo := todo - {k};
      }
      r := Object(fields);
    }
  }

  /** Removal leaves nothing under the key and alters nothing else: a location that avoids the key is still there
      exactly when it was, with the key removed below it; a location through the key is gone. */
  lemma {:induction false} RemoveAt(j: Json, key: string, path: seq<string>)
    ensures key !in path ==>
      At(Remove(j, key), path) == (if At(j, path).Ok? then Ok(Remove(At(j, path).value, key)) else At(j, path))
    ensures key in path ==> At(Remove(j, key), path).Raised?
  {
    if path != [] && Member(j, path[0]).Ok? {
      RemoveAt(j.fields[path[0]], key, path[1..]);
      assert path == [path[0]] + path[1..];
    }
  }

  lemma {:induction false} RemoveIdempotent(j: Json, key: string)
    ensures Remove(Remove(j, key), key) == Remove(j, key)
  {
    if j.Object? {
      forall k | k in j.fields && k != key ensures Remove(Remove(j.fields[k], key), key) == Remove(j.fields[k], key) {
        RemoveIdempotent(j.fields[k], key);
      }
    }
  }

  // ---------- renaming ----------

  /** One way for the pass to go: entries under the old key are moved, the other values entered. */
  function Rename(j: Json, from: string, to: string): Json {
    if !j.Object? then j
    else
      var others := map k | k in j.fields && k != from :: Rename(j.fields[k], from, to);
      Object(if from in j.fields && from != to then others[to := j.fields[from]] else others)
  }

  /** r is what renaming may yield: when an object has both keys, the moved value replaces the value under the new
      key, and is itself entered if the pass meets the new key later. */
  ghost predicate Renamed(j: Json, from: string, to: string, r: Json)
    decreases j
  {
    if !j.Object? then r == j
    else
      && r.Object?
      && r.fields.Keys == (if from in j.fields then j.fields.Keys + {to} - {from} else j.fields.Keys)
      && (forall k | k in j.fields && k in r.fields && k != from && !(k == to && from in j.fields) ::
            Renamed(j.fields[k], from, to, r.fields[k]))
      && (from in j.fields && from != to ==>
            r.fields[to] == j.fields[from] || (to in j.fields && Renamed(j.fields[from], from, to, r.fields[to])))
  }

  /** The object in the middle of the pass, with the keys in todo not met yet. */
  ghost predicate Midway(j: Json, todo: set<string>, fields: map<string, Json>, from: string, to: string)
    requires j.Object?
  {
    var moved := from in j.fields && from !in todo;
    && todo <= j.fields.Keys
    && fields.Keys == (if moved then j.fields.Keys + {to} - {from} else j.fields.Keys)
    && (forall k | k in j.fields && k in fields && !(k == to && moved) ::
          if k in todo then fields[k] == j.fields[k] else Renamed(j.fields[k], from, to, fields[k]))
    && (moved && from != to ==>
          fields[to] == j.fields[from] || (to in j.fields && to !in todo &&
              Renamed(j.fields[from], from, to, fields[to])))
  }

  function Moved(fields: map<string, Json>, from: string, to: string): map<string, Json>
    requires from in fields
  {
    fields[to := fields[from]] - {from}
  }

  lemma MidwayMove(j: Json, todo: set<string>, fields: map<string, Json>, from: string, to: string)
    requires j.Object? && Midway(j, todo, fields, from, to) && from in todo
    ensures Midway(j, todo - {from}, Moved(fields, from, to), from, to)
  {
  }

  lemma MidwayEnter(j: Json, todo: set<string>, fields: map<string, Json>, k: string, below: Json, from: string,
      to: string)
    requires j.Object? && Midway(j, todo, fields, from, to) && k in todo && k != from
    requires Renamed(fields[k], from, to, below)
    ensures fields[k] == j.fields[k] || (from in j.fields && fields[k] == j.fields[from])
    ensures Midway(j, todo - {k}, fields[k := below], from, to)
  {
  }

  lemma MidwayDone(j: Json, fields: map<string, Json>, from: string, to: string)
    requires j.Object? && Midway(j, {}, fields, from, to)
    ensures Renamed(j, from, to, Object(fields))
  {
  }

  /** replace_common_key: walks a fixed list of the object's keys while moving entries, in any order. */
  method ReplaceCommonKey(j: Json, from: string, to: string) returns (r: Json)
    ensures Renamed(j, from, to, r)
    decreases j
  {
    r := j;
    if j.Object? {
      var fields := j.fields;
      var todo := j.fields.Keys;
      while todo != {}
        invariant Midway(j, todo, fields, from, to)
        decreases todo
      {
        var k :| k in todo;
        if k == from {
          MidwayMove(j, todo, fields, from, to);
          fields := fields[to := fields[k]];
          fields := fields - {k};
        } else {
          assert fields[k] == j.fields[k] || (from in j.fields && fields[k] == j.fields[from]);
          var below := ReplaceCommonKey(fields[k], from, to);
          MidwayEnter(j, todo, fields, k, below, from, to);
          fields := fields[k := below];
        }
        todo := todo - {k};
      }
      MidwayDone(j, fields, from, to);
      r := Object(fields);
    }
  }

  /** Renaming a key to itself deletes it. */
  lemma {:induction false} RenamedToItself(j: Json, key: string, r: Json)
    ensures Renamed(j, key, key, r) <==> r == Remove(j, key)
  {
    if j.Object? && r.Object? && r.fields.Keys == j.fields.Keys - {key} {
      forall k | k in j.fields && k != key
        ensures Renamed(j.fields[k], key, key, r.fields[k]) <==> r.fields[k] == Remove(j.fields[k], key)
      {
        RenamedToItself(j.fields[k], key, r.fields[k]);
      }
      if Renamed(j, key, key, r) { assert r.fields == Remove(j, key).fields; }
    }
  }

  /** Whatever the order, no object is left with the old key, except below a value the pass moved or found under the
      new key. */
  lemma {:induction false} RenameRemovesKey(j: Json, from: string, to: string, r: Json)
    requires from != to && Renamed(j, from, to, r)
    ensures Lacks(r, to, from)
  {
    if j.Object? {
      forall k | k in r.fields && k != to ensures Lacks(r.fields[k], to, from) {
        RenameRemovesKey(j.fields[k], from, to, r.fields[k]);
      }
    }
  }

  /** No object outside the values under `from` has the key. */
  predicate Lacks(j: Json, from: string, key: string) {
    j.Object? ==> key !in j.fields && forall k | k in j.fields && k != from :: Lacks(j.fields[k], from, key)
  }

  /** Renaming forth and back, in whatever orders, restores the document exactly when no object the first pass reaches
      had the new key before. */
  lemma {:induction false} RoundTripIff(j: Json, from: string, to: string, there: Json, back: Json)
    requires Renamed(j, from, to, there) && Renamed(there, to, from, back)
    ensures back == j <==> Lacks(j, from, to)
  {
    if j.Object? {
      if to in j.fields {
        assert to !in back.fields || from == to;
        assert from == to ==> from !in there.fields;
      } else {
        assert from in j.fields ==> back.fields[from] == there.fields[to] == j.fields[from];
        assert back.fields.Keys == j.fields.Keys;
        forall k | k in j.fields && k != from
          ensures back.fields[k] == j.fields[k] <==> Lacks(j.fields[k], from, to)
        {
          RoundTripIff(j.fields[k], from, to, there.fields[k], back.fields[k]);
        }
        if Lacks(j, from, to) { assert back.fields == j.fields; }
        if back == j { assert forall k | k in j.fields :: back.fields[k] == j.fields[k]; }
      }
    }
  }
}
