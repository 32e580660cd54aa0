// Renaming a key and the order in which the pass walks the keys of each object: which
// outcomes some order yields, and which documents have only one.

module SchemaRenameOrder {
  import opened Json
  import opened SchemaKeys

  // ---------- walks ----------

  ghost predicate Distinct(keys: seq<string>) {
    forall i, k | 0 <= i < k < |keys| :: keys[i] != keys[k]
  }

  ghost function Listed(keys: seq<string>): set<string> {
    set k | k in keys
  }

  /** The keys still to be met lead to values of the object the pass started from. */
  ghost predicate Ahead(j: Json, keys: seq<string>, fields: map<string, Json>) {
    && j.Object? && Distinct(keys)
    && forall i | 0 <= i < |keys| :: keys[i] in fields && exists k :: k in j.fields && fields[keys[i]] == j.fields[k]
  }

  /** The pass meets the keys in this order, object by object, and ends with r. */
  ghost predicate Pass(j: Json, keys: seq<string>, fields: map<string, Json>, from: string, to: string,
      r: map<string, Json>)
    requires Ahead(j, keys, fields)
    decreases j, 0, |keys|
  {
    if keys == [] then r == fields
    else if keys[0] == from then
      AheadMoved(j, keys, fields, from, to);
      Pass(j, keys[1..], Moved(fields, from, to), from, to, r)
    else exists below :: Enters(j, keys, fields, below, from, to, r)
  }

  /** The pass enters the value of the first key, leaves it as below, and goes on. */
  ghost predicate Enters(j: Json, keys: seq<string>, fields: map<string, Json>, below: Json, from: string, to: string,
                         r: map<string, Json>)
    requires Ahead(j, keys, fields) && keys != []
    decreases j, 0, |keys|, 0
  {
    AheadEntered(j, keys, fields, below);
    Walks(fields[keys[0]], from, to, below) && Pass(j, keys[1..], fields[keys[0] := below], from, to, r)
  }

  /** Some order of the keys of each object makes the pass turn j into r. */
  ghost predicate Walks(j: Json, from: string, to: string, r: Json)
    decreases j, 1
  {
    if !j.Object? then r == j
    else r.Object? && exists order: seq<string> :: Goes(j, order, from, to, r)
  }

  ghost predicate Goes(j: Json, order: seq<string>, from: string, to: string, r: Json)
    requires j.Object? && r.Object?
    decreases j, 0, |order| + 1
  {
    Distinct(order) && Listed(order) == j.fields.Keys && Ahead(j, order, j.fields) &&
        Pass(j, order, j.fields, from, to, r.fields)
  }

  lemma AheadMoved(j: Json, keys: seq<string>, fields: map<string, Json>, from: string, to: string)
    requires Ahead(j, keys, fields) && keys != [] && keys[0] == from
    ensures Ahead(j, keys[1..], Moved(fields, from, to))
  {
    var rest, after := keys[1..], Moved(fields, from, to);
    forall i | 0 <= i < |rest| ensures rest[i] in after && exists k :: k in j.fields && after[rest[i]] == j.fields[k] {
      assert rest[i] == keys[i + 1] != from;
      if rest[i] == to { assert after[to] == fields[keys[0]]; }
    }
  }

  lemma AheadEntered(j: Json, keys: seq<string>, fields: map<string, Json>, below: Json)
    requires Ahead(j, keys, fields) && keys != []
    ensures Ahead(j, keys[1..], fields[keys[0] := below])
  {
    var rest, after := keys[1..], fields[keys[0] := below];
    forall i | 0 <= i < |rest| ensures rest[i] in after && exists k :: k in j.fields && after[rest[i]] == j.fields[k] {
      assert rest[i] == keys[i + 1] != keys[0];
    }
  }

  lemma FirstListed(keys: seq<string>)
    requires keys != [] && Distinct(keys)
    ensures Listed(keys[1..]) == Listed(keys) - {keys[0]}
    ensures Distinct(keys[1..])
  {
    forall k ensures k in keys[1..] <==> k in keys && k != keys[0] {
      if k in keys[1..] {
        var i :| 0 <= i < |keys[1..]| && keys[1..][i] == k;
        assert keys[i + 1] == k;
      }
      if k in keys && k != keys[0] {
        var i :| 0 <= i < |keys| && keys[i] == k;
        assert keys[1..][i - 1] == k;
      }
    }
  }

  // ---------- every walk is a renaming ----------

  lemma {:induction false} PassRenames(j: Json, keys: seq<string>, fields: map<string, Json>, from: string, to: string,
                                       r: map<string, Json>)
    requires Ahead(j, keys, fields) && Midway(j, Listed(keys), fields, from, to) && Pass(j, keys, fields, from, to, r)
    ensures Renamed(j, from, to, Object(r))
    decreases j, 0, |keys|
  {
    if keys == [] {
      assert Listed(keys) == {};
      MidwayDone(j, r, from, to);
    } else {
      var k := keys[0];
      FirstListed(keys);
      assert k in Listed(keys);
      if k == from {
        AheadMoved(j, keys, fields, from, to);
        MidwayMove(j, Listed(keys), fields, from, to);
        PassRenames(j, keys[1..], Moved(fields, from, to), from, to, r);
      } else {
        var below :| Enters(j, keys, fields, below, from, to, r);
        AheadEntered(j, keys, fields, below);
        WalkRenames(fields[k], from, to, below);
        MidwayEnter(j, Listed(keys), fields, k, below, from, to);
        PassRenames(j, keys[1..], fields[k := below], from, to, r);
      }
    }
  }

  lemma {:induction false} WalkRenames(j: Json, from: string, to: string, r: Json)
    requires Walks(j, from, to, r)
    ensures Renamed(j, from, to, r)
    decreases j, 1
  {
    if j.Object? {
      var order: seq<string> :| Goes(j, order, from, to, r);
      PassRenames(j, order, j.fields, from, to, r.fields);
    }
  }

  // ---------- every renaming is a walk ----------

  /** The keys left lead, one by one, to the fields of r; what was met before is there already. */
  ghost predicate OnCourse(j: Json, keys: seq<string>, fields: map<string, Json>, from: string, to: string,
      r: map<string, Json>) {
    && Ahead(j, keys, fields) && from !in keys
    && fields.Keys == r.Keys
    && forall k | k in fields && k in r :: if k in keys then Renamed(fields[k], from, to, r[k]) else fields[k] == r[k]
  }

  lemma OnCourseNext(j: Json, keys: seq<string>, fields: map<string, Json>, from: string, to: string,
      r: map<string, Json>)
    requires OnCourse(j, keys, fields, from, to, r) && keys != []
    ensures keys[0] in r && Renamed(fields[keys[0]], from, to, r[keys[0]])
    ensures OnCourse(j, keys[1..], fields[keys[0] := r[keys[0]]], from, to, r)
  {
    var k := keys[0];
    AheadEntered(j, keys, fields, r[k]);
    FirstListed(keys);
    assert forall other :: other in keys[1..] <==> other in Listed(keys[1..]);
    assert forall other :: other in keys <==> other in Listed(keys);
  }

  /** One key of the pass. */
  lemma MeetKey(j: Json, keys: seq<string>, fields: map<string, Json>, below: Json, from: string, to: string,
                r: map<string, Json>)
    requires Ahead(j, keys, fields) && keys != []
    requires if keys[0] == from then Ahead(j, keys[1..], Moved(fields, from, to))
             else Ahead(j, keys[1..], fields[keys[0] := below]) && Walks(fields[keys[0]], from, to, below)
    ensures var after := if keys[0] == from then Moved(fields, from, to) else fields[keys[0] := below];
            Pass(j, keys[1..], after, from, to, r) ==>
              Pass(j, keys, fields, from, to, r)
  {
    if keys[0] != from && Pass(j, keys[1..], fields[keys[0] := below], from, to, r) {
      assert Enters(j, keys, fields, below, from, to, r);
    }
  }

  lemma {:induction false} PassExists(j: Json, keys: seq<string>, fields: map<string, Json>, from: string, to: string,
                                      r: map<string, Json>)
    requires OnCourse(j, keys, fields, from, to, r)
    ensures Pass(j, keys, fields, from, to, r)
    decreases j, 0, |keys|
  {
    if keys == [] {
      assert fields == r;
    } else {
      var k := keys[0];
      OnCourseNext(j, keys, fields, from, to, r);
      WalkExists(fields[k], from, to, r[k]);
      PassExists(j, keys[1..], fields[k := r[k]], from, to, r);
      MeetKey(j, keys, fields, r[k], from, to, r);
    }
  }

  lemma {:induction false} SomeOrder(keys: set<string>) returns (order: seq<string>)
    ensures Distinct(order) && Listed(order) == keys
  {
    if keys == {} {
      order := [];
    } else {
      var k :| k in keys;
      var rest := SomeOrder(keys - {k});
      order := [k] + rest;
      PutFirst(k, rest);
    }
  }

  lemma PutFirst(k: string, rest: seq<string>)
    requires Distinct(rest) && k !in rest
    ensures Distinct([k] + rest) && Listed([k] + rest) == Listed(rest) + {k}
  {
  }

  lemma OrderAhead(j: Json, order: seq<string>)
    requires j.Object? && Distinct(order) && Listed(order) <= j.fields.Keys
    ensures Ahead(j, order, j.fields)
  {
    assert forall i | 0 <= i < |order| :: order[i] in Listed(order);
  }

  lemma {:induction false} WalkExists(j: Json, from: string, to: string, r: Json)
    requires Renamed(j, from, to, r)
    ensures Walks(j, from, to, r)
    decreases j, 1
  {
    if j.Object? {
      if from !in j.fields {
        var order := SomeOrder(j.fields.Keys);
        OrderAhead(j, order);
        assert from !in order by { assert from !in Listed(order); }
        assert forall k :: k in order <==> k in Listed(order);
        PassExists(j, order, j.fields, from, to, r.fields);
        assert Goes(j, order, from, to, r);
      } else if from != to && to in j.fields && r.fields[to] == j.fields[from] {
        MovedLast(j, from, to, r);
      } else {
        MovedFirst(j, from, to, r);
      }
    }
  }

  /** After the move the other keys lead to the fields of r. */
  lemma OnCourseAfterMove(j: Json, rest: seq<string>, fields: map<string, Json>, from: string, to: string, r: Json)
    requires j.Object? && from in j.fields && Renamed(j, from, to, r)
    requires fields.Keys == j.fields.Keys && forall k | k in fields && k != to :: fields[k] == j.fields[k]
    requires Ahead(j, rest, Moved(fields, from, to)) && from !in rest
    requires forall k :: k in rest || k == to <==> k in j.fields.Keys - {from} || k == to
    requires to in rest && to != from ==> Renamed(j.fields[from], from, to, r.fields[to])
    requires to !in rest && to != from ==> r.fields[to] == j.fields[from]
    ensures OnCourse(j, rest, Moved(fields, from, to), from, to, r.fields)
  {
  }

  /** An order that starts with the old key. */
  lemma MovesFirst(j: Json, rest: seq<string>, from: string, to: string, r: Json)
    requires j.Object? && r.Object? && from in j.fields && Distinct(rest) && Listed(rest) == j.fields.Keys - {from}
    ensures Ahead(j, rest, Moved(j.fields, from, to))
    ensures Pass(j, rest, Moved(j.fields, from, to), from, to, r.fields) ==> Walks(j, from, to, r)
  {
    assert from !in rest by { assert from !in Listed(rest); }
    PutFirst(from, rest);
    var order := [from] + rest;
    assert Listed(order) == j.fields.Keys && order[1..] == rest;
    OrderAhead(j, order);
    AheadMoved(j, order, j.fields, from, to);
    MeetKey(j, order, j.fields, j, from, to, r.fields);
    GoesInOrder(j, order, from, to, r);
  }

  /** The old key is met first: the value moved under the new key, if the object has that key too, is entered. */
  lemma {:induction false} MovedFirst(j: Json, from: string, to: string, r: Json)
    requires j.Object? && from in j.fields && Renamed(j, from, to, r)
    requires from != to && to in j.fields ==> Renamed(j.fields[from], from, to, r.fields[to])
    ensures Walks(j, from, to, r)
    decreases j, 0
  {
    var rest := SomeOrder(j.fields.Keys - {from});
    MovesFirst(j, rest, from, to, r);
    assert forall k :: k in rest <==> k in Listed(rest);
    OnCourseAfterMove(j, rest, j.fields, from, to, r);
    PassExists(j, rest, Moved(j.fields, from, to), from, to, r.fields);
  }

  /** An order that starts with the new key and then the old one. */
  lemma MovesSecond(j: Json, rest: seq<string>, below: Json, from: string, to: string, r: Json)
    requires j.Object? && r.Object? && from in j.fields && to in j.fields && from != to
    requires Distinct(rest) && Listed(rest) == j.fields.Keys - {from} - {to} && Walks(j.fields[to], from, to, below)
    ensures Ahead(j, rest, Moved(j.fields[to := below], from, to))
    ensures Pass(j, rest, Moved(j.fields[to := below], from, to), from, to, r.fields) ==> Walks(j, from, to, r)
  {
    var tail := [from] + rest;
    var order := [to] + tail;
    assert from !in rest && to !in rest by { assert from !in Listed(rest) && to !in Listed(rest); }
    PutFirst(from, rest);
    PutFirst(to, tail);
    assert Listed(order) == j.fields.Keys && order[1..] == tail && tail[1..] == rest;
    OrderAhead(j, order);
    AheadEntered(j, order, j.fields, below);
    AheadMoved(j, tail, j.fields[to := below], from, to);
    MeetKey(j, tail, j.fields[to := below], below, from, to, r.fields);
    MeetKey(j, order, j.fields, below, from, to, r.fields);
    GoesInOrder(j, order, from, to, r);
  }

  lemma GoesInOrder(j: Json, order: seq<string>, from: string, to: string, r: Json)
    requires j.Object? && r.Object? && Distinct(order) && Listed(order) == j.fields.Keys && Ahead(j, order, j.fields)
    ensures Pass(j, order, j.fields, from, to, r.fields) ==> Walks(j, from, to, r)
  {
    if Pass(j, order, j.fields, from, to, r.fields) {
      assert Goes(j, order, from, to, r);
    }
  }

  /** The new key is met first, and what becomes of its value is overwritten by the value moved next. */
  lemma {:induction false} MovedLast(j: Json, from: string, to: string, r: Json)
    requires j.Object? && from in j.fields && to in j.fields && from != to
    requires Renamed(j, from, to, r) && r.fields[to] == j.fields[from]
    ensures Walks(j, from, to, r)
    decreases j, 0
  {
    var rest := SomeOrder(j.fields.Keys - {from} - {to});
    var below := Rename(j.fields[to], from, to);
    RenameIsOutcome(j.fields[to], from, to);
    WalkExists(j.fields[to], from, to, below);
    MovesSecond(j, rest, below, from, to, r);
    assert forall k :: k in rest <==> k in Listed(rest);
    OnCourseAfterMove(j, rest, j.fields[to := below], from, to, r);
    PassExists(j, rest, Moved(j.fields[to := below], from, to), from, to, r.fields);
  }

  lemma {:induction false} RenameIsOutcome(j: Json, from: string, to: string)
    ensures Renamed(j, from, to, Rename(j, from, to))
  {
    if j.Object? {
      forall k | k in j.fields && k != from ensures Renamed(j.fields[k], from, to, Rename(j.fields[k], from, to)) {
        RenameIsOutcome(j.fields[k], from, to);
      }
    }
  }

  /** The outcomes of renaming are exactly what the walks in all orders yield. */
  lemma WalksIff(j: Json, from: string, to: string, r: Json)
    ensures Walks(j, from, to, r) <==> Renamed(j, from, to, r)
  {
    if Walks(j, from, to, r) { WalkRenames(j, from, to, r); }
    if Renamed(j, from, to, r) { WalkExists(j, from, to, r); }
  }

  // ---------- when the order matters ----------

  /** Where an object the pass reaches has both keys, the value it moves over the other holds no old key. */
  predicate OrderFree(j: Json, from: string, to: string) {
    j.Object? ==>
      && (from in j.fields && to in j.fields ==> Lacks(j.fields[from], from, from))
      && forall k | k in j.fields && k != from && !(k == to && from in j.fields) :: OrderFree(j.fields[k], from, to)
  }

  /** Renaming leaves a document as it is exactly when it reaches no old key. */
  lemma {:induction false} UntouchedIff(j: Json, from: string, to: string, r: Json)
    requires from != to
    ensures Renamed(j, from, to, r) && r == j ==> Lacks(j, from, from)
    ensures Lacks(j, from, from) ==> (Renamed(j, from, to, r) <==> r == j)
  {
    if j.Object? && r.Object? && from !in j.fields && r.fields.Keys == j.fields.Keys {
      forall k | k in j.fields
        ensures Renamed(j.fields[k], from, to, r.fields[k]) && r.fields[k] == j.fields[k] ==>
            Lacks(j.fields[k], from, from)
        ensures Lacks(j.fields[k], from, from) ==>
            (Renamed(j.fields[k], from, to, r.fields[k]) <==> r.fields[k] == j.fields[k])
      {
        UntouchedIff(j.fields[k], from, to, r.fields[k]);
      }
      if Lacks(j, from, from) && Renamed(j, from, to, r) { assert r.fields == j.fields; }
    }
  }

  /** Then there is one outcome. */
  lemma {:induction false} RenamedIff(j: Json, from: string, to: string, r: Json)
    requires from != to && OrderFree(j, from, to)
    ensures Renamed(j, from, to, r) <==> r == Rename(j, from, to)
  {
    RenameIsOutcome(j, from, to);
    if j.Object? && Renamed(j, from, to, r) {
      var expected := Rename(j, from, to);
      forall k | k in r.fields ensures r.fields[k] == expected.fields[k] {
        if k == to && from in j.fields {
          if to in j.fields { UntouchedIff(j.fields[from], from, to, r.fields[to]); }
        } else {
          RenamedIff(j.fields[k], from, to, r.fields[k]);
        }
      }
      assert r.fields == expected.fields;
    }
  }

  /** Otherwise two orders give two outcomes. */
  lemma {:induction false} ClashDependsOnOrder(j: Json, from: string, to: string) returns (r1: Json, r2: Json)
    requires from != to && !OrderFree(j, from, to)
    ensures Walks(j, from, to, r1) && Walks(j, from, to, r2) && r1 != r2
  {
    RenameIsOutcome(j, from, to);
    r1 := Rename(j, from, to);
    if from in j.fields && to in j.fields && !Lacks(j.fields[from], from, from) {
      var entered := Rename(j.fields[from], from, to);
      RenameIsOutcome(j.fields[from], from, to);
      UntouchedIff(j.fields[from], from, to, entered);
      r2 := Object(r1.fields[to := entered]);
      assert r1.fields[to] != r2.fields[to];
    } else {
      var k :| k in j.fields && k != from && !(k == to && from in j.fields) && !OrderFree(j.fields[k], from, to);
      var x1, x2 := ClashDependsOnOrder(j.fields[k], from, to);
      WalksIff(j.fields[k], from, to, x1);
      WalksIff(j.fields[k], from, to, x2);
      r2 := Object(r1.fields[k := if x1 == r1.fields[k] then x2 else x1]);
      assert r1.fields[k] != r2.fields[k];
    }
    assert Renamed(j, from, to, r2);
    WalksIff(j, from, to, r1);
    WalksIff(j, from, to, r2);
  }

  lemma OneWalk(j: Json, from: string, to: string, r: Json)
    requires from != to && OrderFree(j, from, to) && Walks(j, from, to, r)
    ensures r == Rename(j, from, to)
  {
    WalksIff(j, from, to, r);
    RenamedIff(j, from, to, r);
  }

  /** All orders yield the same. */
  ghost predicate OneOutcome(j: Json, from: string, to: string) {
    forall r1, r2 | Walks(j, from, to, r1) && Walks(j, from, to, r2) :: r1 == r2
  }

  lemma NotOneOutcome(j: Json, from: string, to: string, r1: Json, r2: Json)
    requires Walks(j, from, to, r1) && Walks(j, from, to, r2) && r1 != r2
    ensures !OneOutcome(j, from, to)
  {
  }

  /** The outcome of renaming does not depend on the order in which the keys of the objects are met exactly when, where
      both keys meet, no old key is below the value moved. */
  lemma OneOutcomeIff(j: Json, from: string, to: string)
    requires from != to
    ensures OneOutcome(j, from, to) <==> OrderFree(j, from, to)
  {
    if OrderFree(j, from, to) {
      forall r | Walks(j, from, to, r) ensures r == Rename(j, from, to) { OneWalk(j, from, to, r); }
    } else {
      var r1, r2 := ClashDependsOnOrder(j, from, to);
      NotOneOutcome(j, from, to, r1, r2);
    }
  }
}
