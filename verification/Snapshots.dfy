// Snapshots of a folder as the DR synchronisation DAG tells them apart: by the number
// in their name. SnapshotNames relates these identities to the names themselves.

module Snapshots {

  /** Numbered(n): the snapshot the DAG itself would call number n.
      Foreign: any other name, with the number the DAG's pattern reads from it (-1: none);
      "snapshot_007" is foreign and reads as 7. */
  datatype Snapshot = Numbered(n: int) | Foreign(name: string, readsAs: int) {
    function Number(): (r: int)
      ensures r >= -1
    {
      var k := if Numbered? then n else readsAs;
      if k < 0 then -1 else k
    }
  }

  /** r is the greatest number among the snapshots, -1 when none has a number. */
  ghost predicate IsLatest(ids: set<Snapshot>, r: int) {
    && (forall id | id in ids :: id.Number() <= r)
    && (r == -1 || exists id :: id in ids && id.Number() == r)
  }

  ghost function Latest(ids: set<Snapshot>): (r: int)
    ensures r >= -1
  {
    if ids == {} then -1
    else
      var id :| id in ids;
      var rest := Latest(ids - {id});
      if id.Number() > rest then id.Number() else rest
  }

  lemma {:induction false} LatestIsLatest(ids: set<Snapshot>)
    ensures IsLatest(ids, Latest(ids))
  {
    if ids != {} {
      var id :| id in ids &&
          Latest(ids) == (var rest := Latest(ids - {id}); if id.Number() > rest then id.Number() else rest);
      LatestIsLatest(ids - {id});
      var rest := Latest(ids - {id});
      if Latest(ids) == rest != -1 {
        var other :| other in ids - {id} && other.Number() == rest;
        assert other in ids;
      }
    }
  }

  /** No other number qualifies. */
  lemma LatestUnique(ids: set<Snapshot>, r: int)
    requires IsLatest(ids, r) && r >= -1
    ensures r == Latest(ids)
  {
    LatestIsLatest(ids);
  }

  /** -1 stands for "no snapshot has a number", and for nothing else. */
  lemma LatestNone(ids: set<Snapshot>)
    ensures Latest(ids) == -1 <==> forall id | id in ids :: id.Number() == -1
  {
    LatestIsLatest(ids);
  }

  /** Adding snapshot n makes the latest number the greater of the two. */
  lemma LatestAdd(ids: set<Snapshot>, n: nat)
    ensures Latest(ids + {Numbered(n)}) == if n > Latest(ids) then n else Latest(ids)
  {
    LatestIsLatest(ids);
    var r := if n > Latest(ids) then n else Latest(ids);
    assert Numbered(n) in ids + {Numbered(n)};
    if n <= Latest(ids) {
      var id :| id in ids && id.Number() == r;
      assert id in ids + {Numbered(n)};
    }
    LatestUnique(ids + {Numbered(n)}, r);
  }

  lemma LatestAtLeast(ids: set<Snapshot>, n: nat)
    ensures Numbered(n) in ids ==> n <= Latest(ids)
  {
    LatestIsLatest(ids);
  }

  /** Deleting a snapshot below the latest leaves the latest number alone; no deletion raises it. */
  lemma LatestRemove(ids: set<Snapshot>, id: Snapshot)
    ensures Latest(ids - {id}) <= Latest(ids)
    ensures id.Number() < Latest(ids) ==> Latest(ids - {id}) == Latest(ids)
  {
    LatestIsLatest(ids);
    LatestIsLatest(ids - {id});
    var rest := Latest(ids - {id});
    if rest != -1 {
      var other :| other in ids - {id} && other.Number() == rest;
      assert other in ids;
    }
    if id.Number() < Latest(ids) {
      var top :| top in ids && top.Number() == Latest(ids);
      assert top in ids - {id};
    }
  }
}
