// The content of an HDFS folder and the two copies `hadoop distcp` makes of it.

module HdfsTree {

  /** A path below the folder: at least one component. */
  type Path = p: seq<string> | p != [] witness ["."]

  datatype Entry = Directory | File(content: string)

  type Tree = map<Path, Entry>

  /** What `client.list(folder)` shows: the names directly below the folder. */
  function Listing(t: Tree): set<string> {
    set p | p in t :: p[0]
  }

  /** A name is listed iff something is at it or below it. */
  lemma ListingIs(t: Tree, name: string)
    ensures name in Listing(t) <==> exists rest: seq<string> :: [name] + rest in t
  {
    if name in Listing(t) {
      var p :| p in t && p[0] == name;
      assert [name] + p[1..] == p;
    }
    if rest: seq<string> :| [name] + rest in t {
      var p: Path := [name] + rest;
      assert p[0] == name;
    }
  }

  lemma ListingEmpty(t: Tree)
    ensures Listing(t) == {} <==> t == map[]
  {
    if t != map[] {
      var p :| p in t;
      assert p[0] in Listing(t);
    }
  }

  /** `distcp -update src dst` without `-delete`: entries of src are written over dst, nothing is removed. */
  function Overlay(src: Tree, dst: Tree): Tree {
    dst + src
  }

  /** A full copy brings over every entry of the source, and yields the source exactly if the destination has nothing
      else: nothing is removed from there. */
  lemma OverlayIs(src: Tree, dst: Tree)
    ensures forall p | p in src :: p in Overlay(src, dst) && Overlay(src, dst)[p] == src[p]
    ensures forall p | p in dst && p !in src :: p in Overlay(src, dst) && Overlay(src, dst)[p] == dst[p]
    ensures Overlay(src, dst) == src <==> dst.Keys <= src.Keys
  {
    if Overlay(src, dst) == src {
      forall p | p in dst ensures p in src { assert p in Overlay(src, dst); }
    }
  }

  /** A snapshot diff report: paths gone since the base, and entries new or changed since then. */
  datatype Diff = Diff(deleted: set<Path>, written: Tree)

  function SnapshotDiff(base: Tree, target: Tree): Diff {
    Diff(base.Keys - target.Keys,
         map p | p in target && (p !in base || base[p] != target[p]) :: target[p])
  }

  function Apply(d: Diff, t: Tree): Tree {
    (t - d.deleted) + d.written
  }

  /** The paths a diff does not mention. */
  ghost predicate AgreeOffDiff(d: Diff, t: Tree, base: Tree) {
    forall p: Path | p !in d.deleted && p !in d.written ::
      (p in t <==> p in base) && (p in t && p in base ==> t[p] == base[p])
  }

  /** A diff copy turns exactly those folders into the target that equal the base wherever the diff is silent. */
  lemma ApplyDiff(base: Tree, target: Tree, t: Tree)
    ensures Apply(SnapshotDiff(base, target), t) == target <==> AgreeOffDiff(SnapshotDiff(base, target), t, base)
  {
    var d := SnapshotDiff(base, target);
    var r := Apply(d, t);
    assert forall p: Path :: p in r <==> p in d.written || (p in t && p !in d.deleted);
    if AgreeOffDiff(d, t, base) {
      assert r.Keys == target.Keys;
      assert r == target;
    }
    if r == target {
      forall p: Path | p !in d.deleted && p !in d.written
        ensures (p in t <==> p in base) && (p in t && p in base ==> t[p] == base[p])
      {
        assert p in r <==> p in t;
        assert p in target <==> p in base;
        assert p in t ==> r[p] == t[p];
      }
    }
  }

  /** In particular the base itself becomes the target. */
  lemma ApplyDiffToBase(base: Tree, target: Tree)
    ensures Apply(SnapshotDiff(base, target), base) == target
  {
    ApplyDiff(base, target, base);
  }
}
