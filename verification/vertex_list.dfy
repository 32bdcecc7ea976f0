/**
  The per-side vertex list of the splitter: a `List<Vector3>` searched with
  `IndexOf` (exact equality) and appended to only when a position is new,
  together with the counter `nVertsLeft`/`nVertsRight` that the splitter
  keeps beside it and hands out as the new vertex's index.
 */
module VertexList {
  import opened Vectors

  /** No position occurs twice. */
  predicate Distinct(vs: seq<Vec3>) {
    forall i, j :: 0 <= i < j < |vs| ==> vs[i] != vs[j]
  }

  /** Every index names an element of a list of length `n`. */
  predicate InRange(idx: seq<int>, n: int) {
    forall k :: 0 <= k < |idx| ==> 0 <= idx[k] < n
  }

  /** The positions an index list refers to, in index-list order. */
  function Resolve(vs: seq<Vec3>, idx: seq<int>): (r: seq<Vec3>)
    requires InRange(idx, |vs|)
    ensures |r| == |idx|
  {
    seq(|idx|, k requires 0 <= k < |idx| => vs[idx[k]])
  }

  /** `List.IndexOf`: the first index holding `v`, or -1 when there is none. */
  function IndexOf(vs: seq<Vec3>, v: Vec3): (r: int)
    ensures r == -1 <==> v !in vs
    ensures r != -1 ==> 0 <= r < |vs| && vs[r] == v && v !in vs[..r]
    decreases |vs|
  {
    if |vs| == 0 then -1
    else if vs[0] == v then 0
    else
      var k := IndexOf(vs[1..], v);
      if k == -1 then -1 else k + 1
  }

  /** The vertex list, the counter beside it, and the index handed out for one position. */
  datatype Interned = Interned(verts: seq<Vec3>, count: int, index: int)

  /**
    Looks `v` up with IndexOf; when it is absent appends it and hands out the
    counter (post-incremented), otherwise hands out the index found.
   */
  function Intern(verts: seq<Vec3>, count: int, v: Vec3): (r: Interned)
    ensures r.count - |r.verts| == count - |verts|
    ensures count == |verts| ==> 0 <= r.index < |r.verts| && r.verts[r.index] == v
    ensures verts <= r.verts && |r.verts| <= |verts| + 1
    ensures v in verts ==> r.verts == verts
    ensures Distinct(verts) ==> Distinct(r.verts)
    ensures forall u :: u in r.verts <==> u in verts || u == v
  {
    var found := IndexOf(verts, v);
    if found == -1 then Interned(verts + [v], count + 1, count)
    else Interned(verts, count, found)
  }

  /** Appending to a list does not change what in-range indices refer to. */
  lemma ResolveExtend(vs: seq<Vec3>, ws: seq<Vec3>, idx: seq<int>)
    requires vs <= ws
    requires InRange(idx, |vs|)
    ensures InRange(idx, |ws|)
    ensures Resolve(ws, idx) == Resolve(vs, idx)
  {
  }

  /** Resolving one more index extends the resolved list by that index's position. */
  lemma ResolveSnoc(vs: seq<Vec3>, idx: seq<int>, k: int)
    requires InRange(idx, |vs|)
    requires 0 <= k < |vs|
    ensures InRange(idx + [k], |vs|)
    ensures Resolve(vs, idx + [k]) == Resolve(vs, idx) + [vs[k]]
  {
    assert InRange(idx + [k], |vs|);
    assert Resolve(vs, idx + [k]) == Resolve(vs, idx) + [vs[k]];
  }

  /** A list without repetitions has as many elements as the set of its elements. */
  lemma {:induction false} DistinctCardinality(vs: seq<Vec3>)
    requires Distinct(vs)
    ensures |set v | v in vs| == |vs|
    decreases |vs|
  {
    if |vs| > 0 {
      var init := vs[..|vs| - 1];
      var last := vs[|vs| - 1];
      assert Distinct(init);
      DistinctCardinality(init);
      assert last !in init;
      assert vs == init + [last];
      assert (set v | v in vs) == (set v | v in init) + {last};
    }
  }
}
