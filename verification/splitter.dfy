/**
  `AsteroidSplitter.Cut`: partitions the mesh by the plane, closes each
  side's hole with a fan, recentres each side on its own centroid and emits
  a side only when it has at least four vertices. The plane and the mesh,
  static fields of the source class, are parameters here, and instead of
  instantiating game objects the result carries, for each emitted half, its
  mesh, the offset it was moved by and the push it is given.
 */
module Splitter {
  import opened Wrappers
  import opened Vectors
  import opened Planes
  import opened VertexList
  import opened Meshes
  import opened Partition
  import opened HoleFill
  import opened Recentering

  /**
    One emitted half: recentred vertices, triangle indices, the centroid the
    vertices were moved by (added to the parent's position by the caller)
    and the velocity change along the plane normal, before the parent's
    rotation is applied.
   */
  datatype Fragment = Fragment(verts: seq<Vec3>, tris: seq<int>, offset: Vec3, push: Vec3)

  /** The left (positive) and right half; an absent half was too small to emit. */
  datatype Halves = Halves(left: Option<Fragment>, right: Option<Fragment>)

  /** Reading an index past the end of the triangle list or the vertex list throws. */
  datatype CutError = IndexOutOfRange

  /** The fragment's vertices at their positions before recentring. */
  function Restore(f: Fragment): (r: seq<Vec3>)
    ensures |r| == |f.verts|
  {
    seq(|f.verts|, i requires 0 <= i < |f.verts| => Add(f.verts[i], f.offset))
  }

  /**
    The direction a side's cap must face: out of its own half, through the
    cut and towards the other half (`-planeNormal` for the left half,
    `planeNormal` for the right one).
   */
  function ViewDir(pl: Plane, side: bool): (r: Vec3)
    ensures Dot(pl.normal, pl.normal) > 0.0 ==> (Dot(pl.normal, r) < 0.0 <==> side)
    ensures Dot(pl.normal, pl.normal) > 0.0 ==> (Dot(pl.normal, r) > 0.0 <==> !side)
  {
    if side then Neg(pl.normal) else pl.normal
  }

  /** The push a half receives: half the plane normal, away from the other half. */
  function Push(pl: Plane, side: bool): (r: Vec3)
    ensures Dot(pl.normal, pl.normal) > 0.0 ==> (Dot(pl.normal, r) > 0.0 <==> side)
    ensures Dot(pl.normal, pl.normal) > 0.0 ==> (Dot(pl.normal, r) < 0.0 <==> !side)
  {
    Scale(if side then 0.5 else -0.5, pl.normal)
  }

  /**
    `f` is side `s` after hole filling and recentring: before the shift its
    vertices are those of `s` plus, when `s` has edges, their mean; its
    triangles are those of `s` followed by one fan triangle per edge, each
    facing along `view` and keeping the edge's recorded order whenever that
    order faces along `view`; its vertices sum to zero.
   */
  ghost predicate Built(f: Fragment, s: Side, view: Vec3, push: Vec3)
    requires InRange(s.edges, |s.verts|)
  {
    var n := |f.verts|;
    && Restore(f) == (if |s.edges| > 0 then s.verts + [Mean(Resolve(s.verts, s.edges))] else s.verts)
    && Sum(f.verts) == Zero
    && |f.tris| == |s.tris| + 3 * (|s.edges| / 2)
    && f.tris[..|s.tris|] == s.tris
    && InRange(f.tris, n)
    && (forall k :: 0 <= k < |s.edges| / 2 ==>
          && FanTriangle(f.tris, |s.tris| + 3 * k, n - 1, s.edges[2 * k], s.edges[2 * k + 1])
          && FacesAlong(f.verts[n - 1], f.verts[f.tris[|s.tris| + 3 * k + 1]],
                        f.verts[f.tris[|s.tris| + 3 * k + 2]], view)
          && (FacesAlong(Restore(f)[n - 1], s.verts[s.edges[2 * k]], s.verts[s.edges[2 * k + 1]], view) ==>
                f.tris[|s.tris| + 3 * k + 1] == s.edges[2 * k]
                    && f.tris[|s.tris| + 3 * k + 2] == s.edges[2 * k + 1]))
    && f.push == push
  }

  /** The cap's winding is unchanged when the whole face is moved. */
  lemma FacesAlongTranslated(c: Vec3, a: Vec3, b: Vec3, o: Vec3, view: Vec3)
    ensures FacesAlong(Sub(c, o), Sub(a, o), Sub(b, o), view) == FacesAlong(c, a, b, view)
  {
    EdgeTranslationInvariant(a, c, o);
    EdgeTranslationInvariant(b, c, o);
  }

  /**
    A fragment whose vertices sum to zero was moved by the centroid of its
    restored vertices: the offset handed to the caller is that centroid.
   */
  lemma OffsetIsCentroid(f: Fragment)
    requires Sum(f.verts) == Zero
    ensures |f.verts| > 0 ==> f.offset == Mean(Restore(f))
  {
    var orig := Restore(f);
    if |orig| > 0 {
      var k := |orig| as real;
      assert Shift(orig, f.offset) == f.verts;
      SumShift(orig, f.offset);
      DivSubScaledVec(Sum(orig), f.offset, k);
      assert Div(Zero, k) == Zero;
    }
  }

  /** Recentring keeps each vertex's position relative to the centroid it removed. */
  lemma RestoreRecentred(verts: seq<Vec3>, f: Fragment)
    requires |f.verts| == |verts|
    requires forall i :: 0 <= i < |verts| ==> Add(f.verts[i], f.offset) == verts[i]
    ensures Restore(f) == verts
    ensures forall i :: 0 <= i < |verts| ==> f.verts[i] == Sub(verts[i], f.offset)
  {
  }

  /** The filled triangle list indexes only the filled vertex list. */
  lemma FilledInRange(s: Side, tris: seq<int>, n: nat, c: Vec3, view: Vec3)
    requires Indexed(s) && |s.edges| % 2 == 0
    requires |tris| == |s.tris| + 3 * (|s.edges| / 2) && tris[..|s.tris|] == s.tris
    requires |s.edges| == 0 ==> n == |s.verts|
    requires |s.edges| > 0 ==>
               n == |s.verts| + 1 && Fanned(tris, |s.tris|, s.count, c, s.edges, s.verts, view, |s.edges| / 2)
    ensures InRange(tris, n)
  {
    forall j | 0 <= j < |tris|
      ensures 0 <= tris[j] < n
    {
      if j < |s.tris| {
        assert tris[j] == tris[..|s.tris|][j];
      } else {
        var k := (j - |s.tris|) / 3;
        assert |s.tris| + 3 * k <= j < |s.tris| + 3 * k + 3;
        assert FanTriangle(tris, |s.tris| + 3 * k, s.count, s.edges[2 * k], s.edges[2 * k + 1]);
      }
    }
  }

  /** Every fan face keeps its centre and its winding after the vertices are recentred. */
  lemma FanFacesRecentred(s: Side, c: Vec3, f: Fragment, view: Vec3)
    requires InRange(s.edges, |s.verts|)
    requires |f.verts| == |s.verts| + 1 && |f.tris| == |s.tris| + 3 * (|s.edges| / 2)
    requires forall i :: 0 <= i < |s.verts| ==> f.verts[i] == Sub(s.verts[i], f.offset)
    requires f.verts[|s.verts|] == Sub(c, f.offset)
    requires Fanned(f.tris, |s.tris|, |s.verts|, c, s.edges, s.verts, view, |s.edges| / 2)
    ensures forall k :: 0 <= k < |s.edges| / 2 ==>
              && FanTriangle(f.tris, |s.tris| + 3 * k, |f.verts| - 1, s.edges[2 * k], s.edges[2 * k + 1])
              && FacesAlong(f.verts[|f.verts| - 1], f.verts[f.tris[|s.tris| + 3 * k + 1]],
                            f.verts[f.tris[|s.tris| + 3 * k + 2]], view)
              && (FacesAlong(c, s.verts[s.edges[2 * k]], s.verts[s.edges[2 * k + 1]], view) ==>
                    f.tris[|s.tris| + 3 * k + 1] == s.edges[2 * k]
                        && f.tris[|s.tris| + 3 * k + 2] == s.edges[2 * k + 1])
  {
    forall k | 0 <= k < |s.edges| / 2
      ensures FanTriangle(f.tris, |s.tris| + 3 * k, |f.verts| - 1, s.edges[2 * k], s.edges[2 * k + 1])
      ensures FacesAlong(f.verts[|f.verts| - 1], f.verts[f.tris[|s.tris| + 3 * k + 1]],
                         f.verts[f.tris[|s.tris| + 3 * k + 2]], view)
      ensures FacesAlong(c, s.verts[s.edges[2 * k]], s.verts[s.edges[2 * k + 1]], view) ==>
                f.tris[|s.tris| + 3 * k + 1] == s.edges[2 * k]
                    && f.tris[|s.tris| + 3 * k + 2] == s.edges[2 * k + 1]
    {
      var a, b := f.tris[|s.tris| + 3 * k + 1], f.tris[|s.tris| + 3 * k + 2];
      assert FanTriangle(f.tris, |s.tris| + 3 * k, |s.verts|, s.edges[2 * k], s.edges[2 * k + 1]);
      FacesAlongTranslated(c, s.verts[a], s.verts[b], f.offset, view);
    }
  }

  /** Recentring the filled side yields a fragment built from the side. */
  lemma BuiltAfterFill(s: Side, filled: Side, f: Fragment, view: Vec3, push: Vec3)
    requires Indexed(s) && |s.edges| % 2 == 0
    requires |s.edges| == 0 ==> filled == s
    requires |filled.tris| == |s.tris| + 3 * (|s.edges| / 2) && filled.tris[..|s.tris|] == s.tris
    requires |s.edges| > 0 ==>
               && filled.verts == s.verts + [Mean(Resolve(s.verts, s.edges))]
               && Fanned(filled.tris, |s.tris|, s.count, Mean(Resolve(s.verts, s.edges)), s.edges,
                         s.verts, view, |s.edges| / 2)
    requires |f.verts| == |filled.verts| && f.tris == filled.tris && f.push == push
    requires forall i :: 0 <= i < |filled.verts| ==> Add(f.verts[i], f.offset) == filled.verts[i]
    requires Sum(f.verts) == Zero
    ensures Built(f, s, view, push)
  {
    RestoreRecentred(filled.verts, f);
    var c := if |s.edges| > 0 then Mean(Resolve(s.verts, s.edges)) else Zero;
    FilledInRange(s, f.tris, |f.verts|, c, view);
    if |s.edges| > 0 {
      assert f.verts[|s.verts|] == Sub(filled.verts[|s.verts|], f.offset);
      FanFacesRecentred(s, c, f, view);
    }
  }

  /**
    Steps 2 to 4 for one side: fill the hole, recentre, and emit the half
    only when its vertex counter (fan centre included) is at least four.
   */
  method Finish(s: Side, view: Vec3, push: Vec3) returns (f: Option<Fragment>)
    requires Indexed(s) && |s.edges| % 2 == 0
    ensures f.Some? <==> |s.verts| + (if |s.edges| > 0 then 1 else 0) >= 4
    ensures f.Some? ==> Built(f.value, s, view, push)
  {
    var filled := FillHole(s, view);
    var shifted, offset := Recenter(filled.verts);
    if filled.count >= 4 {
      var frag := Fragment(shifted, filled.tris, offset, push);
      BuiltAfterFill(s, filled, frag, view, push);
      f := Some(frag);
    } else {
      f := None;
    }
  }

  /**
    From position `base` on, the triangles of `f` are one fan triangle per
    pair of `bs`: each joins the last vertex to two vertices before it that
    sit at the pair's original positions, faces along `view`, and lists
    them in the pair's order whenever that order already faces along `view`.
   */
  ghost predicate FanFaces(f: Fragment, base: nat, bs: seq<Vec3>, view: Vec3)
    requires InRange(f.tris, |f.verts|) && base + 3 * (|bs| / 2) <= |f.tris|
    requires |bs| >= 2 ==> |f.verts| > 0
  {
    var n := |f.verts|;
    var orig := Restore(f);
    forall k :: 0 <= k < |bs| / 2 ==>
      && f.tris[base + 3 * k] == n - 1
      && f.tris[base + 3 * k + 1] < n - 1 && f.tris[base + 3 * k + 2] < n - 1
      && ((orig[f.tris[base + 3 * k + 1]] == bs[2 * k] && orig[f.tris[base + 3 * k + 2]] == bs[2 * k + 1])
          || (orig[f.tris[base + 3 * k + 1]] == bs[2 * k + 1] && orig[f.tris[base + 3 * k + 2]] == bs[2 * k]))
      && FacesAlong(f.verts[n - 1], f.verts[f.tris[base + 3 * k + 1]],
                    f.verts[f.tris[base + 3 * k + 2]], view)
      && (FacesAlong(orig[n - 1], bs[2 * k], bs[2 * k + 1], view) ==>
            orig[f.tris[base + 3 * k + 1]] == bs[2 * k] && orig[f.tris[base + 3 * k + 2]] == bs[2 * k + 1])
  }

  /**
    What the source promises of one emitted half, stated against the
    reference description of its side: `cs` are the corners of the whole
    triangles on the side, `bs` the kept corners of the straddling ones.
    Restored to their original positions, the vertices lie on the side, the
    first triangles rebuild `cs` from non-fan vertices only, the non-fan
    vertices are pairwise distinct, the last vertex is the fan centre (the
    mean of `bs`) when there is a boundary, the offset is the centroid of
    the restored vertices, and each boundary pair becomes one fan triangle
    whose face looks out of the half through the cut (along `ViewDir`), in
    the pair's recorded order whenever that order already does. The non-fan
    vertices are exactly the positions of `cs` and `bs`, and the recentred
    vertices sum to zero.
   */
  ghost predicate HalfShape(f: Fragment, pl: Plane, side: bool, cs: seq<Vec3>, bs: seq<Vec3>) {
    var n := |f.verts|;
    var orig := Restore(f);
    var fan := if |bs| > 0 then 1 else 0;
    && n >= fan
    && InRange(f.tris, n)
    && |f.tris| == |cs| + 3 * (|bs| / 2)
    && InRange(f.tris[..|cs|], n - fan)
    && Resolve(orig, f.tris[..|cs|]) == cs
    && Distinct(orig[..n - fan])
    && (forall u :: u in orig[..n - fan] <==> u in cs + bs)
    && Sum(f.verts) == Zero
    && (n > 0 ==> f.offset == Mean(orig))
    && OnSide(pl, orig, side)
    && (fan == 1 ==> orig[n - 1] == Mean(bs))
    && FanFaces(f, |cs|, bs, ViewDir(pl, side))
    && f.push == Push(pl, side)
  }

  /**
    Positions alone fix a half's copied triangles: the index a copied corner
    uses is the only non-fan vertex at that corner's position, even when the
    fan centre sits at the same position.
   */
  lemma CopiedIndexPinned(f: Fragment, pl: Plane, side: bool, cs: seq<Vec3>, bs: seq<Vec3>, i: int, j: int)
    requires HalfShape(f, pl, side, cs, bs)
    requires 0 <= i < |cs| && 0 <= j < |f.verts| - (if |bs| > 0 then 1 else 0)
    requires Restore(f)[j] == cs[i]
    ensures f.tris[i] == j
  {
    var n, orig := |f.verts|, Restore(f);
    var lo := orig[..n - (if |bs| > 0 then 1 else 0)];
    var t := f.tris[..|cs|];
    assert t[i] == f.tris[i] && 0 <= t[i] < |lo|;
    assert Resolve(orig, t)[i] == orig[t[i]] == cs[i];
    assert lo[t[i]] == lo[j];
  }

  /**
    Side `side` of the cut of `m` by `pl`: emitted exactly when its distinct
    positions plus the fan centre (when it has a boundary) number at least
    four, and then shaped as `HalfShape` describes.
   */
  ghost predicate IsHalf(h: Option<Fragment>, m: Mesh, pl: Plane, side: bool)
    requires Valid(m)
  {
    var ts := Triangles(m, pl);
    var cs := Copied(ts, side, |ts|);
    var bs := Boundary(ts, side, |ts|);
    var fan := if |bs| > 0 then 1 else 0;
    && (h.Some? <==> |Reached(ts, side)| + fan >= 4)
    && (h.Some? ==> |h.value.verts| == |Reached(ts, side)| + fan && HalfShape(h.value, pl, side, cs, bs))
  }

  /** The fan centre of a side lies on that side, like the boundary it closes. */
  lemma FanCentreOnSide(s: Side, ts: seq<Tri>, pl: Plane, side: bool)
    requires Classified(ts, pl) && Accounts(s, ts, side, |ts|)
    requires |s.edges| > 0
    ensures GetSide(pl, Mean(Resolve(s.verts, s.edges))) == side
  {
    var bs := Resolve(s.verts, s.edges);
    PartitionSides(s, ts, pl, side);
    assert forall i :: 0 <= i < |bs| ==> bs[i] == s.verts[s.edges[i]];
    MeanKeepsSide(pl, bs, side);
  }

  /** All vertices of a built half, fan centre included, lie on the side. */
  lemma BuiltOnSide(s: Side, ts: seq<Tri>, pl: Plane, side: bool, f: Fragment)
    requires Classified(ts, pl) && Accounts(s, ts, side, |ts|)
    requires Built(f, s, ViewDir(pl, side), Push(pl, side))
    ensures OnSide(pl, Restore(f), side)
  {
    PartitionSides(s, ts, pl, side);
    if |s.edges| > 0 {
      FanCentreOnSide(s, ts, pl, side);
    }
    forall i | 0 <= i < |f.verts|
      ensures GetSide(pl, Restore(f)[i]) == side
    {
      if i < |s.verts| {
        assert Restore(f)[i] == s.verts[i];
      }
    }
  }

  /**
    Each fan triangle of a built half joins the fan centre to one boundary
    pair, faces along `view`, and keeps the pair's recorded order whenever
    that order faces along `view`.
   */
  lemma BuiltFanPairs(s: Side, f: Fragment, view: Vec3, push: Vec3)
    requires Indexed(s) && |s.edges| % 2 == 0
    requires Built(f, s, view, push)
    ensures |s.edges| >= 2 ==> |f.verts| > 0
    ensures FanFaces(f, |s.tris|, Resolve(s.verts, s.edges), view)
  {
    var n := |f.verts|;
    var orig := Restore(f);
    var bs := Resolve(s.verts, s.edges);
    assert |s.edges| > 0 ==> n == |s.verts| + 1;
    forall k | 0 <= k < |bs| / 2
      ensures f.tris[|s.tris| + 3 * k] == n - 1
      ensures f.tris[|s.tris| + 3 * k + 1] < n - 1 && f.tris[|s.tris| + 3 * k + 2] < n - 1
      ensures || (orig[f.tris[|s.tris| + 3 * k + 1]] == bs[2 * k]
                  && orig[f.tris[|s.tris| + 3 * k + 2]] == bs[2 * k + 1])
              || (orig[f.tris[|s.tris| + 3 * k + 1]] == bs[2 * k + 1]
                  && orig[f.tris[|s.tris| + 3 * k + 2]] == bs[2 * k])
      ensures FacesAlong(orig[n - 1], bs[2 * k], bs[2 * k + 1], view) ==>
                orig[f.tris[|s.tris| + 3 * k + 1]] == bs[2 * k]
                    && orig[f.tris[|s.tris| + 3 * k + 2]] == bs[2 * k + 1]
    {
      var e0, e1 := s.edges[2 * k], s.edges[2 * k + 1];
      assert FanTriangle(f.tris, |s.tris| + 3 * k, n - 1, e0, e1);
      assert orig[e0] == s.verts[e0] == bs[2 * k];
      assert orig[e1] == s.verts[e1] == bs[2 * k + 1];
    }
  }

  /** The first triangles of a built half rebuild the side's copied corners. */
  lemma BuiltCopies(s: Side, f: Fragment, view: Vec3, push: Vec3)
    requires Indexed(s) && |s.edges| % 2 == 0
    requires Built(f, s, view, push)
    ensures |s.tris| <= |f.tris|
    ensures InRange(f.tris[..|s.tris|], |s.verts|)
    ensures Resolve(Restore(f), f.tris[..|s.tris|]) == Resolve(s.verts, s.tris)
    ensures Restore(f)[..|s.verts|] == s.verts
  {
    ResolveExtend(s.verts, Restore(f), s.tris);
  }

  /** The non-fan vertices of a built half are exactly the tracked positions. */
  lemma BuiltMembers(s: Side, f: Fragment, view: Vec3, push: Vec3, cs: seq<Vec3>, bs: seq<Vec3>)
    requires Tracks(s, cs, bs) && |s.edges| % 2 == 0
    requires Built(f, s, view, push)
    ensures |s.verts| <= |f.verts|
    ensures forall u :: u in Restore(f)[..|s.verts|] <==> u in cs + bs
  {
    BuiltCopies(s, f, view, push);
    TracksMembers(s, cs, bs);
  }

  /** A half built from a side that tracks `cs` and `bs` has the promised shape. */
  lemma HalfFromTracks(s: Side, pl: Plane, side: bool, f: Fragment, cs: seq<Vec3>, bs: seq<Vec3>)
    requires Tracks(s, cs, bs) && |s.edges| % 2 == 0
    requires OnSide(pl, Restore(f), side)
    requires Built(f, s, ViewDir(pl, side), Push(pl, side))
    ensures |f.verts| == |s.verts| + (if |bs| > 0 then 1 else 0)
    ensures HalfShape(f, pl, side, cs, bs)
  {
    BuiltFanPairs(s, f, ViewDir(pl, side), Push(pl, side));
    BuiltCopies(s, f, ViewDir(pl, side), Push(pl, side));
    BuiltMembers(s, f, ViewDir(pl, side), Push(pl, side), cs, bs);
    OffsetIsCentroid(f);
    assert |f.verts| - (if |bs| > 0 then 1 else 0) == |s.verts|;
  }

  /** Gating and shaping one side the partition produced gives that side's half of the cut. */
  lemma SideIsHalf(s: Side, m: Mesh, pl: Plane, side: bool, h: Option<Fragment>)
    requires Valid(m)
    requires Accounts(s, Triangles(m, pl), side, TriCount(m))
    requires h.Some? <==> |s.verts| + (if |s.edges| > 0 then 1 else 0) >= 4
    requires h.Some? ==> Built(h.value, s, ViewDir(pl, side), Push(pl, side))
    ensures IsHalf(h, m, pl, side)
  {
    var ts := Triangles(m, pl);
    var cs, bs := Copied(ts, side, |ts|), Boundary(ts, side, |ts|);
    PartitionShape(s, ts, side);
    assert Tracks(s, cs, bs);
    if h.Some? {
      BuiltOnSide(s, ts, pl, side, h.value);
      HalfFromTracks(s, pl, side, h.value, cs, bs);
    }
  }

  /**
    When both halves are emitted they hold, between them, as many triangles
    as the mesh: each triangle survives whole on one side or becomes one
    fan triangle.
   */
  lemma HalvesKeepTriangleCount(m: Mesh, pl: Plane, l: Fragment, r: Fragment)
    requires Valid(m)
    requires IsHalf(Some(l), m, pl, true) && IsHalf(Some(r), m, pl, false)
    ensures |l.tris| / 3 + |r.tris| / 3 == TriCount(m)
  {
    var ts := Triangles(m, pl);
    var n := |ts|;
    TriangleBudget(ts, n);
    var cl, cr := Copied(ts, true, n), Copied(ts, false, n);
    var bl, br := Boundary(ts, true, n), Boundary(ts, false, n);
    assert |l.tris| == |cl| + 3 * (|bl| / 2);
    assert |r.tris| == |cr| + 3 * (|br| / 2);
    assert |l.tris| / 3 == |cl| / 3 + |bl| / 2;
    assert |r.tris| / 3 == |cr| / 3 + |br| / 2;
  }

  /**
    The whole cut. An invalid mesh (a triangle list whose length is not a
    multiple of three, or an index past the vertex list) makes the source
    throw on its first out-of-range read; the model reports it up front.
    Otherwise each side is partitioned, filled, recentred and gated, and,
    when both halves are emitted, the two together keep every triangle of
    the mesh: each one either survives whole on one side or is replaced by
    one fan triangle.
   */
  method Cut(m: Mesh, planePoint: Vec3, planeNormal: Vec3) returns (r: Result<Halves, CutError>)
    ensures r.Failure? <==> !Valid(m)
    ensures r.Success? ==> IsHalf(r.value.left, m, Plane(planePoint, planeNormal), true)
    ensures r.Success? ==> IsHalf(r.value.right, m, Plane(planePoint, planeNormal), false)
    ensures r.Success? && r.value.left.Some? && r.value.right.Some? ==>
              |r.value.left.value.tris| / 3 + |r.value.right.value.tris| / 3 == |m.triangles| / 3
  {
    if !Valid(m) {
      return Failure(IndexOutOfRange);
    }
    var pl := Plane(planePoint, planeNormal);
    var left, right := PartitionLoop(m, pl);
    PartitionShape(left, Triangles(m, pl), true);
    PartitionShape(right, Triangles(m, pl), false);
    var l := Finish(left, ViewDir(pl, true), Push(pl, true));
    var rt := Finish(right, ViewDir(pl, false), Push(pl, false));
    SideIsHalf(left, m, pl, true, l);
    SideIsHalf(right, m, pl, false, rt);
    if l.Some? && rt.Some? {
      HalvesKeepTriangleCount(m, pl, l.value, rt.value);
    }
    r := Success(Halves(l, rt));
  }
}
