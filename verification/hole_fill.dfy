/**
  Step 2 of `AsteroidSplitter.Cut`: closing one side's hole with a fan. A
  new vertex is placed at the mean of the non-manifold ends, and every
  recorded edge (consecutive pair of the non-manifold list) becomes one
  triangle with that vertex, wound so that its normal does not point
  against the side's view direction (`-planeNormal` on the left,
  `planeNormal` on the right).
 */
module HoleFill {
  import opened Vectors
  import opened VertexList
  import opened Partition

  /** The face `(c, a, b)`, wound in that order, has a normal with no component against `view`. */
  predicate FacesAlong(c: Vec3, a: Vec3, b: Vec3, view: Vec3) {
    Dot(Cross(Sub(a, c), Sub(b, c)), view) >= 0.0
  }

  /** The triangle at `at` joins the vertex `ci` to the edge `(e0, e1)`, in one of the two windings. */
  predicate FanTriangle(tris: seq<int>, at: int, ci: int, e0: int, e1: int)
    requires 0 <= at && at + 3 <= |tris|
  {
    && tris[at] == ci
    && ((tris[at + 1] == e0 && tris[at + 2] == e1) || (tris[at + 1] == e1 && tris[at + 2] == e0))
  }

  /** The mean of the non-manifold ends, each counted as often as it was recorded. */
  method FanCentre(verts: seq<Vec3>, edges: seq<int>) returns (c: Vec3)
    requires |edges| > 0 && InRange(edges, |verts|)
    ensures c == Mean(Resolve(verts, edges))
  {
    ghost var ps := Resolve(verts, edges);
    var acc := Zero;
    var i := 0;
    while i < |edges|
      invariant 0 <= i <= |edges|
      invariant acc == Sum(ps[..i])
    {
      acc := Add(acc, verts[edges[i]]);
      assert ps[..i + 1][..i] == ps[..i];
      i := i + 1;
    }
    assert ps[..|edges|] == ps;
    c := Div(acc, |edges| as real);
  }

  /** Keeping the recorded order unless its face would point against `view` gives a face along `view`. */
  lemma ChosenWindingFacesAlong(c: Vec3, a: Vec3, b: Vec3, view: Vec3)
    ensures var swap := Dot(Cross(Sub(a, c), Sub(b, c)), view) < 0.0;
            FacesAlong(c, if swap then b else a, if swap then a else b, view)
  {
    SwapFlipsWinding(Sub(a, c), Sub(b, c), view);
  }

  /**
    The first `p` triangles from `base` on close the first `p` recorded
    edges: triangle `k` joins the centre `ci` (at position `c`) to edge `k`,
    wound so that it faces along `view`, and keeps the recorded order of the
    edge whenever that order already faces along `view` (a face exactly
    edge-on to `view` included).
   */
  ghost predicate Fanned(tris: seq<int>, base: nat, ci: int, c: Vec3, edges: seq<int>,
                         verts: seq<Vec3>, view: Vec3, p: nat)
    requires base + 3 * p <= |tris| && 2 * p <= |edges| && InRange(edges, |verts|)
  {
    forall k :: 0 <= k < p ==>
      && FanTriangle(tris, base + 3 * k, ci, edges[2 * k], edges[2 * k + 1])
      && FacesAlong(c, verts[tris[base + 3 * k + 1]], verts[tris[base + 3 * k + 2]], view)
      && (FacesAlong(c, verts[edges[2 * k]], verts[edges[2 * k + 1]], view) ==>
            tris[base + 3 * k + 1] == edges[2 * k] && tris[base + 3 * k + 2] == edges[2 * k + 1])
  }

  /** Appending the triangle for edge `p` extends the fan by one. */
  lemma FanStep(tris: seq<int>, base: nat, ci: int, c: Vec3, edges: seq<int>, verts: seq<Vec3>,
                view: Vec3, p: nat, x: int, y: int)
    requires |tris| == base + 3 * p && 2 * p + 2 <= |edges| && InRange(edges, |verts|)
    requires Fanned(tris, base, ci, c, edges, verts, view, p)
    requires (x, y) == (edges[2 * p], edges[2 * p + 1]) || (x, y) == (edges[2 * p + 1], edges[2 * p])
    requires FacesAlong(c, verts[x], verts[y], view)
    requires FacesAlong(c, verts[edges[2 * p]], verts[edges[2 * p + 1]], view)
        ==> (x, y) == (edges[2 * p], edges[2 * p + 1])
    ensures Fanned(tris + [ci, x, y], base, ci, c, edges, verts, view, p + 1)
  {
    var t := tris + [ci, x, y];
    forall k | 0 <= k < p + 1
      ensures FanTriangle(t, base + 3 * k, ci, edges[2 * k], edges[2 * k + 1])
      ensures FacesAlong(c, verts[t[base + 3 * k + 1]], verts[t[base + 3 * k + 2]], view)
      ensures FacesAlong(c, verts[edges[2 * k]], verts[edges[2 * k + 1]], view) ==>
                t[base + 3 * k + 1] == edges[2 * k] && t[base + 3 * k + 2] == edges[2 * k + 1]
    {
      if k < p {
        assert t[base + 3 * k] == tris[base + 3 * k];
        assert t[base + 3 * k + 1] == tris[base + 3 * k + 1];
        assert t[base + 3 * k + 2] == tris[base + 3 * k + 2];
      }
    }
  }

  /**
    Fills the hole of one side. With no recorded edge the side is returned
    as it is; otherwise exactly one vertex, the fan centre, is appended
    (taking the counter as its index) and one triangle per recorded edge is
    appended, in recorded order.
   */
  method FillHole(s: Side, view: Vec3) returns (r: Side)
    requires InRange(s.edges, |s.verts|) && |s.edges| % 2 == 0
    ensures |s.edges| == 0 ==> r == s
    ensures |s.edges| > 0 ==> r.verts == s.verts + [Mean(Resolve(s.verts, s.edges))] && r.count == s.count + 1
    ensures r.edges == s.edges
    ensures |r.tris| == |s.tris| + 3 * (|s.edges| / 2) && r.tris[..|s.tris|] == s.tris
    ensures |s.edges| > 0 ==>
              Fanned(r.tris, |s.tris|, s.count, Mean(Resolve(s.verts, s.edges)), s.edges, s.verts,
                     view, |s.edges| / 2)
  {
    if |s.edges| == 0 {
      return s;
    }
    var c := FanCentre(s.verts, s.edges);
    var ci := s.count;
    var tris := s.tris;
    var i := 0;
    ghost var p := 0;
    while i < |s.edges|
      invariant i == 2 * p && i <= |s.edges|
      invariant |tris| == |s.tris| + 3 * p && tris[..|s.tris|] == s.tris
      invariant Fanned(tris, |s.tris|, ci, c, s.edges, s.verts, view, p)
    {
      var a := s.verts[s.edges[i]];
      var b := s.verts[s.edges[i + 1]];
      var swap := Dot(Cross(Sub(a, c), Sub(b, c)), view) < 0.0;
      ChosenWindingFacesAlong(c, a, b, view);
      var x, y := s.edges[if swap then i + 1 else i], s.edges[if swap then i else i + 1];
      FanStep(tris, |s.tris|, ci, c, s.edges, s.verts, view, p, x, y);
      tris := tris + [ci, x, y];
      i, p := i + 2, p + 1;
    }
    r := Side(s.verts + [c], tris, s.edges, s.count + 1);
  }
}
