/**
  The input mesh, its triangles as the splitter's loop body sees them, and
  a reference description, triangle by triangle, of what the partition
  loop hands to each side: the corner positions of the triangles it copies
  and the boundary ("non-manifold") corners it records for the triangles
  it drops.
 */
module Meshes {
  import opened Vectors
  import opened Planes
  import opened VertexList

  /** Unity's `Mesh`: vertex positions and a flat index list, three per triangle. */
  datatype Mesh = Mesh(vertices: seq<Vec3>, triangles: seq<int>)

  /** Whole triangles only, and every index names a vertex. */
  predicate Valid(m: Mesh) {
    |m.triangles| % 3 == 0 && InRange(m.triangles, |m.vertices|)
  }

  function TriCount(m: Mesh): nat {
    |m.triangles| / 3
  }

  /**
    One pass of the loop body's first step: the corner positions
    `vertices[p[j]]` of a triangle and their sides `side[j]`.
   */
  datatype Tri = Tri(v0: Vec3, v1: Vec3, v2: Vec3, s0: bool, s1: bool, s2: bool)

  /** The corners of the triangle starting at index `3 * t`, classified against the plane. */
  function Classify(m: Mesh, pl: Plane, t: nat): (r: Tri)
    requires Valid(m) && t < TriCount(m)
    ensures SidesOf(r, pl)
    ensures r.v0 in m.vertices && r.v1 in m.vertices && r.v2 in m.vertices
  {
    var v0, v1, v2 := m.vertices[m.triangles[3 * t]], m.vertices[m.triangles[3 * t + 1]],
        m.vertices[m.triangles[3 * t + 2]];
    Tri(v0, v1, v2, GetSide(pl, v0), GetSide(pl, v1), GetSide(pl, v2))
  }

  /** Every triangle of the mesh, classified, in index-list order. */
  function Triangles(m: Mesh, pl: Plane): (ts: seq<Tri>)
    requires Valid(m)
    ensures |ts| == TriCount(m)
    ensures Classified(ts, pl)
  {
    seq(TriCount(m), t requires 0 <= t < TriCount(m) => Classify(m, pl, t))
  }

  lemma TriangleAt(m: Mesh, pl: Plane, t: nat)
    requires Valid(m) && t < TriCount(m)
    ensures Triangles(m, pl)[t] == Classify(m, pl, t)
  {
  }

  /** The recorded side of every corner is that corner's side of the plane. */
  predicate SidesOf(t: Tri, pl: Plane) {
    t.s0 == GetSide(pl, t.v0) && t.s1 == GetSide(pl, t.v1) && t.s2 == GetSide(pl, t.v2)
  }

  predicate Classified(ts: seq<Tri>, pl: Plane) {
    forall t :: 0 <= t < |ts| ==> SidesOf(ts[t], pl)
  }

  /** All three corners lie on side `s`. */
  predicate AllOn(t: Tri, s: bool) {
    t.s0 == s && t.s1 == s && t.s2 == s
  }

  /** The corners do not all lie on one side. */
  predicate Straddles(t: Tri) {
    !(t.s0 == t.s1 && t.s1 == t.s2)
  }

  function NumOnLeft(t: Tri): nat {
    (if t.s0 then 1 else 0) + (if t.s1 then 1 else 0) + (if t.s2 then 1 else 0)
  }

  /** The side holding at least two corners: `true` when two or three are on the left. */
  predicate Majority(t: Tri) {
    NumOnLeft(t) >= 2
  }

  /** The corners on side `s`, in corner order. */
  function CornersOn(t: Tri, s: bool): seq<Vec3> {
    (if t.s0 == s then [t.v0] else [])
      + (if t.s1 == s then [t.v1] else [])
      + (if t.s2 == s then [t.v2] else [])
  }

  /** What a triangle contributes to the copied corners of side `s`. */
  function Whole(t: Tri, s: bool): seq<Vec3> {
    if AllOn(t, s) then [t.v0, t.v1, t.v2] else []
  }

  /** What a triangle contributes to the boundary corners of side `s`. */
  function Edge(t: Tri, s: bool): (r: seq<Vec3>)
    ensures Straddles(t) && Majority(t) == s ==> r == CornersOn(t, s)
  {
    if !Straddles(t) || Majority(t) != s then []
    else if t.s0 != s then [t.v1, t.v2]
    else if t.s1 != s then [t.v0, t.v2]
    else [t.v0, t.v1]
  }

  /** Corner positions of the first `n` triangles that lie wholly on side `s`, in order. */
  function Copied(ts: seq<Tri>, s: bool, n: nat): seq<Vec3>
    requires n <= |ts|
  {
    if n == 0 then [] else Copied(ts, s, n - 1) + Whole(ts[n - 1], s)
  }

  /**
    Boundary corners on side `s` of the first `n` triangles: for each dropped
    triangle whose majority is `s`, its corners on `s`, in order.
   */
  function Boundary(ts: seq<Tri>, s: bool, n: nat): seq<Vec3>
    requires n <= |ts|
  {
    if n == 0 then [] else Boundary(ts, s, n - 1) + Edge(ts[n - 1], s)
  }

  /** Every position side `s` receives from the partition. */
  function Reached(ts: seq<Tri>, s: bool): set<Vec3> {
    set v | v in Copied(ts, s, |ts|) + Boundary(ts, s, |ts|)
  }

  /** How many of the first `n` triangles lie wholly on side `s`. */
  function CountWhole(ts: seq<Tri>, s: bool, n: nat): nat
    requires n <= |ts|
  {
    if n == 0 then 0 else CountWhole(ts, s, n - 1) + (if AllOn(ts[n - 1], s) then 1 else 0)
  }

  /** How many of the first `n` triangles are dropped with their majority on side `s`. */
  function CountDropped(ts: seq<Tri>, s: bool, n: nat): nat
    requires n <= |ts|
  {
    if n == 0 then 0
    else CountDropped(ts, s, n - 1) + (if Straddles(ts[n - 1]) && Majority(ts[n - 1]) == s then 1 else 0)
  }

  /** A dropped triangle leaves exactly two corners, both on its majority side. */
  lemma StraddleLeavesAnEdge(t: Tri)
    requires Straddles(t)
    ensures |CornersOn(t, Majority(t))| == 2
    ensures CornersOn(t, !Majority(t)) != []
  {
  }

  /** A triangle is whole on the left, whole on the right, or dropped towards exactly one side. */
  lemma OneFate(t: Tri)
    ensures (if AllOn(t, true) then 1 else 0) + (if AllOn(t, false) then 1 else 0)
            + (if Straddles(t) && Majority(t) then 1 else 0)
            + (if Straddles(t) && !Majority(t) then 1 else 0) == 1
  {
  }

  /** Copied corners come in threes, one triple per whole triangle. */
  lemma {:induction false} CopiedTriples(ts: seq<Tri>, s: bool, n: nat)
    requires n <= |ts|
    ensures |Copied(ts, s, n)| == 3 * CountWhole(ts, s, n)
  {
    if n > 0 {
      CopiedTriples(ts, s, n - 1);
    }
  }

  /** Boundary corners come in pairs, one pair per dropped triangle. */
  lemma {:induction false} BoundaryPairs(ts: seq<Tri>, s: bool, n: nat)
    requires n <= |ts|
    ensures |Boundary(ts, s, n)| == 2 * CountDropped(ts, s, n)
  {
    if n > 0 {
      BoundaryPairs(ts, s, n - 1);
    }
  }

  /** Each triangle is counted once among the four fates. */
  lemma {:induction false} CountsAddUp(ts: seq<Tri>, n: nat)
    requires n <= |ts|
    ensures CountWhole(ts, true, n) + CountWhole(ts, false, n)
            + CountDropped(ts, true, n) + CountDropped(ts, false, n) == n
  {
    if n > 0 {
      CountsAddUp(ts, n - 1);
      OneFate(ts[n - 1]);
    }
  }

  /**
    Every triangle is accounted for exactly once: copied whole to one side or
    dropped and replaced by one boundary edge on its majority side. Copied
    corners come in threes and boundary corners in pairs.
   */
  lemma TriangleBudget(ts: seq<Tri>, n: nat)
    requires n <= |ts|
    ensures |Copied(ts, true, n)| % 3 == 0 && |Copied(ts, false, n)| % 3 == 0
    ensures |Boundary(ts, true, n)| % 2 == 0 && |Boundary(ts, false, n)| % 2 == 0
    ensures |Copied(ts, true, n)| / 3 + |Copied(ts, false, n)| / 3
            + |Boundary(ts, true, n)| / 2 + |Boundary(ts, false, n)| / 2 == n
  {
    CopiedTriples(ts, true, n);
    CopiedTriples(ts, false, n);
    BoundaryPairs(ts, true, n);
    BoundaryPairs(ts, false, n);
    CountsAddUp(ts, n);
    var wl, wr, dl, dr := CountWhole(ts, true, n), CountWhole(ts, false, n),
        CountDropped(ts, true, n), CountDropped(ts, false, n);
    assert (3 * wl) / 3 == wl && (3 * wr) / 3 == wr && (2 * dl) / 2 == dl && (2 * dr) / 2 == dr;
  }

  /** Every position in `xs` lies on side `s`. */
  predicate OnSide(pl: Plane, xs: seq<Vec3>, s: bool) {
    forall i :: 0 <= i < |xs| ==> GetSide(pl, xs[i]) == s
  }

  lemma OnSideConcat(pl: Plane, a: seq<Vec3>, b: seq<Vec3>, s: bool)
    requires OnSide(pl, a, s) && OnSide(pl, b, s)
    ensures OnSide(pl, a + b, s)
  {
  }

  /** What one classified triangle hands to side `s` lies on side `s`. */
  lemma ContributionOnSide(t: Tri, pl: Plane, s: bool)
    requires SidesOf(t, pl)
    ensures OnSide(pl, Whole(t, s), s) && OnSide(pl, Edge(t, s), s)
  {
  }

  /** Every position handed to side `s` lies on side `s` of the plane. */
  lemma {:induction false} CornersLieOnTheirSide(ts: seq<Tri>, pl: Plane, s: bool, n: nat)
    requires Classified(ts, pl) && n <= |ts|
    ensures OnSide(pl, Copied(ts, s, n), s) && OnSide(pl, Boundary(ts, s, n), s)
  {
    if n > 0 {
      CornersLieOnTheirSide(ts, pl, s, n - 1);
      ContributionOnSide(ts[n - 1], pl, s);
      OnSideConcat(pl, Copied(ts, s, n - 1), Whole(ts[n - 1], s), s);
      OnSideConcat(pl, Boundary(ts, s, n - 1), Edge(ts[n - 1], s), s);
    }
  }
}
