/**
  Step 1 of `AsteroidSplitter.Cut`: the loop over the mesh's triangles that
  sorts them into a left and a right side. A triangle whose corners are all
  on one side is copied there; a triangle that crosses the plane is dropped
  and the two corners on its majority side are recorded as one
  non-manifold edge of that side. Every position goes through the
  IndexOf-or-append deduplication of the side's vertex list.
 */
module Partition {
  import opened Vectors
  import opened Planes
  import opened VertexList
  import opened Meshes

  /**
    One side's accumulators: its vertex list, its triangle index list, its
    non-manifold index list (consecutive pairs are edges) and the counter
    `nVertsLeft`/`nVertsRight` kept beside the vertex list.
   */
  datatype Side = Side(verts: seq<Vec3>, tris: seq<int>, edges: seq<int>, count: int)

  const Empty: Side := Side([], [], [], 0)

  /** The counter equals the list length, positions are not repeated, and every recorded index is in range. */
  predicate Indexed(s: Side) {
    && s.count == |s.verts|
    && Distinct(s.verts)
    && InRange(s.tris, |s.verts|)
    && InRange(s.edges, |s.verts|)
  }

  /** Every vertex is used by the triangle list or the non-manifold list. */
  predicate Referenced(s: Side) {
    forall i :: 0 <= i < |s.verts| ==> i in s.tris || i in s.edges
  }

  /** Copies one corner of a whole triangle into the side's triangle list. */
  function AddCorner(s: Side, v: Vec3): (r: Side)
    ensures r.edges == s.edges && |r.tris| == |s.tris| + 1 && r.tris[..|s.tris|] == s.tris
    ensures s.verts <= r.verts && (v in s.verts ==> r.verts == s.verts)
    ensures s.count == |s.verts| ==>
              r.count == |r.verts| && 0 <= r.tris[|s.tris|] < |r.verts| && r.verts[r.tris[|s.tris|]] == v
  {
    var e := Intern(s.verts, s.count, v);
    Side(e.verts, s.tris + [e.index], s.edges, e.count)
  }

  /** Records one end of a non-manifold edge in the side's non-manifold list. */
  function AddEdgeEnd(s: Side, v: Vec3): (r: Side)
    ensures r.tris == s.tris && |r.edges| == |s.edges| + 1 && r.edges[..|s.edges|] == s.edges
    ensures s.verts <= r.verts && (v in s.verts ==> r.verts == s.verts)
    ensures s.count == |s.verts| ==>
              r.count == |r.verts| && 0 <= r.edges[|s.edges|] < |r.verts| && r.verts[r.edges[|s.edges|]] == v
  {
    var e := Intern(s.verts, s.count, v);
    Side(e.verts, s.tris, s.edges + [e.index], e.count)
  }

  /**
    Copying one corner keeps the side well indexed, extends the resolved
    triangle list by that position and leaves the resolved edge list alone.
   */
  lemma CornerAdded(s: Side, v: Vec3)
    requires Indexed(s)
    ensures Indexed(AddCorner(s, v))
    ensures Resolve(AddCorner(s, v).verts, AddCorner(s, v).tris) == Resolve(s.verts, s.tris) + [v]
    ensures Resolve(AddCorner(s, v).verts, AddCorner(s, v).edges) == Resolve(s.verts, s.edges)
    ensures Referenced(s) ==> Referenced(AddCorner(s, v))
  {
    var e := Intern(s.verts, s.count, v);
    ResolveExtend(s.verts, e.verts, s.tris);
    ResolveExtend(s.verts, e.verts, s.edges);
    ResolveSnoc(e.verts, s.tris, e.index);
  }

  /**
    Recording one edge end keeps the side well indexed, extends the resolved
    edge list by that position and leaves the resolved triangle list alone.
   */
  lemma EdgeEndAdded(s: Side, v: Vec3)
    requires Indexed(s)
    ensures Indexed(AddEdgeEnd(s, v))
    ensures Resolve(AddEdgeEnd(s, v).verts, AddEdgeEnd(s, v).tris) == Resolve(s.verts, s.tris)
    ensures Resolve(AddEdgeEnd(s, v).verts, AddEdgeEnd(s, v).edges) == Resolve(s.verts, s.edges) + [v]
    ensures Referenced(s) ==> Referenced(AddEdgeEnd(s, v))
  {
    var e := Intern(s.verts, s.count, v);
    ResolveExtend(s.verts, e.verts, s.tris);
    ResolveExtend(s.verts, e.verts, s.edges);
    ResolveSnoc(e.verts, s.edges, e.index);
  }

  /**
    The side holds the positions `cs` in its triangle list and `bs` in its
    non-manifold list, each position once in its vertex list, and nothing else.
   */
  ghost predicate Tracks(s: Side, cs: seq<Vec3>, bs: seq<Vec3>) {
    && Indexed(s)
    && Resolve(s.verts, s.tris) == cs
    && Resolve(s.verts, s.edges) == bs
    && Referenced(s)
  }

  /**
    After the first `n` triangles, side `side` holds exactly the copied
    corners and the boundary corners of the reference description, each
    position once, and nothing else.
   */
  ghost predicate Accounts(s: Side, ts: seq<Tri>, side: bool, n: nat)
    requires n <= |ts|
  {
    Tracks(s, Copied(ts, side, n), Boundary(ts, side, n))
  }

  /** Copies the three corners of a whole triangle, in corner order. */
  function CopyCorners(s: Side, t: Tri): Side {
    AddCorner(AddCorner(AddCorner(s, t.v0), t.v1), t.v2)
  }

  /** Records `v` as an edge end when `take` holds. */
  function AddEdgeEndIf(s: Side, v: Vec3, take: bool): Side {
    if take then AddEdgeEnd(s, v) else s
  }

  /** Records the corners of a dropped triangle that lie on `side`, in corner order. */
  function RecordEdge(s: Side, t: Tri, side: bool): Side {
    AddEdgeEndIf(AddEdgeEndIf(AddEdgeEndIf(s, t.v0, t.s0 == side), t.v1, t.s1 == side), t.v2, t.s2 == side)
  }

  lemma TracksCorner(s: Side, cs: seq<Vec3>, bs: seq<Vec3>, v: Vec3)
    requires Tracks(s, cs, bs)
    ensures Tracks(AddCorner(s, v), cs + [v], bs)
  {
    CornerAdded(s, v);
  }

  lemma TracksEdgeEnd(s: Side, cs: seq<Vec3>, bs: seq<Vec3>, v: Vec3, take: bool)
    requires Tracks(s, cs, bs)
    ensures Tracks(AddEdgeEndIf(s, v, take), cs, bs + (if take then [v] else []))
  {
    if take {
      EdgeEndAdded(s, v);
    } else {
      assert bs + [] == bs;
    }
  }

  /** Copying a whole triangle appends its three corners to the resolved triangle list. */
  lemma CopyWhole(s: Side, cs: seq<Vec3>, bs: seq<Vec3>, t: Tri)
    requires Tracks(s, cs, bs)
    ensures Tracks(CopyCorners(s, t), cs + [t.v0, t.v1, t.v2], bs)
  {
    TracksCorner(s, cs, bs, t.v0);
    TracksCorner(AddCorner(s, t.v0), cs + [t.v0], bs, t.v1);
    TracksCorner(AddCorner(AddCorner(s, t.v0), t.v1), cs + [t.v0] + [t.v1], bs, t.v2);
    SnocThree(cs, t.v0, t.v1, t.v2);
  }

  /** Recording a dropped triangle appends its corners on `side` to the resolved non-manifold list. */
  lemma RecordDropped(s: Side, cs: seq<Vec3>, bs: seq<Vec3>, t: Tri, side: bool)
    requires Tracks(s, cs, bs)
    ensures Tracks(RecordEdge(s, t, side), cs, bs + CornersOn(t, side))
  {
    var k0, k1, k2 := t.s0 == side, t.s1 == side, t.s2 == side;
    var x0, x1, x2 := (if k0 then [t.v0] else []), (if k1 then [t.v1] else []), (if k2 then [t.v2] else []);
    var r0 := AddEdgeEndIf(s, t.v0, k0);
    var r1 := AddEdgeEndIf(r0, t.v1, k1);
    TracksEdgeEnd(s, cs, bs, t.v0, k0);
    TracksEdgeEnd(r0, cs, bs + x0, t.v1, k1);
    TracksEdgeEnd(r1, cs, bs + x0 + x1, t.v2, k2);
    ConcatAssoc(bs, x0, x1, x2);
  }

  lemma SnocThree(a: seq<Vec3>, x: Vec3, y: Vec3, z: Vec3)
    ensures a + [x] + [y] + [z] == a + [x, y, z]
  {
  }

  lemma ConcatAssoc(a: seq<Vec3>, b: seq<Vec3>, c: seq<Vec3>, d: seq<Vec3>)
    ensures a + b + c + d == a + (b + c + d)
  {
  }

  /**
    One pass of the triangle loop's body: a triangle whose corners all lie
    on one side is copied to that side; otherwise it is dropped and its
    corners on the side holding two of them are recorded there.
   */
  function TakeTriangle(left: Side, right: Side, t: Tri): (r: (Side, Side))
    ensures r.0 == left || r.1 == right
    ensures |r.0.tris| == |left.tris| + |Whole(t, true)| && |r.1.tris| == |right.tris| + |Whole(t, false)|
    ensures |r.0.edges| == |left.edges| + |Edge(t, true)| && |r.1.edges| == |right.edges| + |Edge(t, false)|
  {
    if t.s0 == t.s1 && t.s1 == t.s2 then
      if t.s0 then (CopyCorners(left, t), right) else (left, CopyCorners(right, t))
    else
      var numOnLeft := (if t.s0 then 1 else 0) + (if t.s1 then 1 else 0) + (if t.s2 then 1 else 0);
      if numOnLeft >= 2 then (RecordEdge(left, t, true), right) else (left, RecordEdge(right, t, false))
  }

  /** One pass of the body adds to each side exactly that side's share of the triangle. */
  lemma TakeTriangleTracks(left: Side, right: Side, t: Tri, cl: seq<Vec3>, bl: seq<Vec3>,
                           cr: seq<Vec3>, br: seq<Vec3>)
    requires Tracks(left, cl, bl) && Tracks(right, cr, br)
    ensures Tracks(TakeTriangle(left, right, t).0, cl + Whole(t, true), bl + Edge(t, true))
    ensures Tracks(TakeTriangle(left, right, t).1, cr + Whole(t, false), br + Edge(t, false))
  {
    assert cl + [] == cl && bl + [] == bl && cr + [] == cr && br + [] == br;
    if AllOn(t, true) {
      CopyWhole(left, cl, bl, t);
    } else if AllOn(t, false) {
      CopyWhole(right, cr, br, t);
    } else if Majority(t) {
      RecordDropped(left, cl, bl, t, true);
    } else {
      RecordDropped(right, cr, br, t, false);
    }
  }

  /** The reference description grows by one triangle's share per triangle. */
  lemma ReferenceStep(ts: seq<Tri>, side: bool, t: nat)
    requires t < |ts|
    ensures Copied(ts, side, t + 1) == Copied(ts, side, t) + Whole(ts[t], side)
    ensures Boundary(ts, side, t + 1) == Boundary(ts, side, t) + Edge(ts[t], side)
  {
  }

  /** One pass of the loop keeps both sides in step with the reference description. */
  lemma TakeTriangleAccounts(left: Side, right: Side, ts: seq<Tri>, t: nat)
    requires t < |ts|
    requires Accounts(left, ts, true, t) && Accounts(right, ts, false, t)
    ensures Accounts(TakeTriangle(left, right, ts[t]).0, ts, true, t + 1)
    ensures Accounts(TakeTriangle(left, right, ts[t]).1, ts, false, t + 1)
  {
    ReferenceStep(ts, true, t);
    ReferenceStep(ts, false, t);
    TakeTriangleTracks(left, right, ts[t],
      Copied(ts, true, t), Boundary(ts, true, t), Copied(ts, false, t), Boundary(ts, false, t));
  }

  /**
    The triangle loop: triangle `t` occupies indices `3 * t` to `3 * t + 2`
    and is classified, then copied or dropped, in turn.
   */
  method PartitionLoop(m: Mesh, pl: Plane) returns (left: Side, right: Side)
    requires Valid(m)
    ensures Accounts(left, Triangles(m, pl), true, TriCount(m))
    ensures Accounts(right, Triangles(m, pl), false, TriCount(m))
  {
    ghost var ts := Triangles(m, pl);
    left, right := Empty, Empty;
    var t := 0;
    while t < |m.triangles| / 3
      invariant t <= |ts|
      invariant Accounts(left, ts, true, t) && Accounts(right, ts, false, t)
    {
      TriangleAt(m, pl, t);
      TakeTriangleAccounts(left, right, ts, t);
      var next := TakeTriangle(left, right, Classify(m, pl, t));
      left, right := next.0, next.1;
      t := t + 1;
    }
    assert t == |ts|;
  }

  /** A side that tracks `cs` and `bs` holds exactly their positions. */
  lemma TracksMembers(s: Side, cs: seq<Vec3>, bs: seq<Vec3>)
    requires Tracks(s, cs, bs)
    ensures forall u :: u in s.verts <==> u in cs + bs
  {
    forall u
      ensures u in s.verts <==> u in cs + bs
    {
      if u in s.verts {
        var i :| 0 <= i < |s.verts| && s.verts[i] == u;
        if i in s.tris {
          var k :| 0 <= k < |s.tris| && s.tris[k] == i;
          assert cs[k] == u;
        } else {
          var k :| 0 <= k < |s.edges| && s.edges[k] == i;
          assert bs[k] == u;
        }
      }
      if u in cs {
        var k :| 0 <= k < |cs| && cs[k] == u;
        assert s.verts[s.tris[k]] == u;
      }
      if u in bs {
        var k :| 0 <= k < |bs| && bs[k] == u;
        assert s.verts[s.edges[k]] == u;
      }
    }
  }

  /**
    The partition's outcome for one side, read off its own lists: whole
    triangles and edges, exactly the positions the reference description
    hands to that side, and as many vertices as there are distinct such
    positions.
   */
  lemma PartitionShape(s: Side, ts: seq<Tri>, side: bool)
    requires Accounts(s, ts, side, |ts|)
    ensures |s.tris| % 3 == 0 && |s.edges| % 2 == 0
    ensures forall u :: u in s.verts <==> u in Copied(ts, side, |ts|) + Boundary(ts, side, |ts|)
    ensures |s.verts| == |Reached(ts, side)|
  {
    var cs, bs := Copied(ts, side, |ts|), Boundary(ts, side, |ts|);
    CopiedTriples(ts, side, |ts|);
    BoundaryPairs(ts, side, |ts|);
    var w, d := CountWhole(ts, side, |ts|), CountDropped(ts, side, |ts|);
    assert (3 * w) % 3 == 0 && (2 * d) % 2 == 0;
    TracksMembers(s, cs, bs);
    DistinctCardinality(s.verts);
    assert (set u | u in s.verts) == Reached(ts, side);
  }

  /** Every vertex of a side that tracks `cs` and `bs` is one of their positions. */
  lemma TracksSides(s: Side, cs: seq<Vec3>, bs: seq<Vec3>, pl: Plane, side: bool)
    requires Tracks(s, cs, bs)
    requires OnSide(pl, cs, side) && OnSide(pl, bs, side)
    ensures OnSide(pl, s.verts, side)
  {
    forall i | 0 <= i < |s.verts|
      ensures GetSide(pl, s.verts[i]) == side
    {
      if i in s.tris {
        var k :| 0 <= k < |s.tris| && s.tris[k] == i;
        assert cs[k] == s.verts[i];
      } else {
        var k :| 0 <= k < |s.edges| && s.edges[k] == i;
        assert bs[k] == s.verts[i];
      }
    }
  }

  /** Every vertex the partition gives a side lies on that side of the plane. */
  lemma PartitionSides(s: Side, ts: seq<Tri>, pl: Plane, side: bool)
    requires Classified(ts, pl)
    requires Accounts(s, ts, side, |ts|)
    ensures OnSide(pl, s.verts, side)
  {
    CornersLieOnTheirSide(ts, pl, side, |ts|);
    TracksSides(s, Copied(ts, side, |ts|), Boundary(ts, side, |ts|), pl, side);
  }
}
