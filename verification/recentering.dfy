/**
  Step 3 of `AsteroidSplitter.Cut`: moving a side's vertices onto their own
  centroid, so that the new asteroid's origin lies inside its volume.
 */
module Recentering {
  import opened Vectors

  /**
    Computes the mean of the vertices and subtracts it from every vertex.
    The source divides by the vertex count even when it is zero (a NaN
    offset); here the offset of an empty list is the zero vector.
   */
  method Recenter(verts: seq<Vec3>) returns (shifted: seq<Vec3>, offset: Vec3)
    ensures |shifted| == |verts|
    ensures forall i :: 0 <= i < |verts| ==> Add(shifted[i], offset) == verts[i]
    ensures Sum(shifted) == Zero
    ensures |verts| > 0 ==> offset == Mean(verts)
  {
    var acc := Zero;
    var i := 0;
    while i < |verts|
      invariant 0 <= i <= |verts|
      invariant acc == Sum(verts[..i])
    {
      acc := Add(acc, verts[i]);
      assert verts[..i + 1][..i] == verts[..i];
      i := i + 1;
    }
    assert verts[..|verts|] == verts;
    offset := if |verts| > 0 then Div(acc, |verts| as real) else Zero;
    shifted := [];
    i := 0;
    while i < |verts|
      invariant 0 <= i <= |verts|
      invariant shifted == Shift(verts[..i], offset)
    {
      shifted := shifted + [Sub(verts[i], offset)];
      i := i + 1;
    }
    assert verts[..|verts|] == verts;
    if |verts| > 0 {
      CentredSumIsZero(verts);
    }
  }
}
