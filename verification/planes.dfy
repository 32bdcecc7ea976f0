/**
  The cutting plane and Unity's `Plane.GetSide` test.

  Unity builds `new Plane(inNormal, inPoint)` by normalising the normal and
  storing `d = -Dot(normal, inPoint)`; `GetSide(p)` is then the strict test
  `Dot(normal, p) + d > 0`. `Vector3.Normalize` divides by the magnitude
  only when that magnitude exceeds `Vector3.kEpsilon` (1e-5) and returns the
  zero vector otherwise. Dividing by a positive magnitude does not change the
  sign of the test, so the model tests the raw normal against `p - inPoint`
  once the normal is long enough, and puts every point on the `false` side
  when it is not. A point on the plane is on the `false` side as well.
 */
module Planes {
  import opened Vectors

  datatype Plane = Plane(point: Vec3, normal: Vec3)

  /** `Vector3.kEpsilon` squared: `Normalize` keeps a normal whose squared length exceeds this. */
  const NormaliseEpsilonSq: real := 0.0000000001

  /** `true` is the positive ("left") side, `false` the other ("right") side. */
  predicate GetSide(pl: Plane, v: Vec3)
    ensures GetSide(pl, v) ==> v != pl.point && pl.normal != Zero
  {
    Dot(pl.normal, pl.normal) > NormaliseEpsilonSq && Dot(pl.normal, Sub(v, pl.point)) > 0.0
  }

  /**
    Unity's test against the normalised normal: for a normal longer than
    `kEpsilon` it agrees with the strict test against any positive multiple
    of the normal (the unit normal among them); for a shorter one the stored
    normal is zero and no point is on the `true` side.
   */
  lemma NormalisedSide(pl: Plane, k: real, v: Vec3)
    requires k > 0.0
    ensures Dot(pl.normal, pl.normal) > NormaliseEpsilonSq ==>
              (GetSide(pl, v) <==> Dot(Scale(k, pl.normal), Sub(v, pl.point)) > 0.0)
    ensures Dot(pl.normal, pl.normal) <= NormaliseEpsilonSq ==> !GetSide(pl, v)
  {
    var w := Sub(v, pl.point);
    assert Dot(Scale(k, pl.normal), w) == k * Dot(pl.normal, w);
  }

  /**
    The mean of positions that all lie on one side lies on that side too:
    a fan centre is on the same side as the boundary it closes.
   */
  lemma MeanKeepsSide(pl: Plane, ps: seq<Vec3>, s: bool)
    requires |ps| > 0
    requires forall i :: 0 <= i < |ps| ==> GetSide(pl, ps[i]) == s
    ensures GetSide(pl, Mean(ps)) == s
  {
    if Dot(pl.normal, pl.normal) > NormaliseEpsilonSq {
      var ws := Shift(ps, pl.point);
      MeanShift(ps, pl.point);
      assert forall i :: 0 <= i < |ws| ==> ws[i] == Sub(ps[i], pl.point);
      DotSumSign(pl.normal, ws);
      DotDivSign(pl.normal, Sum(ws), |ws| as real);
    }
  }
}
