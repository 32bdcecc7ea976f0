/**
  Exact three-dimensional vectors over the reals, standing in for Unity's
  single-precision Vector3. Only the operations the splitter uses are given:
  component-wise addition, subtraction and division, negation, scaling, the
  dot and cross products, and the sum and mean of a list of positions.
 */
module Vectors {

  datatype Vec3 = Vec3(x: real, y: real, z: real)

  const Zero: Vec3 := Vec3(0.0, 0.0, 0.0)

  function Add(a: Vec3, b: Vec3): Vec3 {
    Vec3(a.x + b.x, a.y + b.y, a.z + b.z)
  }

  function Sub(a: Vec3, b: Vec3): Vec3 {
    Vec3(a.x - b.x, a.y - b.y, a.z - b.z)
  }

  function Neg(a: Vec3): Vec3 {
    Vec3(-a.x, -a.y, -a.z)
  }

  function Scale(k: real, a: Vec3): Vec3 {
    Vec3(k * a.x, k * a.y, k * a.z)
  }

  /** Vector3 / float: every component divided by `k`. */
  function Div(a: Vec3, k: real): Vec3
    requires k != 0.0
  {
    Vec3(a.x / k, a.y / k, a.z / k)
  }

  function Dot(a: Vec3, b: Vec3): real {
    a.x * b.x + a.y * b.y + a.z * b.z
  }

  function Cross(a: Vec3, b: Vec3): Vec3 {
    Vec3(a.y * b.z - a.z * b.y, a.z * b.x - a.x * b.z, a.x * b.y - a.y * b.x)
  }

  /** The running total `acc += vs[i]` of a loop over `vs`, starting from zero. */
  function Sum(vs: seq<Vec3>): Vec3
    decreases |vs|
  {
    if |vs| == 0 then Zero else Add(Sum(vs[..|vs| - 1]), vs[|vs| - 1])
  }

  /** The arithmetic mean: the sum divided by the number of positions. */
  function Mean(vs: seq<Vec3>): Vec3
    requires |vs| > 0
  {
    Div(Sum(vs), |vs| as real)
  }

  /** Every position moved by `-m`. */
  function Shift(vs: seq<Vec3>, m: Vec3): (r: seq<Vec3>)
    ensures |r| == |vs|
  {
    seq(|vs|, i requires 0 <= i < |vs| => Sub(vs[i], m))
  }

  /** Exchanging the two operands of the cross product negates it. */
  lemma CrossAntiCommutes(a: Vec3, b: Vec3)
    ensures Cross(b, a) == Neg(Cross(a, b))
  {
  }

  /** The winding test of a face flips sign when its two edges are exchanged. */
  lemma SwapFlipsWinding(a: Vec3, b: Vec3, view: Vec3)
    ensures Dot(Cross(b, a), view) == -Dot(Cross(a, b), view)
  {
    CrossAntiCommutes(a, b);
  }

  /** Edge vectors of a face do not change when all its corners move together. */
  lemma EdgeTranslationInvariant(a: Vec3, c: Vec3, m: Vec3)
    ensures Sub(Sub(a, m), Sub(c, m)) == Sub(a, c)
  {
  }

  /** Summing the shifted positions equals shifting the sum once per position. */
  lemma {:induction false} SumShift(vs: seq<Vec3>, m: Vec3)
    ensures Sum(Shift(vs, m)) == Sub(Sum(vs), Scale(|vs| as real, m))
    decreases |vs|
  {
    if |vs| > 0 {
      var n := |vs|;
      var init, last := vs[..n - 1], vs[n - 1];
      var sh := Shift(vs, m);
      assert sh[..n - 1] == Shift(init, m);
      assert sh[n - 1] == Sub(last, m);
      SumShift(init, m);
      var k := (n - 1) as real;
      ScaleSucc(k, m);
      SubAddSub(Sum(init), last, Scale(k, m), m);
    }
  }

  lemma ScaleSucc(k: real, m: Vec3)
    ensures Scale(k + 1.0, m) == Add(Scale(k, m), m)
  {
  }

  lemma SubAddSub(a: Vec3, b: Vec3, c: Vec3, d: Vec3)
    ensures Add(Sub(a, c), Sub(b, d)) == Sub(Add(a, b), Add(c, d))
  {
  }

  /** Moving a list of positions onto its own mean leaves a list whose sum is zero. */
  lemma CentredSumIsZero(vs: seq<Vec3>)
    requires |vs| > 0
    ensures Sum(Shift(vs, Mean(vs))) == Zero
  {
    var k := |vs| as real;
    SumShift(vs, Mean(vs));
    ScaleDiv(Sum(vs), k);
  }

  lemma ScaleDiv(s: Vec3, k: real)
    requires k != 0.0
    ensures Scale(k, Div(s, k)) == s
  {
    assert k * (s.x / k) == s.x;
    assert k * (s.y / k) == s.y;
    assert k * (s.z / k) == s.z;
  }

  /** Seen from `p`, the mean of a list is the mean of its positions seen from `p`. */
  lemma MeanShift(vs: seq<Vec3>, p: Vec3)
    requires |vs| > 0
    ensures Sub(Mean(vs), p) == Mean(Shift(vs, p))
  {
    var k := |vs| as real;
    SumShift(vs, p);
    DivSubScaledVec(Sum(vs), p, k);
  }

  lemma DivSubScaledVec(s: Vec3, p: Vec3, k: real)
    requires k > 0.0
    ensures Div(Sub(s, Scale(k, p)), k) == Sub(Div(s, k), p)
  {
    DivSubScaled(s.x, p.x, k);
    DivSubScaled(s.y, p.y, k);
    DivSubScaled(s.z, p.z, k);
  }

  lemma DivSubScaled(s: real, p: real, k: real)
    requires k > 0.0
    ensures (s - k * p) / k == s / k - p
  {
    calc {
      (s - k * p) / k;
      s / k - (k * p) / k;
      s / k - p;
    }
  }

  /** Dot products distribute over the sum of a list, so they keep a common sign. */
  lemma {:induction false} DotSumSign(n: Vec3, ws: seq<Vec3>)
    ensures (forall i :: 0 <= i < |ws| ==> Dot(n, ws[i]) > 0.0) && |ws| > 0 ==> Dot(n, Sum(ws)) > 0.0
    ensures (forall i :: 0 <= i < |ws| ==> Dot(n, ws[i]) <= 0.0) ==> Dot(n, Sum(ws)) <= 0.0
    decreases |ws|
  {
    if |ws| > 0 {
      var init := ws[..|ws| - 1];
      DotSumSign(n, init);
      assert Dot(n, Sum(ws)) == Dot(n, Sum(init)) + Dot(n, ws[|ws| - 1]);
      if forall i :: 0 <= i < |ws| ==> Dot(n, ws[i]) > 0.0 {
        if |init| == 0 {
          assert Sum(init) == Zero;
        } else {
          assert forall i :: 0 <= i < |init| ==> Dot(n, init[i]) > 0.0 by {
            forall i | 0 <= i < |init| ensures Dot(n, init[i]) > 0.0 {
              assert init[i] == ws[i];
            }
          }
        }
      }
      if forall i :: 0 <= i < |ws| ==> Dot(n, ws[i]) <= 0.0 {
        assert forall i :: 0 <= i < |init| ==> Dot(n, init[i]) <= 0.0 by {
          forall i | 0 <= i < |init| ensures Dot(n, init[i]) <= 0.0 {
            assert init[i] == ws[i];
          }
        }
      }
    }
  }

  /** Dividing by a positive count keeps the sign of a dot product. */
  lemma DotDivSign(n: Vec3, w: Vec3, k: real)
    requires k > 0.0
    ensures Dot(n, Div(w, k)) == Dot(n, w) / k
    ensures Dot(n, w) > 0.0 <==> Dot(n, Div(w, k)) > 0.0
  {
    assert n.x * (w.x / k) == (n.x * w.x) / k;
    assert n.y * (w.y / k) == (n.y * w.y) / k;
    assert n.z * (w.z / k) == (n.z * w.z) / k;
  }
}
