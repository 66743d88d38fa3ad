// The systematic generator matrix: which rows it has, and why any k of them determine the data.
module Generator {
  import opened Gf
  import opened GfPowers
  import opened LinAlg
  import opened Poly
  import opened Vandermonde

  // The points 0, 1, alpha, alpha^2, ...
  function Point(r: nat): gf
  {
    if r == 0 then 0 else Exp(r - 1)
  }

  // They are 0 and then the successive powers of 2, which is the root x of the polynomial.
  lemma PointsAreSuccessive(r: nat)
    ensures Point(0) == 0 && Point(1) == 1 && Point(2) == 2
    ensures r >= 1 ==> Point(r + 1) == Mul(2, Point(r))
  {
    hide Mul;
    assert Exp(0) == 1 && Exp(1) == 2;
    if r >= 1 {
      ExpAdd(1, r - 1);
    }
  }

  function Points(k: nat): (p: Vec)
    ensures |p| == k && forall r :: 0 <= r < k ==> p[r] == Point(r)
  {
    seq(k, r requires 0 <= r => Point(r))
  }

  lemma PointsDiffer(r: nat, s: nat)
    requires r < 256 && s < 256 && r != s
    ensures Point(r) != Point(s)
  {
    hide Exp;
    var i, j := if r < s then r else s, if r < s then s else r;
    if i == 0 {
      ExpNonzero(j - 1);
    } else {
      ExpInjective(i - 1, j - 1);
    }
  }

  lemma PointsDistinct(k: nat)
    requires k <= 256
    ensures Distinct(Points(k))
  {
    hide Point;
    forall i, j | 0 <= i < j < k
      ensures Points(k)[i] != Points(k)[j]
    {
      PointsDiffer(i, j);
    }
  }

  ghost function Top(k: nat): (v: Matrix)
    ensures IsMatrix(v, k, k) && forall r :: 0 <= r < k ==> v[r] == PowerRow(Point(r), k)
  {
    Vdm(Points(k), k)
  }

  // The inverse of the top k rows, as the source computes it.
  ghost function TopInverse(k: nat): (w: Matrix)
    requires k >= 1
    ensures IsMatrix(w, k, k)
  {
    if k == 1 then [[1]] else Lagrange(Points(k), Dropped(Points(k), k))
  }

  lemma TopInverseInverts(k: nat)
    requires 1 <= k <= 256
    ensures Inverse(Top(k), TopInverse(k), k)
  {
    hide Inverse, Lagrange, Dropped, Distinct, Mul;
    PointsDistinct(k);
    if k == 1 {
      OneByOne();
    } else {
      DroppedExact(Points(k));
    }
  }

  lemma OneByOne()
    ensures Inverse(Top(1), [[1]], 1)
  {
    hide Dot, Mul;
    assert Top(1) == [[1]] by { TopOne(); }
    forall x: Vec | |x| == 1
      ensures MatVec([[1]], x) == x
    {
      DotOne(x);
    }
  }

  lemma TopOne()
    ensures Top(1) == [[1]]
  {
    assert Top(1)[0] == [1];
  }

  lemma DotOne(x: Vec)
    requires |x| == 1
    ensures Dot([1], x, 1) == x[0]
  {
    hide Mul, Add;
    MulZero(x[0]);
    AddLaws(x[0], 0, 0);
    assert Dot([1], x, 0) == 0;
  }

  ghost function GeneratorRow(r: nat, k: nat): (g: Vec)
    requires k >= 1
    ensures |g| == k
  {
    if r < k then Unit(r, k) else RowMat(PowerRow(Point(r), k), TopInverse(k), k, k)
  }

  // The generator times the top of the Vandermonde matrix is the Vandermonde matrix.
  lemma GeneratorIsVandermonde(r: nat, k: nat, z: Vec)
    requires 1 <= k <= 256 && |z| == k
    ensures Dot(GeneratorRow(r, k), MatVec(Top(k), z), k) == Dot(PowerRow(Point(r), k), z, k)
  {
    hide Dot, Mul, Add, TopInverse, Point, Pow;
    var y := MatVec(Top(k), z);
    if r < k {
      DotComm(Unit(r, k), y, k);
      DotUnit(y, r, k, k);
    } else {
      TopInverseInverts(k);
      assert MatVec(TopInverse(k), y) == z;
      DotAssoc(PowerRow(Point(r), k), TopInverse(k), y, k);
    }
  }

  ghost predicate Indices(idx: seq<nat>, k: nat, n: nat)
  {
    && |idx| == k && (forall i :: 0 <= i < k ==> idx[i] < n)
    && forall i, j :: 0 <= i < j < k ==> idx[i] != idx[j]
  }

  ghost function Selection(idx: seq<nat>, k: nat): (m: Matrix)
    requires k >= 1 && |idx| == k
    ensures IsMatrix(m, k, k) && forall i :: 0 <= i < k ==> m[i] == GeneratorRow(idx[i], k)
  {
    seq(k, i requires 0 <= i < k => GeneratorRow(idx[i], k))
  }

  // Any k different rows of the generator are independent.
  lemma MaximumDistance(idx: seq<nat>, k: nat)
    requires 1 <= k <= 256 && Indices(idx, k, 256)
    ensures !Singular(Selection(idx, k), k)
  {
    hide Dot, Mul, Add, TopInverse, Point, Pow, Eval, GeneratorRow, Top, Inverse;
    var m := Selection(idx, k);
    forall x: Vec | |x| == k && MatVec(m, x) == Zeros(k)
      ensures x == Zeros(k)
    {
      TopInverseInverts(k);
      var z := TopPreimage(k, x);
      var p: Vec := seq(k, i requires 0 <= i < k => Point(idx[i]));
      forall i | 0 <= i < k
        ensures Eval(z, 0, p[i]) == 0
      {
        assert MatVec(m, x)[i] == 0;
        GeneratorIsVandermonde(idx[i], k, z);
        PowerRowDot(z, p[i]);
      }
      forall i, j | 0 <= i < j < k
        ensures p[i] != p[j]
      {
        PointsDiffer(idx[i], idx[j]);
      }
      RootBound(z, p);
      MatVecZeros(Top(k), k);
    }
  }

  lemma TopPreimage(k: nat, x: Vec) returns (z: Vec)
    requires 1 <= k <= 256 && |x| == k
    ensures |z| == k && MatVec(Top(k), z) == x
  {
    hide Dot, TopInverse, Top;
    TopInverseInverts(k);
    z := MatVec(TopInverse(k), x);
  }

  // The rows of an invertible selection are different: for each two some x gives them different values.
  lemma InvertibleRowsDiffer(idx: seq<nat>, k: nat, b: Matrix, i: nat, j: nat)
    requires k >= 1 && |idx| == k && IsMatrix(b, k, k) && i < j < k && Inverse(Selection(idx, k), b, k)
    ensures idx[i] != idx[j]
  {
    hide Dot, GeneratorRow;
    var m := Selection(idx, k);
    var x := MatVec(b, Unit(i, k));
    assert MatVec(m, x) == Unit(i, k);
    assert MatVec(m, x)[i] != MatVec(m, x)[j];
  }

  // ---- what the code is, apart from how its matrix is made ----------------------

  // The coefficients z take the values y at the first k points.
  ghost predicate Interpolates(z: Vec, y: Vec, k: nat)
  {
    |z| == k && |y| == k && forall i :: 0 <= i < k ==> Eval(z, 0, Point(i)) == y[i]
  }

  // There is one polynomial of degree below k through the first k values, and no other.
  lemma Interpolant(y: Vec, k: nat) returns (z: Vec)
    requires 1 <= k <= 256 && |y| == k
    ensures Interpolates(z, y, k) && forall w: Vec :: Interpolates(w, y, k) ==> w == z
  {
    hide Dot, TopInverse, Point, Eval, Top;
    z := TopPreimage(k, y);
    InterpolatesTop(z, y, k);
    forall w: Vec | Interpolates(w, y, k)
      ensures w == z
    {
      InterpolatesTop(w, y, k);
      PointsDistinct(k);
      TopIsVdm(k);
      VdmInjective(Points(k), w, z);
    }
  }

  lemma TopIsVdm(k: nat)
    ensures Top(k) == Vdm(Points(k), k)
  {}

  lemma InterpolatesTop(z: Vec, y: Vec, k: nat)
    requires |z| == k && |y| == k
    ensures Interpolates(z, y, k) <==> MatVec(Top(k), z) == y
  {
    hide Dot, Point, Eval;
    forall i | 0 <= i < k
      ensures MatVec(Top(k), z)[i] == Eval(z, 0, Point(i))
    {
      PowerRowDot(z, Point(i));
    }
    if MatVec(Top(k), z) == y {
      assert forall i :: 0 <= i < k ==> MatVec(Top(k), z)[i] == y[i];
    }
    if Interpolates(z, y, k) {
      assert MatVec(Top(k), z) == y;
    }
  }

  // Row r of the generator times the values at the first k points is the value at point r.
  lemma GeneratorEvaluates(r: nat, k: nat, y: Vec, z: Vec)
    requires 1 <= k <= 256 && Interpolates(z, y, k)
    ensures Dot(GeneratorRow(r, k), y, k) == Eval(z, 0, Point(r))
  {
    hide Dot, Point, Eval, Interpolates, GeneratorRow;
    InterpolatesSizes(z, y, k);
    InterpolatesTop(z, y, k);
    GeneratorIsVandermonde(r, k, z);
    PowerRowDot(z, Point(r));
  }

  lemma InterpolatesSizes(z: Vec, y: Vec, k: nat)
    requires Interpolates(z, y, k)
    ensures |z| == k && |y| == k
  {}
}
