// Vandermonde matrices, their inverses in closed form, and when the source's construction of that form is right.
module Vandermonde {
  import opened Gf
  import opened GfPowers
  import opened LinAlg
  import opened Poly

  // One row of powers for every point.
  ghost function Vdm(p: Vec, k: nat): (v: Matrix)
    ensures IsMatrix(v, |p|, k)
    ensures forall r :: 0 <= r < |p| ==> v[r] == PowerRow(p[r], k)
  {
    seq(|p|, r requires 0 <= r < |p| => PowerRow(p[r], k))
  }

  function Sum(x: Vec, y: Vec): (s: Vec)
    requires |x| == |y|
    ensures |s| == |x| && forall i :: 0 <= i < |x| ==> s[i] == Add(x[i], y[i])
  {
    seq(|x|, i requires 0 <= i < |x| => Add(x[i], y[i]))
  }

  lemma SumIsScaled(x: Vec, y: Vec, i: nat)
    requires |x| == |y| && i < |x|
    ensures Sum(x, y)[i] == Add(x[i], Mul(1, y[i]))
  {
    hide *;
    MulZero(y[i]);
  }

  lemma DotSum(v: Vec, x: Vec, y: Vec, n: nat)
    requires n == |v| == |x| == |y|
    ensures Dot(v, Sum(x, y), n) == Add(Dot(v, x, n), Dot(v, y, n))
  {
    hide Dot, Mul, Add, Sum;
    forall i | 0 <= i < n
      ensures Sum(x, y)[i] == Add(x[i], Mul(1, y[i]))
    {
      SumIsScaled(x, y, i);
    }
    DotAddScaled(Sum(x, y), x, 1, y, v, n);
    DotComm(v, Sum(x, y), n);
    DotComm(v, x, n);
    DotComm(v, y, n);
    MulZero(Dot(y, v, n));
  }

  // k values at k distinct points determine k coefficients.
  lemma VdmInjective(p: Vec, x: Vec, y: Vec)
    requires |p| == |x| == |y| && Distinct(p)
    requires MatVec(Vdm(p, |p|), x) == MatVec(Vdm(p, |p|), y)
    ensures x == y
  {
    hide Dot, Mul, Add, Eval, Sum, Vdm;
    var k := |p|;
    var d := Sum(x, y);
    forall r | 0 <= r < k
      ensures Eval(d, 0, p[r]) == 0
    {
      var v := PowerRow(p[r], k);
      assert MatVec(Vdm(p, k), x)[r] == Dot(v, x, k) && MatVec(Vdm(p, k), y)[r] == Dot(v, y, k);
      DotSum(v, x, y, k);
      PowerRowDot(d, p[r]);
      AddZero(Dot(v, x, k), Dot(v, y, k));
    }
    RootBound(d, p);
    forall i | 0 <= i < k
      ensures x[i] == y[i]
    {
      assert d[i] == 0;
      AddZero(x[i], y[i]);
    }
  }

  // ---- the closed form --------------------------------------------------------

  // Column r holds the quotient of c by x - p[r], divided by its value at p[r].
  ghost function Lagrange(p: Vec, c: Vec): (w: Matrix)
    requires |c| == |p| + 1
    ensures IsMatrix(w, |p|, |p|)
    ensures forall i, r {:trigger w[i][r]} :: 0 <= i < |p| && 0 <= r < |p| ==> w[i][r] == LagrangeCell(c, p[r], i)
  {
    seq(|p|, i requires 0 <= i < |p| => seq(|p|, r requires 0 <= r < |p| => LagrangeCell(c, p[r], i)))
  }

  ghost function LagrangeCell(c: Vec, q: gf, i: nat): gf
    requires i + 1 < |c|
  {
    Mul(Inv(Eval(Quotient(c, q), 0, q)), Quotient(c, q)[i])
  }

  // c is monic and vanishes at every point.
  ghost predicate Vanishes(c: Vec, p: Vec)
  {
    |c| == |p| + 1 && c[|p|] == 1 && forall r :: 0 <= r < |p| ==> Eval(c, 0, p[r]) == 0
  }

  lemma QuotientTop(c: Vec, q: gf)
    requires |c| >= 2 && c[|c| - 1] == 1
    ensures Quotient(c, q)[|c| - 2] == 1
  {
    hide Mul, Add;
    MulZero(q);
    AddLaws(1, 0, 0);
    EvalUnfold(c, |c| - 1, q);
    EvalEnd(c, q);
  }

  lemma QuotientElsewhere(c: Vec, p: Vec, r: nat, s: nat)
    requires Vanishes(c, p) && Distinct(p) && r < |p| && s < |p| && r != s
    ensures Eval(Quotient(c, p[r]), 0, p[s]) == 0
  {
    hide Mul, Add, Eval;
    var e := Eval(Quotient(c, p[r]), 0, p[s]);
    Division(c, p[r], p[s], 0);
    AddLaws(0, 0, 0);
    AddZero(p[s], p[r]);
    if e != 0 {
      MulNonzero(Add(p[s], p[r]), e);
    }
  }

  lemma QuotientAtPoint(c: Vec, p: Vec, r: nat)
    requires Vanishes(c, p) && Distinct(p) && r < |p|
    ensures Eval(Quotient(c, p[r]), 0, p[r]) != 0
  {
    hide Mul, Add, Eval;
    var b := Quotient(c, p[r]);
    QuotientTop(c, p[r]);
    if Eval(b, 0, p[r]) == 0 {
      forall s | 0 <= s < |p|
        ensures Eval(b, 0, p[s]) == 0
      {
        if s != r {
          QuotientElsewhere(c, p, r, s);
        }
      }
      RootBound(b, p);
    }
  }

  lemma LagrangeColumn(p: Vec, c: Vec, r: nat)
    requires |c| == |p| + 1 && r < |p|
    ensures forall i :: 0 <= i < |p| ==>
      Column(Lagrange(p, c), r, |p|, |p|)[i] == Mul(Inv(Eval(Quotient(c, p[r]), 0, p[r])), Quotient(c, p[r])[i])
  {
    hide Mul, Inv, Eval, Quotient, Lagrange;
  }

  lemma PowerRowScaled(w: Vec, s: gf, b: Vec, x: gf)
    requires |w| == |b| && forall i :: 0 <= i < |b| ==> w[i] == Mul(s, b[i])
    ensures Dot(PowerRow(x, |b|), w, |b|) == Mul(s, Eval(b, 0, x))
  {
    hide *;
    var v := PowerRow(x, |b|);
    DotScaled(w, s, b, v, |b|);
    DotComm(v, w, |b|);
    DotComm(v, b, |b|);
    PowerRowDot(b, x);
  }

  // Row s of the matrix times column r of the closed form.
  lemma LagrangeProduct(p: Vec, c: Vec, s: nat, r: nat)
    requires |c| == |p| + 1 && r < |p| && s < |p|
    ensures Dot(PowerRow(p[s], |p|), Column(Lagrange(p, c), r, |p|, |p|), |p|)
         == Mul(Inv(Eval(Quotient(c, p[r]), 0, p[r])), Eval(Quotient(c, p[r]), 0, p[s]))
  {
    hide Dot, Mul, Add, Eval, Inv, Lagrange, Pow, Column, Quotient, PowerRow, LagrangeCell;
    LagrangeColumn(p, c, r);
    PowerRowScaled(Column(Lagrange(p, c), r, |p|, |p|), Inv(Eval(Quotient(c, p[r]), 0, p[r])), Quotient(c, p[r]), p[s]);
  }

  lemma LagrangeRightInverse(p: Vec, c: Vec, y: Vec)
    requires Vanishes(c, p) && Distinct(p) && |y| == |p|
    ensures MatVec(Vdm(p, |p|), MatVec(Lagrange(p, c), y)) == y
  {
    hide Dot, Mul, Add, Eval, Inv, Lagrange, Vdm, Pow;
    var k, w := |p|, Lagrange(p, c);
    forall s | 0 <= s < k
      ensures Dot(Vdm(p, k)[s], MatVec(w, y), k) == y[s]
    {
      var v := PowerRow(p[s], k);
      forall r | 0 <= r < k
        ensures RowMat(v, w, k, k)[r] == Unit(s, k)[r]
      {
        LagrangeProduct(p, c, s, r);
        if r == s {
          QuotientAtPoint(c, p, r);
          InvLaw(Eval(Quotient(c, p[r]), 0, p[r]));
        } else {
          QuotientElsewhere(c, p, r, s);
          MulZero(Inv(Eval(Quotient(c, p[r]), 0, p[r])));
        }
      }
      assert RowMat(v, w, k, k) == Unit(s, k);
      DotAssoc(v, w, y, k);
      DotComm(Unit(s, k), y, k);
      DotUnit(y, s, k, k);
    }
  }

  lemma LagrangeInverse(p: Vec, c: Vec)
    requires Vanishes(c, p) && Distinct(p)
    ensures Inverse(Vdm(p, |p|), Lagrange(p, c), |p|)
  {
    hide MatVec, Dot, Vanishes, Distinct, Lagrange, Vdm;
    var k := |p|;
    LagrangeShape(p, c);
    var v, w := Vdm(p, k), Lagrange(p, c);
    forall x: Vec, y: Vec | |x| == k && |y| == k
      ensures MatVec(v, x) == y <==> MatVec(w, y) == x
    {
      LagrangeRightInverse(p, c, y);
      if MatVec(v, x) == y {
        VdmInjective(p, x, MatVec(w, y));
      }
    }
  }

  lemma LagrangeShape(p: Vec, c: Vec)
    requires Vanishes(c, p)
    ensures |c| == |p| + 1
  {}

  // ---- the product polynomial, and the source's way of building it ------------

  function TimesCoefficient(c: Vec, q: gf, i: nat): gf
    requires i <= |c|
  {
    Add(if i == 0 then 0 else c[i - 1], if i == |c| then 0 else Mul(q, c[i]))
  }

  // c times x + q.
  function TimesLinear(c: Vec, q: gf): (m: Vec)
    ensures |m| == |c| + 1
    ensures forall i :: 0 <= i < |m| ==> m[i] == TimesCoefficient(c, q, i)
  {
    seq(|c| + 1, i requires 0 <= i <= |c| => TimesCoefficient(c, q, i))
  }

  lemma {:induction false} EvalTimesLinear(c: Vec, q: gf, z: gf, i: nat)
    requires i <= |c|
    ensures Eval(TimesLinear(c, q), i, z) == Add(if i == 0 then 0 else c[i - 1], Mul(Add(z, q), Eval(c, i, z)))
    decreases |c| - i
  {
    hide Mul, Add, Eval, TimesLinear;
    var m := TimesLinear(c, q);
    EvalUnfold(m, i, z);
    var l: gf := if i == 0 then 0 else c[i - 1];
    if i == |c| {
      EvalEnd(m, z);
      EvalEnd(c, z);
      MulZero(z);
      MulZero(Add(z, q));
      AddLaws(l, 0, 0);
      AddLaws(Add(l, 0), 0, 0);
    } else {
      EvalTimesLinear(c, q, z, i + 1);
      EvalUnfold(c, i, z);
      TimesLinearStep(l, c[i], q, z, Eval(c, i + 1, z));
    }
  }

  lemma TimesLinearStep(l: gf, a: gf, q: gf, z: gf, e: gf)
    ensures Add(Add(l, Mul(q, a)), Mul(z, Add(a, Mul(Add(z, q), e)))) == Add(l, Mul(Add(z, q), Add(a, Mul(z, e))))
  {
    hide *;
    var h := Mul(Add(z, q), e);
    MulAddRight(z, a, h);
    MulAddRight(Add(z, q), a, Mul(z, e));
    MulAddLeft(z, q, a);
    MulAssoc(Add(z, q), z, e);
    MulComm(Add(z, q), z);
    MulAssoc(z, Add(z, q), e);
    // (l + qa) + (za + zh) == l + ((za + qa) + zh)
    AddLaws(l, Mul(q, a), Add(Mul(z, a), Mul(z, h)));
    AddLaws(Mul(q, a), Mul(z, a), Mul(z, h));
    AddLaws(Mul(q, a), Mul(z, a), 0);
  }

  // The product of x + p[i] over the first n points.
  function Product(p: Vec, n: nat): (c: Vec)
    requires 1 <= n <= |p|
    ensures |c| == n + 1
  {
    if n == 1 then [p[0], 1] else TimesLinear(Product(p, n - 1), p[n - 1])
  }

  lemma LinearVanishes(q: gf)
    ensures Eval([q, 1], 0, q) == 0
  {
    hide Mul, Add, Eval;
    EvalUnfold([q, 1], 0, q);
    EvalUnfold([q, 1], 1, q);
    EvalEnd([q, 1], q);
    MulZero(q);
    AddLaws(1, 0, 0);
    AddLaws(q, 0, 0);
  }

  lemma TimesLinearVanishes(c: Vec, q: gf, z: gf)
    requires z == q || Eval(c, 0, z) == 0
    ensures Eval(TimesLinear(c, q), 0, z) == 0
  {
    hide Mul, Add, Eval, TimesLinear;
    EvalTimesLinear(c, q, z, 0);
    AddZero(z, q);
    MulZero(Eval(c, 0, z));
    MulZero(Add(z, q));
    AddLaws(0, 0, 0);
  }

  lemma {:induction false} ProductVanishes(p: Vec, n: nat)
    requires 1 <= n <= |p|
    ensures Product(p, n)[n] == 1
    ensures forall r :: 0 <= r < n ==> Eval(Product(p, n), 0, p[r]) == 0
  {
    hide Mul, Add, Eval, TimesLinear;
    if n == 1 {
      LinearVanishes(p[0]);
    } else {
      ProductVanishes(p, n - 1);
      AddLaws(1, 0, 0);
      forall r | 0 <= r < n
        ensures Eval(Product(p, n), 0, p[r]) == 0
      {
        TimesLinearVanishes(Product(p, n - 1), p[n - 1], p[r]);
      }
    }
  }

  // What the source computes: its inner loop starts one place late, so from the second factor on the constant term
  // is never written.
  function Dropped(p: Vec, n: nat): (c: Vec)
    requires 1 <= n <= |p|
    ensures |c| == n + 1
  {
    if n == 1 then [p[0], 1] else TimesLinear(Dropped(p, n - 1), p[n - 1])[0 := 0]
  }

  lemma {:induction false} DroppedMonic(p: Vec, n: nat)
    requires 1 <= n <= |p|
    ensures Dropped(p, n)[n] == 1
  {
    hide Mul, Add, TimesLinear;
    if n > 1 {
      DroppedMonic(p, n - 1);
      AddLaws(1, 0, 0);
    }
  }

  // The two agree as soon as one of the first two points is 0.
  lemma {:induction false} DroppedIsProduct(p: Vec, n: nat)
    requires 2 <= n <= |p| && (p[0] == 0 || p[1] == 0)
    ensures Dropped(p, n) == Product(p, n) && Product(p, n)[0] == 0
  {
    hide Mul, Add, TimesLinear;
    var q := p[n - 1];
    if n == 2 {
      MulZero(p[0]);
      MulZero(p[1]);
    } else {
      DroppedIsProduct(p, n - 1);
      MulZero(q);
    }
    AddLaws(0, 0, 0);
    assert Product(p, n)[0] == Add(0, Mul(q, Product(p, n - 1)[0]));
  }

  // Otherwise their coefficients two below the top differ by p[0] * p[1].
  lemma {:induction false} DroppedDiffers(p: Vec, n: nat)
    requires 2 <= n <= |p|
    ensures Dropped(p, n)[n - 1] == Product(p, n)[n - 1]
    ensures Add(Dropped(p, n)[n - 2], Product(p, n)[n - 2]) == Mul(p[0], p[1])
  {
    hide Mul, Add, TimesLinear;
    var q := p[n - 1];
    var c, d := Product(p, n - 1), Dropped(p, n - 1);
    DroppedMonic(p, n - 1);
    ProductVanishes(p, n - 1);
    if n == 2 {
      MulComm(p[0], p[1]);
      AddLaws(Mul(p[1], p[0]), 0, 0);
    } else {
      DroppedDiffers(p, n - 1);
      var s := Mul(q, c[n - 2]);
      assert Product(p, n)[n - 2] == Add(c[n - 3], s);
      assert Dropped(p, n)[n - 2] == Add(d[n - 3], s);
      AddSwap(d[n - 3], s, c[n - 3], s);
      AddLaws(s, 0, 0);
      AddLaws(Add(d[n - 3], c[n - 3]), 0, 0);
    }
  }

  // The product of z + p[i] for 2 <= i < n.
  function Factors(p: Vec, n: nat, z: gf): gf
    requires n <= |p|
  {
    if n <= 2 then 1 else Mul(Add(z, p[n - 1]), Factors(p, n - 1, z))
  }

  // What comes of it: from the first two factors z (z + p[0] + p[1]), and every other factor as it should be.
  lemma {:induction false} DroppedClosed(p: Vec, n: nat, z: gf)
    requires 2 <= n <= |p|
    ensures Dropped(p, n)[0] == 0
    ensures Eval(Dropped(p, n), 0, z) == Mul(Mul(z, Add(z, Add(p[0], p[1]))), Factors(p, n, z))
  {
    hide Mul, Add, Eval, TimesLinear;
    var q, first := p[n - 1], Mul(z, Add(z, Add(p[0], p[1])));
    if n == 2 {
      DroppedTwo(p, z);
      MulZero(first);
    } else {
      DroppedClosed(p, n - 1, z);
      var d := Dropped(p, n - 1);
      MulZero(q);
      AddLaws(0, 0, 0);
      assert TimesLinear(d, q)[0] == 0;
      assert Dropped(p, n) == TimesLinear(d, q);
      EvalTimesLinear(d, q, z, 0);
      AddLaws(Mul(Add(z, q), Eval(d, 0, z)), 0, 0);
      MulAssoc(Add(z, q), first, Factors(p, n - 1, z));
      MulComm(Add(z, q), first);
      MulAssoc(first, Add(z, q), Factors(p, n - 1, z));
    }
  }

  lemma DroppedTwo(p: Vec, z: gf)
    requires |p| >= 2
    ensures Eval(Dropped(p, 2), 0, z) == Mul(z, Add(z, Add(p[0], p[1])))
    ensures Dropped(p, 2) == [0, Add(p[0], p[1]), 1]
  {
    hide Mul, Add, Eval, TimesLinear;
    var c := Dropped(p, 2);
    assert Dropped(p, 1) == [p[0], 1];
    MulZero(p[1]);
    AddLaws(1, 0, 0);
    assert c == [0, Add(p[0], p[1]), 1];
    EvalUnfold(c, 0, z);
    EvalUnfold(c, 1, z);
    EvalUnfold(c, 2, z);
    EvalEnd(c, z);
    MulZero(z);
    AddLaws(Add(p[0], p[1]), z, 0);
    AddLaws(Mul(z, Add(z, Add(p[0], p[1]))), 0, 0);
  }

  // ---- exactly when the source's closed form is an inverse --------------------

  lemma {:induction false} EvalTail(c: Vec, d: Vec, i: nat, x: gf)
    requires i <= |c| == |d| && forall j :: i <= j < |c| ==> c[j] == d[j]
    ensures Eval(c, i, x) == Eval(d, i, x)
    decreases |c| - i
  {
    hide Mul, Add;
    if i < |c| {
      EvalTail(c, d, i + 1, x);
    }
  }

  // The constant term of the product polynomial plays no part.
  lemma LagrangeTail(p: Vec, c: Vec, d: Vec)
    requires |c| == |d| == |p| + 1 && forall j :: 1 <= j < |c| ==> c[j] == d[j]
    ensures Lagrange(p, c) == Lagrange(p, d)
  {
    hide Mul, Inv, Eval;
    forall q: gf
      ensures Quotient(c, q) == Quotient(d, q)
    {
      forall i | 0 <= i < |p|
        ensures Quotient(c, q)[i] == Quotient(d, q)[i]
      {
        EvalTail(c, d, i + 1, q);
      }
    }
    forall i | 0 <= i < |p|
      ensures Lagrange(p, c)[i] == Lagrange(p, d)[i]
    {
      forall r | 0 <= r < |p|
        ensures Lagrange(p, c)[i][r] == Lagrange(p, d)[i][r]
      {
        assert LagrangeCell(c, p[r], i) == LagrangeCell(d, p[r], i);
      }
    }
  }

  lemma DroppedSuffices(p: Vec)
    requires |p| >= 2 && Distinct(p) && (|p| == 2 || p[0] == 0 || p[1] == 0)
    ensures Inverse(Vdm(p, |p|), Lagrange(p, Dropped(p, |p|)), |p|)
  {
    hide Eval, Mul, Add, Lagrange, Inverse, Dropped, Product, Distinct;
    var k := |p|;
    ProductVanishes(p, k);
    LagrangeInverse(p, Product(p, k));
    DroppedMonic(p, k);
    DroppedDiffers(p, k);
    if p[0] == 0 || p[1] == 0 {
      DroppedIsProduct(p, k);
    }
    LagrangeTail(p, Dropped(p, k), Product(p, k));
  }

  lemma {:induction false} EvalDifference(b: Vec, c: Vec, e: Vec, i: nat, z: gf)
    requires |b| == |c| == |e| + 1 && b[|e|] == c[|e|] && i <= |e|
    requires forall j :: 0 <= j < |e| ==> e[j] == Add(b[j], c[j])
    ensures Eval(e, i, z) == Add(Eval(b, i, z), Eval(c, i, z))
    decreases |e| - i
  {
    hide Mul, Add, Eval;
    EvalUnfold(b, i, z);
    EvalUnfold(c, i, z);
    if i == |e| {
      EvalEnd(e, z);
      EvalEnd(b, z);
      EvalEnd(c, z);
      AddZero(Eval(b, i, z), Eval(c, i, z));
    } else {
      EvalDifference(b, c, e, i + 1, z);
      EvalUnfold(e, i, z);
      var x, y := Eval(b, i + 1, z), Eval(c, i + 1, z);
      MulAddRight(z, x, y);
      AddSwap(b[i], Mul(z, x), c[i], Mul(z, y));
    }
  }

  // Two monic polynomials of one degree with as many common roots as that degree are the same.
  lemma MonicDetermined(b: Vec, c: Vec, p: Vec)
    requires |b| == |c| == |p| + 1 && b[|p|] == c[|p|] == 1 && Distinct(p)
    requires forall i :: 0 <= i < |p| ==> Eval(b, 0, p[i]) == 0 && Eval(c, 0, p[i]) == 0
    ensures b == c
  {
    hide Mul, Add, Eval, Distinct;
    var n := |p|;
    var e := Sum(b[..n], c[..n]);
    AddLaws(0, 0, 0);
    forall i | 0 <= i < n
      ensures Eval(e, 0, p[i]) == 0
    {
      EvalDifference(b, c, e, 0, p[i]);
    }
    RootBound(e, p);
    forall j | 0 <= j < n
      ensures b[j] == c[j]
    {
      assert e[j] == 0;
      AddZero(b[j], c[j]);
    }
  }

  // If the closed form built from d inverts, its column 0 comes from a polynomial with the right roots.
  lemma InverseColumnVanishes(p: Vec, d: Vec, s: nat)
    requires |d| == |p| + 1 && Inverse(Vdm(p, |p|), Lagrange(p, d), |p|) && 1 <= s < |p|
    ensures Eval(Quotient(d, p[0]), 0, p[s]) == 0
  {
    hide Mul, Add, Eval, Inv, Lagrange, Vdm, Quotient, Dot, Inverse, Column, LagrangeCell;
    var k := |p|;
    InverseEntries(Vdm(p, k), Lagrange(p, d), k, s, 0);
    InverseEntries(Vdm(p, k), Lagrange(p, d), k, 0, 0);
    LagrangeProduct(p, d, s, 0);
    LagrangeProduct(p, d, 0, 0);
    var b := Quotient(d, p[0]);
    var u, e := Inv(Eval(b, 0, p[0])), Eval(b, 0, p[s]);
    MulZero(Eval(b, 0, p[0]));
    if e != 0 {
      MulNonzero(u, e);
    }
  }

  lemma QuotientDetermines(c: Vec, d: Vec, q: gf, i: nat)
    requires |c| == |d| && 1 <= i < |c| && Quotient(c, q) == Quotient(d, q)
    ensures c[i] == d[i]
  {
    hide Mul, Add, Eval;
    EvalUnfold(c, i, q);
    EvalUnfold(d, i, q);
    EvalEnd(c, q);
    EvalEnd(d, q);
    assert Quotient(c, q)[i - 1] == Quotient(d, q)[i - 1];
    assert i < |c| - 1 ==> Quotient(c, q)[i] == Quotient(d, q)[i];
    var m := Mul(q, Eval(c, i + 1, q));
    AddLaws(m, m, 0);
    AddLaws(c[i], m, m);
    AddLaws(d[i], m, m);
    AddLaws(c[i], 0, 0);
    AddLaws(d[i], 0, 0);
  }

  lemma DroppedNecessary(p: Vec)
    requires |p| > 2 && Distinct(p) && p[0] != 0 && p[1] != 0
    ensures !Inverse(Vdm(p, |p|), Lagrange(p, Dropped(p, |p|)), |p|)
  {
    hide Mul, Add, Eval, Inv, Lagrange, Vdm, Quotient, Inverse, Dropped, Product;
    var k, c, d := |p|, Product(p, |p|), Dropped(p, |p|);
    if Inverse(Vdm(p, k), Lagrange(p, d), k) {
      ProductVanishes(p, k);
      DroppedMonic(p, k);
      QuotientTop(c, p[0]);
      QuotientTop(d, p[0]);
      forall i | 0 <= i < k - 1
        ensures Eval(Quotient(d, p[0]), 0, p[1..][i]) == 0 && Eval(Quotient(c, p[0]), 0, p[1..][i]) == 0
      {
        InverseColumnVanishes(p, d, i + 1);
        QuotientElsewhere(c, p, 0, i + 1);
      }
      MonicDetermined(Quotient(d, p[0]), Quotient(c, p[0]), p[1..]);
      QuotientDetermines(c, d, p[0], k - 2);
      DroppedDiffers(p, k);
      AddZero(d[k - 2], c[k - 2]);
      MulNonzero(p[0], p[1]);
    }
  }

  // The closed form the source computes inverts the matrix exactly when there are at most two points or one of the
  // first two is 0.
  lemma DroppedExact(p: Vec)
    requires |p| >= 2 && Distinct(p)
    ensures Inverse(Vdm(p, |p|), Lagrange(p, Dropped(p, |p|)), |p|) <==> |p| == 2 || p[0] == 0 || p[1] == 0
  {
    hide *;
    if |p| == 2 || p[0] == 0 || p[1] == 0 {
      DroppedSuffices(p);
    } else {
      DroppedNecessary(p);
    }
  }

  // Three points for which it fails.
  lemma DroppedFails()
    ensures Distinct([1, 2, 3]) && !Inverse(Vdm([1, 2, 3], 3), Lagrange([1, 2, 3], Dropped([1, 2, 3], 3)), 3)
  {
    hide Inverse, Vdm, Lagrange, Dropped;
    DroppedExact([1, 2, 3]);
  }
}
