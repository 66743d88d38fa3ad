// Polynomials over GF(2^8), lowest coefficient first.
module Poly {
  import opened Gf
  import opened GfPowers
  import opened LinAlg

  function Pow(x: gf, n: nat): gf
  {
    if n == 0 then 1 else Mul(x, Pow(x, n - 1))
  }

  // The value at x of the coefficients from the i-th on, by Horner's rule.
  function Eval(c: Vec, i: nat, x: gf): gf
    requires i <= |c|
    decreases |c| - i
  {
    if i == |c| then 0 else Add(c[i], Mul(x, Eval(c, i + 1, x)))
  }

  // The row 1, x, x^2, ... of a Vandermonde matrix.
  function PowerRow(x: gf, k: nat): (v: Vec)
    ensures |v| == k && forall j :: 0 <= j < k ==> v[j] == Pow(x, j)
  {
    seq(k, j requires 0 <= j => Pow(x, j))
  }

  ghost predicate Distinct(p: Vec)
  {
    forall i, j :: 0 <= i < j < |p| ==> p[i] != p[j]
  }

  // Multiplying a Vandermonde row with coefficients evaluates them.
  lemma {:induction false} DotIsEval(c: Vec, x: gf, n: nat)
    requires n <= |c|
    ensures Add(Dot(PowerRow(x, |c|), c, n), Mul(Pow(x, n), Eval(c, n, x))) == Eval(c, 0, x)
  {
    hide Mul, Add, Dot, Pow, Eval;
    if n == 0 {
      DotPowStart(x, c);
      MulZero(Eval(c, 0, x));
      AddLaws(Eval(c, 0, x), 0, 0);
    } else {
      DotIsEval(c, x, n - 1);
      var d, w, e := Dot(PowerRow(x, |c|), c, n - 1), Pow(x, n - 1), Eval(c, n, x);
      DotIsEvalStep(c, x, n);
      MulAddRight(w, c[n - 1], Mul(x, e));
      MulAssoc(w, x, e);
      MulComm(w, x);
      AddLaws(d, Mul(w, c[n - 1]), Mul(Mul(x, w), e));
    }
  }

  lemma DotPowStart(x: gf, c: Vec)
    ensures Dot(PowerRow(x, |c|), c, 0) == 0 && Pow(x, 0) == 1
  {}

  lemma DotIsEvalStep(c: Vec, x: gf, n: nat)
    requires 0 < n <= |c|
    ensures Dot(PowerRow(x, |c|), c, n) == Add(Dot(PowerRow(x, |c|), c, n - 1), Mul(Pow(x, n - 1), c[n - 1]))
    ensures Pow(x, n) == Mul(x, Pow(x, n - 1))
    ensures Eval(c, n - 1, x) == Add(c[n - 1], Mul(x, Eval(c, n, x)))
  {
    hide Mul, Add;
  }

  lemma PowerRowDot(c: Vec, x: gf)
    ensures Dot(PowerRow(x, |c|), c, |c|) == Eval(c, 0, x)
  {
    hide Dot, Mul, Add, Pow;
    DotIsEval(c, x, |c|);
    MulZero(Pow(x, |c|));
    AddLaws(Dot(PowerRow(x, |c|), c, |c|), 0, 0);
  }

  // ---- division by x - p ------------------------------------------------------

  // The quotient of c by x - p: its coefficients are the values of the tails of c at p.
  ghost function Quotient(c: Vec, p: gf): (b: Vec)
    requires |c| > 0
    ensures |b| == |c| - 1 && forall i :: 0 <= i < |b| ==> b[i] == Eval(c, i + 1, p)
  {
    seq(|c| - 1, i requires 0 <= i < |c| - 1 => Eval(c, i + 1, p))
  }

  lemma {:induction false} Division(c: Vec, p: gf, z: gf, i: nat)
    requires i < |c|
    ensures Add(Eval(c, i, z), Eval(c, i, p)) == Mul(Add(z, p), Eval(Quotient(c, p), i, z))
    decreases |c| - i
  {
    hide Mul, Add, Eval;
    EvalUnfold(c, i, z);
    EvalUnfold(c, i, p);
    if i == |c| - 1 {
      EvalEnd(c, z);
      EvalEnd(c, p);
      EvalEnd(Quotient(c, p), z);
      MulZero(z);
      MulZero(p);
      MulZero(Add(z, p));
      AddLaws(c[i], 0, 0);
    } else {
      Division(c, p, z, i + 1);
      var b := Quotient(c, p);
      EvalUnfold(b, i, z);
      DivisionStep(c[i], z, p, Eval(c, i + 1, z), b[i], Eval(b, i + 1, z));
    }
  }

  lemma EvalUnfold(c: Vec, i: nat, x: gf)
    requires i < |c|
    ensures Eval(c, i, x) == Add(c[i], Mul(x, Eval(c, i + 1, x)))
  {
    hide Mul, Add;
  }

  lemma EvalEnd(c: Vec, x: gf)
    ensures Eval(c, |c|, x) == 0
  {}

  lemma DivisionStep(a: gf, z: gf, p: gf, e: gf, f: gf, g: gf)
    requires Add(e, f) == Mul(Add(z, p), g)
    ensures Add(Add(a, Mul(z, e)), Add(a, Mul(p, f))) == Mul(Add(z, p), Add(f, Mul(z, g)))
  {
    hide *;
    // e == f + (z + p) g
    AddLaws(e, f, f);
    AddLaws(e, 0, 0);
    AddLaws(f, f, 0);
    var h := Mul(Add(z, p), g);
    AddLaws(h, f, 0);
    MulAddRight(z, f, h);
    AddSwap(a, Mul(z, e), a, Mul(p, f));
    AddLaws(a, 0, 0);
    AddLaws(Add(Mul(z, e), Mul(p, f)), 0, 0);
    MulAddRight(Add(z, p), f, Mul(z, g));
    MulAddLeft(z, p, f);
    MulAssoc(z, Add(z, p), g);
    MulComm(z, Add(z, p));
    MulAssoc(Add(z, p), z, g);
    AddRotate(Mul(z, f), Mul(z, h), Mul(p, f));
  }

  // k coefficients that vanish at k distinct points are all zero.
  lemma {:induction false} RootBound(c: Vec, p: Vec)
    requires |p| == |c| && Distinct(p)
    requires forall i :: 0 <= i < |p| ==> Eval(c, 0, p[i]) == 0
    ensures c == Zeros(|c|)
    decreases |c|
  {
    hide Mul, Add, Eval;
    if |c| > 0 {
      var n := |c| - 1;
      var q := p[n];
      var b := Quotient(c, q);
      forall i | 0 <= i < n
        ensures Eval(b, 0, p[..n][i]) == 0
      {
        Division(c, q, p[i], 0);
        AddZero(p[i], q);
        AddLaws(0, 0, 0);
        if Eval(b, 0, p[i]) != 0 {
          MulNonzero(Add(p[i], q), Eval(b, 0, p[i]));
        }
      }
      RootBound(b, p[..n]);
      QuotientZero(c, q);
    }
  }

  lemma QuotientZero(c: Vec, q: gf)
    requires |c| > 0 && Quotient(c, q) == Zeros(|c| - 1) && Eval(c, 0, q) == 0
    ensures c == Zeros(|c|)
  {
    hide Mul, Add, Eval;
    MulZero(q);
    EvalEnd(c, q);
    forall i | 0 <= i < |c|
      ensures c[i] == 0
    {
      EvalUnfold(c, i, q);
      var b := Quotient(c, q);
      assert i < |b| ==> b[i] == 0;
      assert i > 0 ==> b[i - 1] == 0;
      AddLaws(c[i], 0, 0);
    }
  }
}
