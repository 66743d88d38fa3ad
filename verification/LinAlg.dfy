// Vectors and matrices over GF(2^8).
module LinAlg {
  import opened Gf
  import opened GfPowers

  type Vec = seq<gf>
  type Matrix = seq<seq<gf>>

  ghost predicate IsMatrix(m: Matrix, rows: nat, cols: nat)
  {
    |m| == rows && forall r :: 0 <= r < rows ==> |m[r]| == cols
  }

  // The inner product of the first n components.
  ghost function Dot(a: Vec, b: Vec, n: nat): gf
    requires n <= |a| && n <= |b|
  {
    if n == 0 then 0 else Add(Dot(a, b, n - 1), Mul(a[n - 1], b[n - 1]))
  }

  ghost function MatVec(m: Matrix, x: Vec): (y: Vec)
    requires IsMatrix(m, |m|, |x|)
    ensures |y| == |m|
    ensures forall r :: 0 <= r < |m| ==> y[r] == Dot(m[r], x, |x|)
  {
    seq(|m|, r requires 0 <= r < |m| => Dot(m[r], x, |x|))
  }

  function Zeros(k: nat): (z: Vec)
    ensures |z| == k && forall i :: 0 <= i < k ==> z[i] == 0
  {
    seq(k, i => 0)
  }

  function Unit(j: nat, k: nat): (e: Vec)
    ensures |e| == k && forall i :: 0 <= i < k ==> e[i] == if i == j then 1 else 0
  {
    seq(k, i => if i == j then 1 else 0)
  }

  // B inverts A: y = A x and x = B y say the same.
  ghost predicate Inverse(a: Matrix, b: Matrix, k: nat)
    requires IsMatrix(a, k, k) && IsMatrix(b, k, k)
  {
    forall x: Vec, y: Vec {:trigger MatVec(a, x), MatVec(b, y)} | |x| == k && |y| == k ::
      MatVec(a, x) == y <==> MatVec(b, y) == x
  }

  ghost predicate Singular(a: Matrix, k: nat)
    requires IsMatrix(a, k, k)
  {
    exists x: Vec {:trigger MatVec(a, x)} :: |x| == k && x != Zeros(k) && MatVec(a, x) == Zeros(k)
  }

  // ---- inner products ---------------------------------------------------------

  lemma {:induction false} DotEq(a: Vec, b: Vec, a': Vec, b': Vec, n: nat)
    requires n <= |a| && n <= |b| && n <= |a'| && n <= |b'|
    requires forall i :: 0 <= i < n ==> a[i] == a'[i] && b[i] == b'[i]
    ensures Dot(a, b, n) == Dot(a', b', n)
  {
    hide Mul, Add;
    if n > 0 {
      DotEq(a, b, a', b', n - 1);
    }
  }

  lemma {:induction false} DotComm(a: Vec, b: Vec, n: nat)
    requires n <= |a| && n <= |b|
    ensures Dot(a, b, n) == Dot(b, a, n)
  {
    hide Mul, Add;
    if n > 0 {
      DotComm(a, b, n - 1);
      MulComm(a[n - 1], b[n - 1]);
    }
  }

  lemma MulAddTerm(x: gf, y: gf, c: gf, z: gf)
    ensures Mul(Add(x, Mul(c, y)), z) == Add(Mul(x, z), Mul(c, Mul(y, z)))
  {
    hide *;
    MulAddLeft(x, Mul(c, y), z);
    MulAssoc(c, y, z);
  }

  // Adding c times a row adds c times its inner product.
  lemma {:induction false} DotAddScaled(s: Vec, a: Vec, c: gf, b: Vec, x: Vec, n: nat)
    requires n <= |s| && n <= |a| && n <= |b| && n <= |x|
    requires forall i :: 0 <= i < n ==> s[i] == Add(a[i], Mul(c, b[i]))
    ensures Dot(s, x, n) == Add(Dot(a, x, n), Mul(c, Dot(b, x, n)))
  {
    hide Mul, Add;
    if n == 0 {
      MulZero(c);
      AddLaws(0, 0, 0);
    } else {
      DotAddScaled(s, a, c, b, x, n - 1);
      var y := x[n - 1];
      MulAddTerm(a[n - 1], b[n - 1], c, y);
      MulAddRight(c, Dot(b, x, n - 1), Mul(b[n - 1], y));
      AddSwap(Dot(a, x, n - 1), Mul(c, Dot(b, x, n - 1)), Mul(a[n - 1], y), Mul(c, Mul(b[n - 1], y)));
    }
  }

  lemma DotScaled(s: Vec, c: gf, b: Vec, x: Vec, n: nat)
    requires n <= |s| && n <= |b| && n <= |x|
    requires forall i :: 0 <= i < n ==> s[i] == Mul(c, b[i])
    ensures Dot(s, x, n) == Mul(c, Dot(b, x, n))
  {
    hide Dot, Mul, Add;
    var z := Zeros(n);
    forall i | 0 <= i < n
      ensures s[i] == Add(z[i], Mul(c, b[i]))
    {
      AddLaws(Mul(c, b[i]), 0, 0);
    }
    DotAddScaled(s, z, c, b, x, n);
    DotZeros(z, x, n);
    AddLaws(Mul(c, Dot(b, x, n)), 0, 0);
  }

  lemma {:induction false} DotZeros(z: Vec, x: Vec, n: nat)
    requires n <= |z| && n <= |x|
    requires forall i :: 0 <= i < n ==> z[i] == 0
    ensures Dot(z, x, n) == 0
  {
    hide Mul, Add;
    if n > 0 {
      DotZeros(z, x, n - 1);
      MulZero(x[n - 1]);
      AddLaws(0, 0, 0);
    }
  }

  // Replacing one component of a factor exchanges one term of the sum.
  lemma {:induction false} DotUpdate(a: Vec, x: Vec, j: nat, v: gf, n: nat)
    requires n <= |a| && n <= |x| && j < n
    ensures Dot(a, x[j := v], n) == Add(Dot(a, x, n), Add(Mul(a[j], x[j]), Mul(a[j], v)))
  {
    hide Mul, Add;
    var d, p, q := Dot(a, x, n - 1), Mul(a[j], x[j]), Mul(a[j], v);
    if j == n - 1 {
      DotEq(a, x, a, x[j := v], j);
      AddCancel(d, p, q);
    } else {
      DotUpdate(a, x, j, v, n - 1);
      AddRotate(d, Add(p, q), Mul(a[n - 1], x[n - 1]));
    }
  }

  lemma AddCancel(d: gf, p: gf, q: gf)
    ensures Add(Add(d, p), Add(p, q)) == Add(d, q)
  {
    hide *;
    AddLaws(d, p, Add(p, q));
    AddLaws(p, p, q);
    AddLaws(q, 0, 0);
  }

  lemma AddRotate(d: gf, e: gf, f: gf)
    ensures Add(Add(d, e), f) == Add(Add(d, f), e)
  {
    hide *;
    AddLaws(d, e, f);
    AddLaws(d, f, e);
    AddLaws(e, f, 0);
  }

  lemma {:induction false} DotUnit(a: Vec, j: nat, n: nat, k: nat)
    requires n <= |a| && n <= k
    ensures Dot(a, Unit(j, k), n) == if j < n then a[j] else 0
  {
    hide Mul, Add;
    if n > 0 {
      DotUnit(a, j, n - 1, k);
      MulZero(a[n - 1]);
      AddLaws(a[n - 1], 0, 0);
      AddLaws(if j < n - 1 then a[j] else 0, 0, 0);
    }
  }

  // ---- products with a row, and associativity --------------------------------

  // The row v W, where only the first n rows of W are used.
  ghost function RowMat(v: Vec, w: Matrix, n: nat, k: nat): (s: Vec)
    requires n <= |v| && n <= |w| && forall i :: 0 <= i < n ==> |w[i]| == k
    ensures |s| == k && forall j :: 0 <= j < k ==> s[j] == Dot(v, Column(w, j, n, k), n)
  {
    seq(k, j requires 0 <= j < k => Dot(v, Column(w, j, n, k), n))
  }

  ghost function Column(w: Matrix, j: nat, n: nat, k: nat): (c: Vec)
    requires n <= |w| && j < k && forall i :: 0 <= i < n ==> |w[i]| == k
    ensures |c| == n && forall i :: 0 <= i < n ==> c[i] == w[i][j]
  {
    seq(n, i requires 0 <= i < n => w[i][j])
  }

  lemma {:induction false} DotAssoc(v: Vec, w: Matrix, y: Vec, n: nat)
    requires n <= |v| && IsMatrix(w, |w|, |y|) && n <= |w|
    ensures Dot(RowMat(v, w, n, |y|), y, |y|) == Dot(v, MatVec(w, y), n)
  {
    hide Mul, Add;
    var s := RowMat(v, w, n, |y|);
    if n == 0 {
      DotZeros(s, y, |y|);
    } else {
      var s' := RowMat(v, w, n - 1, |y|);
      DotAssoc(v, w, y, n - 1);
      forall j | 0 <= j < |y|
        ensures s[j] == Add(s'[j], Mul(v[n - 1], w[n - 1][j]))
      {
        DotEq(v, Column(w, j, n, |y|), v, Column(w, j, n - 1, |y|), n - 1);
      }
      DotAddScaled(s, s', v[n - 1], w[n - 1], y, |y|);
    }
  }

  // ---- inverses ---------------------------------------------------------------

  lemma MatVecZeros(m: Matrix, k: nat)
    requires IsMatrix(m, k, k)
    ensures MatVec(m, Zeros(k)) == Zeros(k)
  {
    hide Dot;
    forall r | 0 <= r < k
      ensures Dot(m[r], Zeros(k), k) == 0
    {
      DotComm(m[r], Zeros(k), k);
      DotZeros(Zeros(k), m[r], k);
    }
  }

  // A matrix with an inverse takes no nonzero vector to zero.
  lemma InverseNotSingular(a: Matrix, b: Matrix, k: nat)
    requires IsMatrix(a, k, k) && IsMatrix(b, k, k) && Inverse(a, b, k)
    ensures !Singular(a, k)
  {
    hide Dot;
    MatVecZeros(b, k);
    forall x: Vec | |x| == k && MatVec(a, x) == Zeros(k)
      ensures x == Zeros(k)
    {
      assert MatVec(b, Zeros(k)) == x;
    }
  }

  // In terms of entries, an inverse in the sense of equations is a two-sided inverse.
  lemma InverseEntries(a: Matrix, b: Matrix, k: nat, i: nat, j: nat)
    requires IsMatrix(a, k, k) && IsMatrix(b, k, k) && Inverse(a, b, k)
    requires i < k && j < k
    ensures Dot(a[i], Column(b, j, k, k), k) == if i == j then 1 else 0
    ensures Dot(b[i], Column(a, j, k, k), k) == if i == j then 1 else 0
  {
    hide Dot;
    MatVecUnit(a, j, k);
    MatVecUnit(b, j, k);
    assert MatVec(b, Unit(j, k)) == MatVec(b, Unit(j, k));
    assert MatVec(a, MatVec(b, Unit(j, k))) == Unit(j, k);
    assert MatVec(b, MatVec(a, Unit(j, k))) == Unit(j, k);
  }

  lemma MatVecUnit(m: Matrix, j: nat, k: nat)
    requires IsMatrix(m, k, k) && j < k
    ensures MatVec(m, Unit(j, k)) == Column(m, j, k, k)
  {
    hide Dot;
    forall r | 0 <= r < k
      ensures Dot(m[r], Unit(j, k), k) == m[r][j]
    {
      DotUnit(m[r], j, k, k);
    }
  }
}
