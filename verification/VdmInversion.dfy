// The closed-form inversion of a Vandermonde matrix in place.
module VdmInversion {
  import opened Gf
  import opened GfPowers
  import opened GfTables
  import opened LinAlg
  import opened FlatMatrix
  import opened MatrixOps
  import opened Poly
  import opened Vandermonde

  lemma DroppedStep(p: Vec, i: nat)
    requires 1 <= i < |p|
    ensures Dropped(p, i)[i] == 1 && Dropped(p, i + 1)[0] == 0
    ensures forall m :: 1 <= m < i ==> Dropped(p, i + 1)[m] == Add(Dropped(p, i)[m - 1], Mul(p[i], Dropped(p, i)[m]))
    ensures Dropped(p, i + 1)[i] == Add(Dropped(p, i)[i - 1], p[i])
  {
    hide Add, Mul;
    DroppedMonic(p, i);
    MulZero(p[i]);
  }

  // The coefficients of the first i factors, right-aligned in the buffer.
  ghost predicate Aligned(c: seq<gf>, p: Vec, i: nat)
    requires 1 <= i <= |p| == |c|
  {
    && (forall j :: |c| - i <= j < |c| ==> c[j] == Dropped(p, i)[j - (|c| - i)])
    && forall j :: 0 <= j < |c| - i ==> c[j] == 0
  }

  // Multiplies the coefficients by x + p[i], leaving out the constant term.
  method NextFactor(t: Tables, c: array<gf>, p: array<gf>, i: nat)
    requires t.Valid() && c.Length == p.Length && c != p && 1 <= i < p.Length
    requires Aligned(c[..], p[..], i)
    modifies c
    ensures Aligned(c[..], p[..], i + 1)
  {
    hide Add, Mul, Dropped, MulTable, ExpTable, LogTable, InverseTable;
    var k := c.Length;
    ghost var d, d' := Dropped(p[..], i), Dropped(p[..], i + 1);
    DroppedStep(p[..], i);
    var pi := p[i];
    var j := k - 1 - (i - 1);
    while j < k - 1
      invariant k - i <= j <= k - 1
      invariant forall m :: k - i <= m < j ==> c[m] == d'[m - (k - i - 1)]
      invariant forall m :: j <= m < k ==> c[m] == d[m - (k - i)]
      invariant forall m :: 0 <= m < k - i ==> c[m] == 0
    {
      assert d'[j - (k - i - 1)] == Add(d[j - (k - i)], Mul(pi, d[j + 1 - (k - i)]));
      c[j] := Add(c[j], t.GfMul(pi, c[j + 1]));
      j := j + 1;
    }
    c[k - 1] := Add(c[k - 1], pi);
  }

  function SetAt(v: Vec, i: nat, x: gf): Vec
    requires i < |v|
  {
    v[i := x]
  }

  // src[.., row] = f * b
  method StoreColumn(t: Tables, src: array<gf>, k: nat, row: nat, f: gf, b: array<gf>)
    requires t.Valid() && Off(k, k) <= src.Length && row < k && b.Length == k && b != src
    modifies src
    ensures forall i :: 0 <= i < k ==> Rows(src[..], k, k)[i] == SetAt(old(Rows(src[..], k, k))[i], row, Mul(f, b[i]))
    ensures forall i :: Off(k, k) <= i < src.Length ==> src[i] == old(src[i])
  {
    hide Off, Rows, Row, Mul, MulTable, ExpTable, LogTable, InverseTable;
    ghost var m := Rows(src[..], k, k);
    for col := 0 to k
      invariant forall i :: 0 <= i < col ==> Rows(src[..], k, k)[i] == SetAt(m[i], row, Mul(f, b[i]))
      invariant forall i :: col <= i < k ==> Rows(src[..], k, k)[i] == m[i]
      invariant forall i :: Off(k, k) <= i < src.Length ==> src[i] == old(src[i])
    {
      OffLess(col, k, k);
      ghost var s := src[..];
      var p := Off(col, k);
      src[p + row] := t.GfMul(f, b[col]);
      RowsRow(s, k, k, col);
      RowsUpdate(s, src[..], k, k, col);
      assert Row(src[..], p, k) == SetAt(Row(s, p, k), row, Mul(f, b[col]));
    }
  }

  // Synthetic division by x - xx, and the value of the quotient at xx.
  method Divide(t: Tables, c: array<gf>, b: array<gf>, xx: gf, ghost full: Vec) returns (v: gf)
    requires t.Valid() && c.Length == b.Length > 0 && b != c && full == c[..] + [1]
    modifies b
    ensures b[..] == Quotient(full, xx) && v == Eval(Quotient(full, xx), 0, xx)
  {
    hide Add, Mul, Eval, MulTable, ExpTable, LogTable, InverseTable;
    var k := c.Length;
    ghost var q := Quotient(full, xx);
    QuotientTop(full, xx);
    EvalUnfold(q, k - 1, xx);
    EvalEnd(q, xx);
    MulZero(xx);
    AddLaws(1, 0, 0);
    v := 1;
    b[k - 1] := 1;
    var i: int := k - 2;
    while i >= 0
      invariant -1 <= i <= k - 2
      invariant forall m :: i < m < k ==> b[m] == q[m]
      invariant v == Eval(q, i + 1, xx)
    {
      EvalUnfold(full, i + 1, xx);
      EvalUnfold(q, i, xx);
      b[i] := Add(c[i + 1], t.GfMul(xx, b[i + 1]));
      AddLaws(Mul(xx, v), b[i], 0);
      v := Add(t.GfMul(xx, v), b[i]);
      i := i - 1;
    }
  }

  // Reads the points out of the second column and multiplies the factors together.
  method Coefficients(t: Tables, src: array<gf>, k: nat, ghost points: Vec) returns (c: array<gf>, p: array<gf>)
    requires t.Valid() && k > 1 && Off(k, k) <= src.Length && |points| == k
    requires forall i :: 0 <= i < k ==> Rows(src[..], k, k)[i][1] == points[i]
    ensures fresh(c) && fresh(p) && c.Length == k && p[..] == points
    ensures c[..] + [1] == Dropped(points, k)
  {
    hide Add, Mul, Off, Rows, Row, Dropped, MulTable, ExpTable, LogTable, InverseTable;
    c, p := new gf[k], new gf[k];
    var j: nat := 1;
    OffZero(k);
    for i := 0 to k
      invariant j == Off(i, k) + 1
      invariant forall m :: 0 <= m < i ==> c[m] == 0 && p[m] == points[m]
    {
      OffNext(i, k);
      OffLess(i, k, k);
      RowsRow(src[..], k, k, i);
      c[i] := 0;
      p[i] := src[j];
      j := j + k;
    }
    c[k - 1] := p[0];
    assert p[..] == points;
    DroppedFirst(points);
    for i := 1 to k
      invariant p[..] == points && Aligned(c[..], points, i)
    {
      NextFactor(t, c, p, i);
    }
    DroppedMonic(points, k);
  }

  // Uses nothing of the matrix but its second column, the points.
  method InvertVdm(t: Tables, src: array<gf>, k: nat, ghost points: Vec)
    requires t.Valid() && k >= 1 && Off(k, k) <= src.Length && |points| == k
    requires k > 1 ==> forall i :: 0 <= i < k ==> Rows(src[..], k, k)[i][1] == points[i]
    modifies src
    ensures k == 1 ==> src[..] == old(src[..])
    ensures k > 1 ==> Rows(src[..], k, k) == Lagrange(points, Dropped(points, k))
    ensures forall i :: Off(k, k) <= i < src.Length ==> src[i] == old(src[i])
  {
    hide Add, Mul, Eval, Inv, Off, Rows, Row, Dropped, Lagrange, Quotient, MulTable, ExpTable, LogTable, InverseTable;
    if k == 1 {
      return;
    }
    var c, p := Coefficients(t, src, k, points);
    var b := new gf[k];
    ghost var full := Dropped(points, k);
    for row := 0 to k
      invariant p[..] == points && full == c[..] + [1]
      invariant forall i, r {:trigger Rows(src[..], k, k)[i][r]} :: 0 <= i < k && 0 <= r < row ==>
        Rows(src[..], k, k)[i][r] == LagrangeCell(full, points[r], i)
      invariant forall i :: Off(k, k) <= i < src.Length ==> src[i] == old(src[i])
    {
      var v := Divide(t, c, b, p[row], full);
      StoreColumn(t, src, k, row, t.Inverse(v), b);
    }
    SameCells(Rows(src[..], k, k), Lagrange(points, full), k);
  }

  lemma DroppedFirst(p: Vec)
    requires |p| >= 1
    ensures Dropped(p, 1) == [p[0], 1]
  {}

  lemma SameCells(m: Matrix, m': Matrix, k: nat)
    requires IsMatrix(m, k, k) && IsMatrix(m', k, k)
    requires forall i, r {:trigger m[i][r]} :: 0 <= i < k && 0 <= r < k ==> m[i][r] == m'[i][r]
    ensures m == m'
  {
    forall i | 0 <= i < k
      ensures m[i] == m'[i]
    {}
  }
}
