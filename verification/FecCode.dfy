// Building a code: the Vandermonde matrix, and the systematic matrix made from it.
module FecCode {
  import opened Wrappers
  import opened Gf
  import opened GfPowers
  import opened GfTables
  import opened LinAlg
  import opened FlatMatrix
  import opened MatrixOps
  import opened Poly
  import opened Vandermonde
  import opened VdmInversion
  import opened Generator

  // The descriptor of a code; its matrix is not written again once the code exists.
  datatype FecParms = FecParms(k: nat, n: nat, encMatrix: seq<gf>)
  {
    ghost predicate Valid()
    {
      && 1 <= k <= n <= GF_SIZE + 1 && |encMatrix| == Off(n, k)
      && forall r :: 0 <= r < n ==> Rows(encMatrix, n, k)[r] == GeneratorRow(r, k)
    }
  }

  lemma {:induction false} PowZero(j: nat)
    ensures Pow(0, j) == if j == 0 then 1 else 0
  {
    hide Mul;
    if j > 0 {
      MulZero(Pow(0, j - 1));
    }
  }

  lemma {:induction false} PowExp(i: nat, j: nat)
    ensures Pow(Exp(i), j) == Exp(i * j)
  {
    hide Mul, Exp;
    if j == 0 {
      ExpZero(i);
    } else {
      PowExp(i, j - 1);
      ExpAdd(i, i * (j - 1));
      assert i + i * (j - 1) == i * j;
    }
  }

  lemma ExpZero(i: nat)
    ensures Exp(i * 0) == 1
  {}

  // One row of the Vandermonde matrix, from the table of powers.
  method FillRow(t: Tables, m: array<gf>, p: nat, row: nat, k: nat)
    requires t.Valid() && p + k <= m.Length
    modifies m
    ensures forall i :: p <= i < p + k ==> m[i] == Pow(Exp(row), i - p)
    ensures forall i :: 0 <= i < m.Length && !(p <= i < p + k) ==> m[i] == old(m[i])
  {
    hide Exp, Pow, MulTable, LogTable, InverseTable;
    for col := 0 to k
      invariant forall i :: p <= i < p + col ==> m[i] == Pow(Exp(row), i - p)
      invariant forall i :: 0 <= i < m.Length && !(p <= i < p + col) ==> m[i] == old(m[i])
    {
      var e := Modnn(row * col);
      PowExp(row, col);
      ExpMod(row * col);
      m[p + col] := t.exp[e];
    }
  }

  method FillVandermonde(t: Tables, m: array<gf>, k: nat, n: nat)
    requires t.Valid() && 1 <= k && 1 <= n && m.Length == Off(n, k)
    modifies m
    ensures forall r :: 0 <= r < n ==> Rows(m[..], n, k)[r] == PowerRow(Point(r), k)
  {
    hide Exp, Pow, Off, Rows, Row, MulTable, LogTable, InverseTable, ExpTable;
    OffZero(k);
    OffNext(0, k);
    OffLess(0, n, k);
    // the first row belongs to the point 0, which is not a power
    m[0] := 1;
    for col := 1 to k
      invariant m[0] == 1 && forall i :: 1 <= i < col ==> m[i] == 0
    {
      m[col] := 0;
    }
    RowsRow(m[..], n, k, 0);
    forall j | 0 <= j < k
      ensures Row(m[..], 0, k)[j] == Pow(0, j)
    {
      PowZero(j);
    }
    assert Row(m[..], 0, k) == PowerRow(Point(0), k);
    var p := k;
    for row := 0 to n - 1
      invariant p == Off(row + 1, k)
      invariant forall r :: 0 <= r <= row ==> Rows(m[..], n, k)[r] == PowerRow(Point(r), k)
    {
      OffNext(row + 1, k);
      OffLess(row + 1, n, k);
      ghost var s := m[..];
      FillRow(t, m, p, row, k);
      RowsUpdate(s, m[..], n, k, row + 1);
      assert Row(m[..], p, k) == PowerRow(Point(row + 1), k);
      p := p + k;
    }
  }

  // The rows below the first k, seen as a matrix of their own.
  lemma RowsBelow(s: seq<gf>, n: nat, k: nat, r: nat)
    requires k <= n && Off(n, k) <= |s| && r < n - k
    ensures Off(k, k) <= Off(n, k) && Off(n - k, k) <= |s[Off(k, k)..]|
    ensures Rows(s[Off(k, k)..], n - k, k)[r] == Rows(s, n, k)[k + r]
  {
    hide Rows, Row, Off;
    OffSum(k, n - k, k);
    OffSum(k, r, k);
    RowsRow(s[Off(k, k)..], n - k, k, r);
    RowsRow(s, n, k, k + r);
    assert Row(s[Off(k, k)..], Off(r, k), k) == Row(s, Off(k + r, k), k);
  }

  lemma OffSum(a: nat, b: nat, k: nat)
    ensures Off(a + b, k) == Off(a, k) + Off(b, k)
  {}

  // The rows of the first k, in a buffer of n.
  lemma RowsAbove(s: seq<gf>, n: nat, k: nat, r: nat)
    requires k <= n && Off(n, k) <= |s| && r < k
    ensures Off(k, k) <= Off(n, k) && Rows(s, k, k)[r] == Rows(s, n, k)[r]
  {
    hide Rows, Row, Off;
    OffSum(k, n - k, k);
    RowsRow(s, k, k, r);
    RowsRow(s, n, k, r);
  }

  lemma RowsBelowSame(s: seq<gf>, s': seq<gf>, n: nat, k: nat, r: nat)
    requires k <= n && Off(n, k) <= |s| == |s'| && k <= r < n
    requires forall i :: Off(k, k) <= i < |s| ==> s'[i] == s[i]
    ensures Rows(s', n, k)[r] == Rows(s, n, k)[r]
  {
    hide Rows, Row, Off;
    OffSum(k, r - k, k);
    RowsRow(s, n, k, r);
    RowsRow(s', n, k, r);
  }

  // The identity on top: cleared, then every (k + 1)-th cell set.
  method FillIdentity(enc: array<gf>, k: nat, n: nat)
    requires 1 <= k <= n && enc.Length == Off(n, k)
    modifies enc
    ensures forall r :: 0 <= r < k ==> Rows(enc[..], n, k)[r] == Unit(r, k)
    ensures forall i :: Off(k, k) <= i < enc.Length ==> enc[i] == old(enc[i])
  {
    hide Rows, Row, Off;
    OffSum(k, n - k, k);
    for i := 0 to Off(k, k)
      invariant forall j :: 0 <= j < i ==> enc[j] == 0
      invariant forall j :: Off(k, k) <= j < enc.Length ==> enc[j] == old(enc[j])
    {
      enc[i] := 0;
    }
    var p: nat := 0;
    OffZero(k);
    for col := 0 to k
      invariant p == Off(col, k) + col
      invariant forall r :: 0 <= r < col ==> Rows(enc[..], n, k)[r] == Unit(r, k)
      invariant forall j :: Off(col, k) <= j < Off(k, k) ==> enc[j] == 0
      invariant forall j :: Off(k, k) <= j < enc.Length ==> enc[j] == old(enc[j])
    {
      OffNext(col, k);
      OffLess(col, k, k);
      ghost var s := enc[..];
      enc[p] := 1;
      RowsUpdate(s, enc[..], n, k, col);
      assert Row(enc[..], Off(col, k), k) == Unit(col, k);
      p := p + k + 1;
    }
  }

  // The Vandermonde matrix with its top inverted in place.
  method VandermondeWithTopInverted(t: Tables, m: array<gf>, k: nat, n: nat)
    requires t.Valid() && 1 <= k <= n && m.Length == Off(n, k)
    modifies m
    ensures Off(k, k) <= Off(n, k) && Rows(m[..], k, k) == TopInverse(k)
    ensures forall r :: k <= r < n ==> Rows(m[..], n, k)[r] == PowerRow(Point(r), k)
  {
    hide Rows, Row, Off, Exp, Pow, MulTable, LogTable, InverseTable, ExpTable, PowerRow, Point, TopInverse, Lagrange,
      Dropped;
    FillVandermonde(t, m, k, n);
    ghost var s := m[..];
    OffSum(k, n - k, k);
    forall r | 0 <= r < k
      ensures Rows(s, k, k)[r] == PowerRow(Point(r), k)
    {
      RowsAbove(s, n, k, r);
    }
    forall r | 0 <= r < k && k > 1
      ensures Rows(s, k, k)[r][1] == Points(k)[r]
    {
      PowerOne(Point(r), k);
    }
    InvertVdm(t, m, k, Points(k));
    TopRows(s, m[..], k);
    forall r | k <= r < n
      ensures Rows(m[..], n, k)[r] == PowerRow(Point(r), k)
    {
      RowsBelowSame(s, m[..], n, k, r);
    }
  }

  method FecNew(t: Tables, k: nat, n: nat) returns (code: Option<FecParms>)
    requires t.Valid() && k >= 1
    ensures code.Some? <==> k <= GF_SIZE + 1 && n <= GF_SIZE + 1 && k <= n
    ensures code.Some? ==> code.value.k == k && code.value.n == n && code.value.Valid()
  {
    hide Rows, Row, Off, MulTable, LogTable, InverseTable, ExpTable, PowerRow, Point, RowMat, TopInverse;
    if k > GF_SIZE + 1 || n > GF_SIZE + 1 || k > n {
      return None;
    }
    var enc, m := new gf[Off(n, k)], new gf[Off(n, k)];
    VandermondeWithTopInverted(t, m, k, n);
    OffSum(k, n - k, k);
    assert m[0..] == m[..];
    MatMul(t, m, Off(k, k), m, 0, enc, Off(k, k), n - k, k, k);
    ghost var e := enc[..];
    FillIdentity(enc, k, n);
    forall r | 0 <= r < n
      ensures Rows(enc[..], n, k)[r] == GeneratorRow(r, k)
    {
      if r >= k {
        RowsBelow(m[..], n, k, r - k);
        RowsBelow(e, n, k, r - k);
        RowsBelowSame(e, enc[..], n, k, r);
      }
    }
    code := Some(FecParms(k, n, enc[..]));
  }

  lemma PowerOne(x: gf, k: nat)
    requires k > 1
    ensures PowerRow(x, k)[1] == x
  {
    hide Mul;
    assert Pow(x, 0) == 1;
    MulZero(x);
  }

  lemma TopRows(s: seq<gf>, s': seq<gf>, k: nat)
    requires k >= 1 && Off(k, k) <= |s| == |s'| && forall r :: 0 <= r < k ==> Rows(s, k, k)[r] == PowerRow(Point(r), k)
    requires k == 1 ==> s' == s
    requires k > 1 ==> Rows(s', k, k) == Lagrange(Points(k), Dropped(Points(k), k))
    ensures Rows(s', k, k) == TopInverse(k)
  {
    hide Lagrange, Dropped, Rows, Off;
    if k == 1 {
      TopOne();
      assert Rows(s', 1, 1)[0] == Top(1)[0];
    }
  }
}
