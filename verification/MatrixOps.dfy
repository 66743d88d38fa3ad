// The kernels every other part of the codec is built on.
module MatrixOps {
  import opened Gf
  import opened GfPowers
  import opened GfTables
  import opened LinAlg
  import opened FlatMatrix

  const UNROLL: nat := 16

  // What n cells from d on have become, and that the others are as before.
  ghost predicate Added(now: seq<gf>, was: seq<gf>, from: seq<gf>, d: nat, s: nat, c: gf, n: nat)
  {
    && |now| == |was| && d + n <= |was| && s + n <= |from|
    && (forall m :: d <= m < d + n ==> now[m] == Add(was[m], Mul(c, from[m - d + s])))
    && forall m :: 0 <= m < |was| && !(d <= m < d + n) ==> now[m] == was[m]
  }

  lemma AddedJoin(
    now: seq<gf>, mid: seq<gf>, was: seq<gf>, from: seq<gf>, from': seq<gf>, d: nat, s: nat, c: gf, i: nat, n: nat)
    requires Added(mid, was, from, d, s, c, i) && Added(now, mid, from', d + i, s + i, c, n)
    requires |from'| == |from| && forall m :: s + i <= m < s + i + n ==> from'[m] == from[m]
    ensures Added(now, was, from, d, s, c, i + n)
  {
    hide Add, Mul;
    forall m | d <= m < d + i + n
      ensures now[m] == Add(was[m], Mul(c, from[m - d + s]))
    {
      if m >= d + i {
        assert from'[m - (d + i) + (s + i)] == from[m - d + s];
      }
    }
  }

  // n cells, one after another: a turn of the unrolled loop, or what the turns leave over.
  method AddMulCells(t: Tables, dst: array<gf>, d: nat, src: array<gf>, s: nat, c: gf, n: nat)
    requires t.Valid()
    requires d + n <= dst.Length && s + n <= src.Length
    requires dst != src || d + n <= s || s + n <= d
    modifies dst
    ensures Added(dst[..], old(dst[..]), old(src[..]), d, s, c, n)
  {
    hide Add, Mul, Tables.Valid;
    for j := 0 to n
      invariant forall m :: d <= m < d + j ==> dst[m] == Add(old(dst[m]), Mul(c, old(src[m - d + s])))
      invariant forall m :: 0 <= m < dst.Length && !(d <= m < d + j) ==> dst[m] == old(dst[m])
    {
      dst[d + j] := Add(dst[d + j], t.GfMul(c, src[s + j]));
    }
  }

  // dst[d..d + sz] += c * src[s..s + sz]; the ranges do not overlap.
  method AddMul1(t: Tables, dst: array<gf>, d: nat, src: array<gf>, s: nat, c: gf, sz: nat)
    requires t.Valid()
    requires d + sz <= dst.Length && s + sz <= src.Length
    requires dst != src || d + sz <= s || s + sz <= d
    modifies dst
    ensures forall m :: d <= m < d + sz ==> dst[m] == Add(old(dst[m]), Mul(c, old(src[m - d + s])))
    ensures forall m :: 0 <= m < dst.Length && !(d <= m < d + sz) ==> dst[m] == old(dst[m])
  {
    hide Added, Add, Mul, Tables.Valid;
    // the end of the unrolled part, which lies before the start when sz < UNROLL - 1
    var lim: int := sz - UNROLL + 1;
    var i: nat := 0;
    ghost var was, from := dst[..], src[..];
    AddedNone(was, from, d, s, c);
    while i < lim
      invariant i <= sz && Added(dst[..], was, from, d, s, c, i)
      invariant forall m :: s <= m < s + sz ==> src[m] == from[m]
    {
      ghost var mid, from' := dst[..], src[..];
      AddMulCells(t, dst, d + i, src, s + i, c, UNROLL);
      AddedJoin(dst[..], mid, was, from, from', d, s, c, i, UNROLL);
      AddedElsewhere(dst[..], mid, from', d + i, s + i, c, UNROLL);
      i := i + UNROLL;
    }
    ghost var mid, from' := dst[..], src[..];
    AddMulCells(t, dst, d + i, src, s + i, c, sz - i);
    AddedJoin(dst[..], mid, was, from, from', d, s, c, i, sz - i);
    AddedCells(dst[..], was, from, d, s, c, sz);
  }

  lemma AddedNone(was: seq<gf>, from: seq<gf>, d: nat, s: nat, c: gf)
    requires d <= |was| && s <= |from|
    ensures Added(was, was, from, d, s, c, 0)
  {}

  lemma AddedElsewhere(now: seq<gf>, was: seq<gf>, from: seq<gf>, d: nat, s: nat, c: gf, n: nat)
    requires Added(now, was, from, d, s, c, n)
    ensures |now| == |was| && forall m :: 0 <= m < |was| && !(d <= m < d + n) ==> now[m] == was[m]
  {
    hide Add, Mul;
  }

  lemma AddedCells(now: seq<gf>, was: seq<gf>, from: seq<gf>, d: nat, s: nat, c: gf, n: nat)
    requires Added(now, was, from, d, s, c, n)
    ensures |now| == |was| && d + n <= |was| && s + n <= |from|
    ensures forall m :: d <= m < d + n ==> now[m] == Add(was[m], Mul(c, from[m - d + s]))
    ensures forall m :: 0 <= m < |was| && !(d <= m < d + n) ==> now[m] == was[m]
  {
    hide Add, Mul;
  }

  // The same, skipping the work for c = 0.
  method AddMul(t: Tables, dst: array<gf>, d: nat, src: array<gf>, s: nat, c: gf, sz: nat)
    requires t.Valid()
    requires d + sz <= dst.Length && s + sz <= src.Length
    requires dst != src || d + sz <= s || s + sz <= d
    modifies dst
    ensures forall m :: d <= m < d + sz ==> dst[m] == Add(old(dst[m]), Mul(c, old(src[m - d + s])))
    ensures forall m :: 0 <= m < dst.Length && !(d <= m < d + sz) ==> dst[m] == old(dst[m])
  {
    hide Add, Mul;
    if c != 0 {
      AddMul1(t, dst, d, src, s, c, sz);
    } else {
      forall m | d <= m < d + sz
        ensures dst[m] == Add(dst[m], Mul(c, src[m - d + s]))
      {
        MulZero(src[m - d + s]);
        AddLaws(dst[m], 0, 0);
      }
    }
  }

  // One cell of a product: the row at pa of a times the column at pb of b, whose rows have length m.
  method ProductCell(t: Tables, a: array<gf>, pa: nat, b: array<gf>, bo: nat, col: nat, k: nat, m: nat)
    returns (acc: gf)
    requires t.Valid() && col < m
    requires pa + k <= a.Length && bo + Off(k, m) <= b.Length
    ensures acc == Dot(Row(a[..], pa, k), Column(Rows(b[bo..], k, m), col, k, m), k)
  {
    hide Add, Mul, MulTable, ExpTable, InverseTable, LogTable, Off, Rows, Row, Column;
    var p, q := pa, bo + col;
    acc := 0;
    OffZero(m);
    for i := 0 to k
      invariant p == pa + i && q == bo + Off(i, m) + col
      invariant acc == Dot(Row(a[..], pa, k), Column(Rows(b[bo..], k, m), col, k, m), i)
    {
      OffLess(i, k, m);
      OffNext(i, m);
      RowsRow(b[bo..], k, m, i);
      acc := Add(acc, t.GfMul(a[p], b[q]));
      p := p + 1;
      q := q + m;
    }
  }

  // c[co..] = a[ao..] * b[bo..], of shapes n * k, k * m and n * m.
  method MatMul(t: Tables, a: array<gf>, ao: nat, b: array<gf>, bo: nat, c: array<gf>, co: nat, n: nat, k: nat, m: nat)
    requires t.Valid()
    requires ao + Off(n, k) <= a.Length && bo + Off(k, m) <= b.Length && co + Off(n, m) <= c.Length
    requires c != a && c != b
    modifies c
    ensures forall i :: 0 <= i < co ==> c[i] == old(c[i])
    ensures forall r :: 0 <= r < n ==>
      Rows(c[co..], n, m)[r] == RowMat(Rows(a[ao..], n, k)[r], Rows(b[bo..], k, m), k, m)
  {
    hide Add, Mul, MulTable, ExpTable, InverseTable, LogTable, Off, Rows, Row, RowMat, Column;
    ghost var ma, mb := Rows(a[ao..], n, k), Rows(b[bo..], k, m);
    for row := 0 to n
      invariant forall i :: 0 <= i < co ==> c[i] == old(c[i])
      invariant forall r :: 0 <= r < row ==> Rows(c[co..], n, m)[r] == RowMat(ma[r], mb, k, m)
    {
      OffLess(row, n, k);
      OffLess(row, n, m);
      ghost var before := c[co..];
      var p := co + Off(row, m);
      RowsRow(a[ao..], n, k, row);
      assert Row(a[..], ao + Off(row, k), k) == ma[row];
      for col := 0 to m
        invariant forall i :: 0 <= i < co ==> c[i] == old(c[i])
        invariant forall i :: p <= i < p + col ==> c[i] == Dot(ma[row], Column(mb, i - p, k, m), k)
        invariant forall i :: co <= i < c.Length && !(p <= i < p + m) ==> c[i] == before[i - co]
      {
        var acc := ProductCell(t, a, ao + Off(row, k), b, bo, col, k, m);
        c[p + col] := acc;
      }
      RowsUpdate(before, c[co..], n, m, row);
      assert Row(c[co..], Off(row, m), m) == RowMat(ma[row], mb, k, m);
    }
  }

  lemma OffZero(k: nat)
    ensures Off(0, k) == 0
  {}
}
