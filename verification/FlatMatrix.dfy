// A matrix stored in row-major order in a flat buffer, and what it means to change one of its rows.
module FlatMatrix {
  import opened Gf
  import opened LinAlg

  // Where row r of a matrix with rows of length k starts.
  function Off(r: nat, k: nat): nat
  {
    r * k
  }

  lemma OffLess(r: nat, n: nat, k: nat)
    requires r < n
    ensures Off(r, k) + k <= Off(n, k)
  {
    assert (r + 1) * k <= n * k;
  }

  lemma OffNext(r: nat, k: nat)
    ensures Off(r + 1, k) == Off(r, k) + k
  {}

  function Row(s: seq<gf>, p: nat, k: nat): (v: Vec)
    requires p + k <= |s|
    ensures |v| == k && forall j :: 0 <= j < k ==> v[j] == s[p + j]
  {
    s[p..p + k]
  }

  // The first n rows of length k.
  ghost function Rows(s: seq<gf>, n: nat, k: nat): (m: Matrix)
    requires Off(n, k) <= |s|
    ensures IsMatrix(m, n, k)
  {
    hide Off;
    seq(n, r requires 0 <= r < n => OffLess(r, n, k); Row(s, Off(r, k), k))
  }

  lemma RowsRow(s: seq<gf>, n: nat, k: nat, r: nat)
    requires Off(n, k) <= |s| && r < n
    ensures Off(r, k) + k <= Off(n, k) && Rows(s, n, k)[r] == Row(s, Off(r, k), k)
  {
    hide Off;
    OffLess(r, n, k);
  }

  // Outside the cells of the rows r and q nothing has changed.
  ghost predicate SameOutside(s: seq<gf>, s': seq<gf>, k: nat, r: nat, q: nat)
  {
    |s'| == |s| && forall i {:trigger s'[i]} {:trigger s[i]} ::
      0 <= i < |s| && !(Off(r, k) <= i < Off(r, k) + k) && !(Off(q, k) <= i < Off(q, k) + k) ==> s'[i] == s[i]
  }

  lemma RowsSame(s: seq<gf>, s': seq<gf>, n: nat, k: nat, r: nat, q: nat, i: nat)
    requires Off(n, k) <= |s| && r < n && q < n && SameOutside(s, s', k, r, q)
    requires i < n && i != r && i != q
    ensures Rows(s', n, k)[i] == Rows(s, n, k)[i]
  {
    hide Off, Rows;
    RowsRow(s, n, k, i);
    RowsRow(s', n, k, i);
    OffLess(if i < r then i else r, if i < r then r else i, k);
    OffLess(if i < q then i else q, if i < q then q else i, k);
  }

  // Changing only the cells of row r changes only row r.
  lemma RowsUpdate(s: seq<gf>, s': seq<gf>, n: nat, k: nat, r: nat)
    requires Off(n, k) <= |s| && r < n && SameOutside(s, s', k, r, r)
    ensures Off(r, k) + k <= Off(n, k) && Rows(s', n, k) == Rows(s, n, k)[r := Row(s', Off(r, k), k)]
  {
    hide Off, Rows, Row;
    RowsRow(s', n, k, r);
    forall i | 0 <= i < n && i != r
      ensures Rows(s', n, k)[i] == Rows(s, n, k)[i]
    {
      RowsSame(s, s', n, k, r, r, i);
    }
  }
}
