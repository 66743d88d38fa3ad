// Gauss-Jordan inversion in place, with pivoting and deferred column swaps.
module GaussJordan {
  import opened Gf
  import opened GfPowers
  import opened GfTables
  import opened LinAlg
  import opened FlatMatrix
  import opened MatrixOps
  import opened Exchange
  import opened Sequences

  // ---- finding a pivot --------------------------------------------------------

  ghost predicate Free(ipiv: seq<nat>, j: nat)
  {
    j < |ipiv| && ipiv[j] == 0
  }

  // The search over the whole matrix that the diagonal entry of column col short-cuts.
  method FindPivot(src: array<gf>, k: nat, ipiv: array<nat>, col: nat) returns (irow: int, icol: int)
    requires Off(k, k) <= src.Length && ipiv.Length == k && col < k
    requires forall j :: 0 <= j < k ==> ipiv[j] <= 1
    ensures icol == -1
      || (0 <= irow < k && 0 <= icol < k && Free(ipiv[..], irow) && Free(ipiv[..], icol)
      && Rows(src[..], k, k)[irow][icol] != 0)
    ensures icol == -1 ==>
      forall r, j {:trigger Rows(src[..], k, k)[r][j]} :: 0 <= r < k && 0 <= j < k && ipiv[r] == 0 && ipiv[j] == 0 ==>
      Rows(src[..], k, k)[r][j] == 0
  {
    hide Off, Rows, Row;
    ghost var m := Rows(src[..], k, k);
    irow, icol := -1, -1;
    RowsRow(src[..], k, k, col);
    if ipiv[col] != 1 && src[Off(col, k) + col] != 0 {
      return col, col;
    }
    for row := 0 to k
      invariant icol == -1
      invariant forall r, j {:trigger m[r][j]} :: 0 <= r < row && 0 <= j < k && ipiv[r] == 0 && ipiv[j] == 0 ==>
        m[r][j] == 0
    {
      RowsRow(src[..], k, k, row);
      if ipiv[row] != 1 {
        for ix := 0 to k
          invariant icol == -1
          invariant forall j :: 0 <= j < ix && ipiv[j] == 0 ==> m[row][j] == 0
        {
          if ipiv[ix] == 0 {
            if src[Off(row, k) + ix] != 0 {
              return row, ix;
            }
          } else if ipiv[ix] > 1 {
            // the source reports a singular matrix here
            assert false;
          }
        }
      }
    }
  }

  // ---- row operations ---------------------------------------------------------

  lemma RowsSwapped(s: seq<gf>, s': seq<gf>, k: nat, i: nat, j: nat)
    requires Off(k, k) <= |s| && i < k && j < k && SameOutside(s, s', k, i, j)
    requires Off(i, k) + k <= |s| && Off(j, k) + k <= |s|
    requires Row(s', Off(i, k), k) == Row(s, Off(j, k), k) && Row(s', Off(j, k), k) == Row(s, Off(i, k), k)
    ensures Rows(s', k, k) == SwapAt(Rows(s, k, k), i, j)
  {
    hide Off, Rows, Row;
    RowsRow(s, k, k, i);
    RowsRow(s, k, k, j);
    RowsRow(s', k, k, i);
    RowsRow(s', k, k, j);
    forall r | 0 <= r < k && r != i && r != j
      ensures Rows(s', k, k)[r] == Rows(s, k, k)[r]
    {
      RowsSame(s, s', k, k, i, j, r);
    }
  }

  method SwapRanges(src: array<gf>, p: nat, q: nat, k: nat)
    requires p + k <= src.Length && q + k <= src.Length && (p + k <= q || q + k <= p)
    modifies src
    ensures forall m :: p <= m < p + k ==> src[m] == old(src[m - p + q])
    ensures forall m :: q <= m < q + k ==> src[m] == old(src[m - q + p])
    ensures forall m :: 0 <= m < src.Length && !(p <= m < p + k) && !(q <= m < q + k) ==> src[m] == old(src[m])
  {
    for ix := 0 to k
      invariant forall m :: p <= m < p + ix ==> src[m] == old(src[m - p + q])
      invariant forall m :: q <= m < q + ix ==> src[m] == old(src[m - q + p])
      invariant forall m :: 0 <= m < src.Length && !(p <= m < p + ix) && !(q <= m < q + ix) ==> src[m] == old(src[m])
    {
      src[p + ix], src[q + ix] := src[q + ix], src[p + ix];
    }
  }

  method SwapRows(src: array<gf>, k: nat, i: nat, j: nat)
    requires src.Length == Off(k, k) && i < k && j < k && i != j
    modifies src
    ensures Rows(src[..], k, k) == SwapAt(old(Rows(src[..], k, k)), i, j)
  {
    hide Off, Rows, Row;
    OffLess(i, k, k);
    OffLess(j, k, k);
    OffLess(if i < j then i else j, if i < j then j else i, k);
    SwapRanges(src, Off(i, k), Off(j, k), k);
    ghost var s, s' := old(src[..]), src[..];
    assert Row(s', Off(i, k), k) == Row(s, Off(j, k), k);
    assert Row(s', Off(j, k), k) == Row(s, Off(i, k), k);
    RowsSwapped(s, s', k, i, j);
  }

  // Divides the pivot row by its pivot, leaving the reciprocal in the pivot's place.
  method Normalize(t: Tables, src: array<gf>, p: nat, icol: nat, k: nat)
    requires t.Valid() && p + k <= src.Length && icol < k && src[p + icol] != 0
    modifies src
    ensures forall m :: p <= m < p + k ==>
      src[m] == Mul(Inv(old(src[p + icol])), if m == p + icol then 1 else old(src[m]))
    ensures forall m :: 0 <= m < src.Length && !(p <= m < p + k) ==> src[m] == old(src[m])
  {
    hide Mul, Inv, MulTable, ExpTable, LogTable;
    var c := src[p + icol];
    if c != 1 {
      c := t.Inverse(c);
      src[p + icol] := 1;
      ghost var before := src[..];
      for ix := 0 to k
        invariant forall m :: p <= m < p + ix ==> src[m] == Mul(c, before[m])
        invariant forall m :: 0 <= m < src.Length && !(p <= m < p + ix) ==> src[m] == before[m]
      {
        src[p + ix] := t.GfMul(c, src[p + ix]);
      }
    } else {
      InvSmall();
      forall x: gf
        ensures Mul(1, x) == x
      {
        MulZero(x);
      }
    }
  }

  method EqualBytes(a: array<gf>, p: nat, b: array<gf>, k: nat) returns (same: bool)
    requires p + k <= a.Length && k <= b.Length
    ensures same <==> forall i :: 0 <= i < k ==> b[i] == a[p + i]
  {
    same := true;
    for i := 0 to k
      invariant same <==> forall j :: 0 <= j < i ==> b[j] == a[p + j]
    {
      if a[p + i] != b[i] {
        same := false;
      }
    }
  }

  // Clears column icol of the row at p, and puts there what the pivot row at q has for it.
  method EliminateRow(t: Tables, src: array<gf>, p: nat, q: nat, icol: nat, k: nat)
    requires t.Valid() && icol < k
    requires p + k <= src.Length && q + k <= src.Length && (p + k <= q || q + k <= p)
    modifies src
    ensures forall m :: p <= m < p + k ==>
      src[m] == Add(if m == p + icol then 0 else old(src[m]), Mul(old(src[p + icol]), old(src[m - p + q])))
    ensures forall m :: 0 <= m < src.Length && !(p <= m < p + k) ==> src[m] == old(src[m])
  {
    hide Add, Mul, MulTable, ExpTable, InverseTable, LogTable;
    var c := src[p + icol];
    src[p + icol] := 0;
    AddMul(t, src, p, src, q, c, k);
  }

  ghost predicate Eliminated(m: Matrix, m': Matrix, icol: nat, k: nat, r: nat)
    requires IsMatrix(m, k, k) && IsMatrix(m', k, k) && icol < k && r < k
  {
    forall j {:trigger m'[r][j]} :: 0 <= j < k ==>
      m'[r][j] == Add(if j == icol then 0 else m[r][j], Mul(m[r][icol], m[icol][j]))
  }

  method Eliminate(t: Tables, src: array<gf>, icol: nat, k: nat)
    requires t.Valid() && src.Length == Off(k, k) && icol < k
    modifies src
    ensures Rows(src[..], k, k)[icol] == old(Rows(src[..], k, k))[icol]
    ensures forall r :: 0 <= r < k && r != icol ==>
      Eliminated(old(Rows(src[..], k, k)), Rows(src[..], k, k), icol, k, r)
  {
    hide Mul, Add, Off, Rows, Row, Eliminated;
    hide MulTable, ExpTable, InverseTable, LogTable;
    ghost var m := Rows(src[..], k, k);
    var p: nat := 0;
    OffZero(k);
    for ix := 0 to k
      invariant p == Off(ix, k)
      invariant Rows(src[..], k, k)[icol] == m[icol]
      invariant forall r :: 0 <= r < ix && r != icol ==> Eliminated(m, Rows(src[..], k, k), icol, k, r)
      invariant forall r :: ix <= r < k ==> Rows(src[..], k, k)[r] == m[r]
    {
      OffNext(ix, k);
      OffLess(ix, k, k);
      if ix != icol {
        OffLess(icol, k, k);
        OffLess(if ix < icol then ix else icol, if ix < icol then icol else ix, k);
        ghost var s := src[..];
        EliminateRow(t, src, p, Off(icol, k), icol, k);
        EliminatedStep(m, s, src[..], icol, k, ix);
      }
      p := p + k;
    }
  }

  lemma EliminatedStep(m: Matrix, s: seq<gf>, s': seq<gf>, icol: nat, k: nat, ix: nat)
    requires IsMatrix(m, k, k) && Off(k, k) == |s| == |s'| && ix < k && icol < k && ix != icol
    requires Off(ix, k) + k <= |s| && Off(icol, k) + k <= |s|
    requires forall i :: 0 <= i < |s| && !(Off(ix, k) <= i < Off(ix, k) + k) ==> s'[i] == s[i]
    requires forall i :: Off(ix, k) <= i < Off(ix, k) + k ==>
      s'[i] == Add(
        if i == Off(ix, k) + icol then 0 else s[i], Mul(s[Off(ix, k) + icol], s[i - Off(ix, k) + Off(icol, k)]))
    requires Rows(s, k, k)[icol] == m[icol]
    requires forall r :: 0 <= r < ix && r != icol ==> Eliminated(m, Rows(s, k, k), icol, k, r)
    requires forall r :: ix <= r < k ==> Rows(s, k, k)[r] == m[r]
    ensures Rows(s', k, k)[icol] == m[icol]
    ensures forall r :: 0 <= r <= ix && r != icol ==> Eliminated(m, Rows(s', k, k), icol, k, r)
    ensures forall r :: ix < r < k ==> Rows(s', k, k)[r] == m[r]
  {
    hide Off, Rows, Row, Add, Mul;
    RowsRow(s, k, k, ix);
    RowsRow(s, k, k, icol);
    RowsUpdate(s, s', k, k, ix);
    var p, q := Off(ix, k), Off(icol, k);
    forall j | 0 <= j < k
      ensures Rows(s', k, k)[ix][j] == Add(if j == icol then 0 else m[ix][j], Mul(m[ix][icol], m[icol][j]))
    {
      assert m[icol][j] == s[p + j - p + q];
    }
    forall r | 0 <= r <= ix && r != icol
      ensures Eliminated(m, Rows(s', k, k), icol, k, r)
    {
      if r < ix {
        assert Eliminated(m, Rows(s, k, k), icol, k, r);
        assert Rows(s', k, k)[r] == Rows(s, k, k)[r];
      }
    }
  }

  // The pivot row equal to a unit vector makes the elimination a no-op.
  lemma UnitPivotRow(m: Matrix, icol: nat, k: nat, r: nat)
    requires IsMatrix(m, k, k) && icol < k && r < k && m[icol] == Unit(icol, k)
    ensures Eliminated(m, m, icol, k, r)
  {
    hide Add, Mul;
    forall j | 0 <= j < k
      ensures m[r][j] == Add(if j == icol then 0 else m[r][j], Mul(m[r][icol], m[icol][j]))
    {
      MulZero(m[r][icol]);
      AddLaws(m[r][j], 0, 0);
    }
  }

  lemma NormalizedRow(s: seq<gf>, s': seq<gf>, icol: nat, k: nat)
    requires Off(k, k) == |s| == |s'| && icol < k && Off(icol, k) + k <= |s|
    requires forall i :: 0 <= i < |s| && !(Off(icol, k) <= i < Off(icol, k) + k) ==> s'[i] == s[i]
    requires forall i :: Off(icol, k) <= i < Off(icol, k) + k ==>
      s'[i] == Mul(Inv(s[Off(icol, k) + icol]), if i == Off(icol, k) + icol then 1 else s[i])
    ensures Rows(s', k, k) == Rows(s, k, k)[icol := Rows(s', k, k)[icol]]
    ensures Rows(s', k, k)[icol] == Row(s', Off(icol, k), k)
    ensures forall j :: 0 <= j < k ==>
      Rows(s', k, k)[icol][j] == Mul(Inv(Rows(s, k, k)[icol][icol]), if j == icol then 1 else Rows(s, k, k)[icol][j])
  {
    hide Off, Rows, Row, Mul, Inv;
    RowsRow(s, k, k, icol);
    RowsUpdate(s, s', k, k, icol);
  }

  lemma PivotFromParts(m: Matrix, m1: Matrix, m2: Matrix, icol: nat, k: nat)
    requires IsMatrix(m, k, k) && IsMatrix(m1, k, k) && IsMatrix(m2, k, k) && icol < k && m[icol][icol] != 0
    requires m1 == m[icol := m1[icol]] && m2[icol] == m1[icol]
    requires forall j :: 0 <= j < k ==> m1[icol][j] == Mul(Inv(m[icol][icol]), if j == icol then 1 else m[icol][j])
    requires forall r :: 0 <= r < k && r != icol ==> Eliminated(m1, m2, icol, k, r)
    ensures IsPivot(m, m2, icol, k)
  {
    hide Add, Mul, Inv;
    forall r, j | 0 <= r < k && 0 <= j < k && r != icol
      ensures m2[r][j] == Add(if j == icol then 0 else m[r][j], Mul(m[r][icol], m2[icol][j]))
    {
      assert Eliminated(m1, m2, icol, k, r);
      assert m1[r] == m[r];
    }
  }

  // The whole step for a pivot on the diagonal.
  method PivotStep(t: Tables, src: array<gf>, idRow: array<gf>, icol: nat, k: nat)
    requires t.Valid() && src.Length == Off(k, k) && icol < k && idRow.Length == k && idRow != src
    requires forall j :: 0 <= j < k ==> idRow[j] == 0
    requires Rows(src[..], k, k)[icol][icol] != 0
    modifies src, idRow
    ensures forall j :: 0 <= j < k ==> idRow[j] == 0
    ensures IsPivot(old(Rows(src[..], k, k)), Rows(src[..], k, k), icol, k)
  {
    hide Mul, Add, Inv, Off, Rows, Row, Eliminated, IsPivot;
    hide MulTable, ExpTable, InverseTable, LogTable;
    ghost var s := src[..];
    OffLess(icol, k, k);
    RowsRow(s, k, k, icol);
    var p := Off(icol, k);
    Normalize(t, src, p, icol, k);
    ghost var m := Rows(src[..], k, k);
    NormalizedRow(s, src[..], icol, k);
    idRow[icol] := 1;
    var same := EqualBytes(src, p, idRow, k);
    if !same {
      Eliminate(t, src, icol, k);
    } else {
      forall j | 0 <= j < k
        ensures m[icol][j] == Unit(icol, k)[j]
      {
        assert idRow[j] == src[p + j];
      }
      forall r | 0 <= r < k
        ensures Eliminated(m, m, icol, k, r)
      {
        UnitPivotRow(m, icol, k, r);
      }
    }
    PivotFromParts(Rows(s, k, k), m, Rows(src[..], k, k), icol, k);
    idRow[icol] := 0;
  }

  // ---- counting pivots --------------------------------------------------------

  ghost function Pivots(ipiv: seq<nat>, n: nat): nat
    requires n <= |ipiv|
  {
    if n == 0 then 0 else Pivots(ipiv, n - 1) + ipiv[n - 1]
  }

  lemma {:induction false} PivotsStart(ipiv: seq<nat>, n: nat)
    requires n <= |ipiv| && forall j :: 0 <= j < n ==> ipiv[j] == 0
    ensures Pivots(ipiv, n) == 0
  {
    if n > 0 { PivotsStart(ipiv, n - 1); }
  }

  lemma {:induction false} PivotsMark(ipiv: seq<nat>, j: nat, n: nat)
    requires n <= |ipiv| && j < |ipiv| && ipiv[j] == 0
    ensures Pivots(ipiv[j := 1], n) == Pivots(ipiv, n) + if j < n then 1 else 0
  {
    if n > 0 { PivotsMark(ipiv, j, n - 1); }
  }

  lemma {:induction false} PivotsBound(ipiv: seq<nat>, n: nat) returns (j: nat)
    requires n <= |ipiv| && forall j :: 0 <= j < n ==> ipiv[j] <= 1
    ensures Pivots(ipiv, n) <= n
    ensures Pivots(ipiv, n) == n ==> forall i :: 0 <= i < n ==> ipiv[i] == 1
    ensures Pivots(ipiv, n) < n ==> j < n && ipiv[j] == 0
  {
    j := 0;
    if n > 0 {
      j := PivotsBound(ipiv, n - 1);
      if ipiv[n - 1] == 0 {
        j := n - 1;
      }
    }
  }

  ghost function Done(ipiv: seq<nat>): (done: seq<bool>)
    ensures |done| == |ipiv| && forall j :: 0 <= j < |ipiv| ==> done[j] == (ipiv[j] != 0)
  {
    seq(|ipiv|, j requires 0 <= j < |ipiv| => ipiv[j] != 0)
  }

  // ---- the row order, and how the recorded swaps undo it ----------------------

  ghost predicate History(hist: seq<seq<nat>>, indxr: seq<int>, indxc: seq<int>, k: nat, n: nat)
  {
    && n <= |indxr| && n <= |indxc| && |hist| == n + 1 && hist[0] == seq(k, j => j)
    && (forall i :: 0 <= i <= n ==> |hist[i]| == k)
    && forall i :: 0 <= i < n ==>
      0 <= indxr[i] < k && 0 <= indxc[i] < k && hist[i + 1] == SwapAt(hist[i], indxr[i], indxc[i])
  }

  method SwapColumns(src: array<gf>, k: nat, i: nat, j: nat)
    requires src.Length == Off(k, k) && i < k && j < k && i != j
    modifies src
    ensures forall r :: 0 <= r < k ==> Rows(src[..], k, k)[r] == SwapAt(old(Rows(src[..], k, k))[r], i, j)
  {
    hide Off, Rows, Row;
    ghost var m := Rows(src[..], k, k);
    for row := 0 to k
      invariant forall r :: 0 <= r < row ==> Rows(src[..], k, k)[r] == SwapAt(m[r], i, j)
      invariant forall r :: row <= r < k ==> Rows(src[..], k, k)[r] == m[r]
    {
      OffLess(row, k, k);
      ghost var s := src[..];
      var p := Off(row, k);
      src[p + i], src[p + j] := src[p + j], src[p + i];
      RowsRow(s, k, k, row);
      RowsUpdate(s, src[..], k, k, row);
      assert Row(src[..], p, k) == SwapAt(Row(s, p, k), i, j);
    }
  }

  // Swapping the columns back in the reverse order of the row swaps.
  method Unscramble(
    src: array<gf>, k: nat, indxr: seq<int>, indxc: seq<int>, ghost a: Matrix, ghost hist: seq<seq<nat>>)
    requires src.Length == Off(k, k) && |indxr| == k && |indxc| == k && IsMatrix(a, k, k)
    requires History(hist, indxr, indxc, k, k) && Scrambled(a, Rows(src[..], k, k), hist[k], k)
    modifies src
    ensures Inverse(a, Rows(src[..], k, k), k)
  {
    hide Off, Rows, Row, Inverse, Scrambled;
    var col: int := k - 1;
    while col >= 0
      invariant -1 <= col < k
      invariant Scrambled(a, Rows(src[..], k, k), hist[col + 1], k)
    {
      if 0 <= indxr[col] < k && 0 <= indxc[col] < k && indxr[col] != indxc[col] {
        ghost var m := Rows(src[..], k, k);
        SwapColumns(src, k, indxr[col], indxc[col]);
        SwapColumnsScrambled(a, m, Rows(src[..], k, k), hist[col + 1], k, indxr[col], indxc[col]);
      } else {
        assert hist[col] == hist[col + 1];
      }
      assert hist[col] == SwapAt(hist[col + 1], indxr[col], indxc[col]);
      col := col - 1;
    }
    UnscrambledInverse(a, Rows(src[..], k, k), k);
  }

  // ---- the inversion ----------------------------------------------------------

  // What is known before the pass for column col, given the rows m of the buffer and the row order perm.
  ghost predicate Progress(a: Matrix, m: Matrix, ipiv: seq<nat>, perm: seq<nat>, k: nat, col: nat)
  {
    && |ipiv| == k && (forall j :: 0 <= j < k ==> ipiv[j] <= 1)
    && Pivots(ipiv, k) == col && Represents(a, m, Done(ipiv), perm, k)
  }

  lemma ProgressStart(a: Matrix, k: nat)
    requires IsMatrix(a, k, k)
    ensures Progress(a, a, seq(k, j => 0), seq(k, j => j), k, 0)
  {
    hide Represents;
    RepresentsItself(a, k);
    PivotsStart(seq(k, j => 0), k);
    assert Done(seq(k, j => 0)) == seq(k, j => false);
  }

  lemma ProgressStuck(a: Matrix, m: Matrix, ipiv: seq<nat>, perm: seq<nat>, k: nat, col: nat)
    requires Progress(a, m, ipiv, perm, k, col) && col < k && IsMatrix(m, k, k)
    requires forall r, j {:trigger m[r][j]} :: 0 <= r < k && 0 <= j < k && ipiv[r] == 0 && ipiv[j] == 0 ==> m[r][j] == 0
    ensures IsMatrix(a, k, k) && Singular(a, k)
  {
    var j0 := PivotsBound(ipiv, k);
    StuckIsSingular(a, m, Done(ipiv), perm, k, j0);
  }

  lemma ProgressStep(
    a: Matrix, m: Matrix, m': Matrix, ipiv: seq<nat>, perm: seq<nat>, k: nat, col: nat, irow: nat, icol: nat)
    requires Progress(a, m, ipiv, perm, k, col) && irow < k && icol < k && |m| == k
    requires ipiv[irow] == 0 && ipiv[icol] == 0 && IsPivot(SwapAt(m, irow, icol), m', icol, k)
    ensures |perm| == k && Progress(a, m', ipiv[icol := 1], SwapAt(perm, irow, icol), k, col + 1)
  {
    hide IsPivot, MatVec;
    var done := Done(ipiv);
    SwapRowsRepresents(a, m, done, perm, k, irow, icol);
    PivotRepresents(a, SwapAt(m, irow, icol), m', done, SwapAt(perm, irow, icol), icol, k);
    PivotsMark(ipiv, icol, k);
    assert Done(ipiv[icol := 1]) == done[icol := true];
  }

  lemma ProgressEnd(a: Matrix, m: Matrix, ipiv: seq<nat>, perm: seq<nat>, k: nat)
    requires Progress(a, m, ipiv, perm, k, k)
    ensures Scrambled(a, m, perm, k)
  {
    var _ := PivotsBound(ipiv, k);
    AllDoneScrambled(a, m, Done(ipiv), perm, k);
  }

  // One pass of the main loop: a pivot is chosen, swapped onto the diagonal and eliminated.
  method Pass(
    t: Tables, src: array<gf>, k: nat, ipiv: array<nat>, idRow: array<gf>, col: nat, ghost a: Matrix,
    ghost perm: seq<nat>)
    returns (irow: int, icol: int)
    requires t.Valid() && src.Length == Off(k, k) && ipiv.Length == k && idRow.Length == k && idRow != src && col < k
    requires Progress(a, Rows(src[..], k, k), ipiv[..], perm, k, col)
    requires forall j :: 0 <= j < k ==> idRow[j] == 0
    modifies src, ipiv, idRow
    ensures forall j :: 0 <= j < k ==> idRow[j] == 0
    ensures IsMatrix(a, k, k) && |perm| == k
    ensures icol == -1 ==> Singular(a, k)
    ensures icol == -1 || (0 <= irow < k && 0 <= icol < k)
    ensures icol != -1 ==> Progress(a, Rows(src[..], k, k), ipiv[..], SwapAt(perm, irow, icol), k, col + 1)
  {
    hide Off, Rows, Row, IsPivot, MulTable, LogTable, InverseTable, ExpTable, Represents, Singular, Pivots;
    ghost var m, marks := Rows(src[..], k, k), ipiv[..];
    irow, icol := FindPivot(src, k, ipiv, col);
    if icol == -1 {
      ProgressStuck(a, m, marks, perm, k, col);
      ProgressShape(a, m, marks, perm, k, col);
      return;
    }
    ipiv[icol] := ipiv[icol] + 1;
    assert ipiv[..] == marks[icol := 1];
    if irow != icol {
      SwapRows(src, k, irow, icol);
    }
    assert Rows(src[..], k, k) == SwapAt(m, irow, icol);
    PivotStep(t, src, idRow, icol, k);
    ProgressStep(a, m, Rows(src[..], k, k), marks, perm, k, col, irow, icol);
    ProgressShape(a, m, marks, perm, k, col);
  }

  lemma ProgressShape(a: Matrix, m: Matrix, ipiv: seq<nat>, perm: seq<nat>, k: nat, col: nat)
    requires Progress(a, m, ipiv, perm, k, col)
    ensures IsMatrix(a, k, k) && |perm| == k
  {}

  method EliminateAll(t: Tables, src: array<gf>, k: nat)
    returns (error: nat, indxr: seq<int>, indxc: seq<int>, ghost hist: seq<seq<nat>>)
    requires t.Valid() && src.Length == Off(k, k)
    modifies src
    ensures error == 0 || error == 1
    ensures error == 0 ==>
      && |indxr| == k && |indxc| == k && History(hist, indxr, indxc, k, k)
      && Scrambled(old(Rows(src[..], k, k)), Rows(src[..], k, k), hist[k], k)
    ensures error == 1 ==> Singular(old(Rows(src[..], k, k)), k)
  {
    hide Off, Rows, Row, MulTable, LogTable, InverseTable, ExpTable, Singular, Scrambled, Progress;
    ghost var a := Rows(src[..], k, k);
    var ipiv := new nat[k](_ => 0);
    var idRow := new gf[k](_ => 0);
    indxr, indxc := [], [];
    hist := [seq(k, j => j)];
    ProgressStart(a, k);
    assert ipiv[..] == seq(k, j => 0);
    for col := 0 to k
      invariant fresh(ipiv) && fresh(idRow)
      invariant forall j :: 0 <= j < k ==> idRow[j] == 0
      invariant |indxr| == |indxc| == col && History(hist, indxr, indxc, k, col)
      invariant Progress(a, Rows(src[..], k, k), ipiv[..], hist[col], k, col)
    {
      var irow, icol := Pass(t, src, k, ipiv, idRow, col, a, hist[col]);
      if icol == -1 {
        return 1, [], [], hist;
      }
      indxr, indxc := indxr + [irow], indxc + [icol];
      hist := hist + [SwapAt(hist[col], irow, icol)];
    }
    ProgressEnd(a, Rows(src[..], k, k), ipiv[..], hist[k], k);
    error := 0;
  }

  // Returns 0 exactly when the matrix has an inverse, and then leaves the inverse in its place.
  method InvertMat(t: Tables, src: array<gf>, k: nat) returns (error: nat)
    requires t.Valid() && src.Length == Off(k, k)
    modifies src
    ensures error == 0 || error == 1
    ensures error == 0 ==> Inverse(old(Rows(src[..], k, k)), Rows(src[..], k, k), k)
    ensures error == 1 ==> Singular(old(Rows(src[..], k, k)), k)
  {
    hide Off, Rows, Row, MulTable, LogTable, InverseTable, ExpTable, Inverse, Singular, Scrambled;
    ghost var a := Rows(src[..], k, k);
    var indxr, indxc;
    ghost var hist;
    error, indxr, indxc, hist := EliminateAll(t, src, k);
    if error == 0 {
      Unscramble(src, k, indxr, indxc, a, hist);
    }
  }
}
