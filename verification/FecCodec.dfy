// Encoding a packet, and decoding k received packets in place.
module FecCodec {
  import opened Wrappers
  import opened Gf
  import opened GfPowers
  import opened GfTables
  import opened LinAlg
  import opened FlatMatrix
  import opened MatrixOps
  import opened GaussJordan
  import opened Poly
  import opened Generator
  import opened FecCode
  import opened Sequences
  import opened Shuffle

  // The first sz bytes of every packet, one row each.
  ghost function Data(pkts: seq<array<gf>>, sz: nat): (m: Matrix)
    requires forall i :: 0 <= i < |pkts| ==> sz <= pkts[i].Length
    reads pkts
    ensures IsMatrix(m, |pkts|, sz)
    ensures forall i :: 0 <= i < |pkts| ==> m[i] == pkts[i][..sz]
  {
    seq(|pkts|, i requires 0 <= i < |pkts| reads pkts => pkts[i][..sz])
  }

  // The packet with index r of the code over the rows of data.
  ghost function Coded(data: Matrix, r: nat, k: nat, sz: nat): (p: Vec)
    requires k >= 1 && IsMatrix(data, k, sz)
    ensures |p| == sz
  {
    RowMat(GeneratorRow(r, k), data, k, sz)
  }

  // The code is systematic: the first k coded packets are the data.
  lemma CodedNative(data: Matrix, r: nat, k: nat, sz: nat)
    requires k >= 1 && IsMatrix(data, k, sz) && r < k
    ensures Coded(data, r, k, sz) == data[r]
  {
    hide Dot;
    forall b | 0 <= b < sz
      ensures Dot(Unit(r, k), Column(data, b, k, sz), k) == data[r][b]
    {
      DotComm(Unit(r, k), Column(data, b, k, sz), k);
      DotUnit(Column(data, b, k, sz), r, k, k);
    }
  }

  // Each byte of the packet with index r is the value at point r of the polynomial of degree below k that takes the
  // bytes of the native packets at the first k points.
  lemma CodedIsValue(data: Matrix, r: nat, k: nat, sz: nat, b: nat, z: Vec)
    requires 1 <= k <= 256 && IsMatrix(data, k, sz) && b < sz && |z| == k
    requires forall i :: 0 <= i < k ==> Eval(z, 0, Point(i)) == data[i][b]
    ensures Coded(data, r, k, sz)[b] == Eval(z, 0, Point(r))
  {
    hide Dot, Eval, Point, GeneratorRow;
    GeneratorEvaluates(r, k, Column(data, b, k, sz), z);
  }

  // There is such a polynomial for every place in the packets, and only one.
  lemma CodedHasPolynomial(data: Matrix, k: nat, sz: nat, b: nat) returns (z: Vec)
    requires 1 <= k <= 256 && IsMatrix(data, k, sz) && b < sz
    ensures |z| == k && forall i :: 0 <= i < k ==> Eval(z, 0, Point(i)) == data[i][b]
    ensures forall w: Vec :: Interpolates(w, Column(data, b, k, sz), k) ==> w == z
  {
    hide Dot, Eval, Point;
    z := Interpolant(Column(data, b, k, sz), k);
  }

  // Two native packets of one byte, 1 and 0: the first repair packet is 3.
  lemma CodedSample()
    ensures Coded([[1], [0]], 2, 2, 1) == [3]
  {
    hide Coded, Dot;
    var z: Vec := [1, 1];
    PointsAreSuccessive(1);
    EvalSample();
    CodedIsValue([[1], [0]], 2, 2, 1, 0, z);
  }

  lemma EvalSample()
    ensures Eval([1, 1], 0, 0) == 1 && Eval([1, 1], 0, 1) == 0 && Eval([1, 1], 0, 2) == 3
  {
    hide Mul, Add, Eval;
    forall x: gf
      ensures Eval([1, 1], 0, x) == Add(1, x)
    {
      EvalUnfold([1, 1], 0, x);
      EvalUnfold([1, 1], 1, x);
      EvalEnd([1, 1], x);
      MulZero(x);
      AddLaws(1, 0, 0);
    }
    XorSample();
  }

  lemma XorSample()
    ensures Add(1, 0) == 1 && Add(1, 1) == 0 && Add(1, 2) == 3
  {}

  method Clear(dst: array<gf>, sz: nat)
    requires sz <= dst.Length
    modifies dst
    ensures forall m :: 0 <= m < sz ==> dst[m] == 0
    ensures forall m :: sz <= m < dst.Length ==> dst[m] == old(dst[m])
  {
    for i := 0 to sz
      invariant forall m :: 0 <= m < i ==> dst[m] == 0
      invariant forall m :: i <= m < dst.Length ==> dst[m] == old(dst[m])
    {
      dst[i] := 0;
    }
  }

  // One packet more of the combination.
  method CombineStep(
    t: Tables, coef: seq<gf>, src: seq<array<gf>>, dst: array<gf>, i: nat, k: nat, sz: nat, ghost data: Matrix)
    requires t.Valid() && |coef| == |src| == k && i < k && sz <= dst.Length && dst !in src
    requires forall j :: 0 <= j < k ==> sz <= src[j].Length
    requires data == Data(src, sz)
    requires forall b :: 0 <= b < sz ==> dst[b] == Dot(coef, Column(data, b, k, sz), i)
    modifies dst
    ensures Data(src, sz) == data
    ensures forall b :: 0 <= b < sz ==> dst[b] == Dot(coef, Column(data, b, k, sz), i + 1)
    ensures forall m :: sz <= m < dst.Length ==> dst[m] == old(dst[m])
  {
    hide Add, Mul, Tables.Valid, Dot, Column;
    AddMul(t, dst, 0, src[i], 0, coef[i], sz);
    forall b | 0 <= b < sz
      ensures dst[b] == Dot(coef, Column(data, b, k, sz), i + 1)
    {
      assert Column(data, b, k, sz)[i] == data[i][b] == src[i][b];
      DotNext(coef, Column(data, b, k, sz), i);
    }
  }

  lemma DotNext(a: Vec, b: Vec, n: nat)
    requires n < |a| && n < |b|
    ensures Dot(a, b, n + 1) == Add(Dot(a, b, n), Mul(a[n], b[n])) && Dot(a, b, 0) == 0
  {
    hide Add, Mul;
  }

  lemma CombinedNone(coef: seq<gf>, data: Matrix, k: nat, sz: nat)
    requires |coef| == k && IsMatrix(data, k, sz)
    ensures forall b :: 0 <= b < sz ==> Dot(coef, Column(data, b, k, sz), 0) == 0
  {}

  lemma CombinedAll(row: seq<gf>, coef: seq<gf>, data: Matrix, k: nat, sz: nat)
    requires |coef| == k && IsMatrix(data, k, sz) && |row| == sz
    requires forall b :: 0 <= b < sz ==> row[b] == Dot(coef, Column(data, b, k, sz), k)
    ensures row == RowMat(coef, data, k, sz)
  {
    hide Dot, Column;
  }

  // dst = sum of coef[i] * src[i], accumulated packet by packet.
  method Combine(t: Tables, coef: seq<gf>, src: seq<array<gf>>, dst: array<gf>, k: nat, sz: nat)
    requires t.Valid() && |coef| == |src| == k && sz <= dst.Length && dst !in src
    requires forall i :: 0 <= i < k ==> sz <= src[i].Length
    modifies dst
    ensures dst[..sz] == RowMat(coef, Data(src, sz), k, sz)
    ensures forall m :: sz <= m < dst.Length ==> dst[m] == old(dst[m])
  {
    hide Add, Mul, Tables.Valid, Column, Dot, RowMat;
    Clear(dst, sz);
    ghost var data := Data(src, sz);
    CombinedNone(coef, data, k, sz);
    for i := 0 to k
      invariant Data(src, sz) == data
      invariant forall b :: 0 <= b < sz ==> dst[b] == Dot(coef, Column(data, b, k, sz), i)
      invariant forall m :: sz <= m < dst.Length ==> dst[m] == old(dst[m])
    {
      CombineStep(t, coef, src, dst, i, k, sz, data);
    }
    CombinedAll(dst[..sz], coef, data, k, sz);
  }

  // A packet with an index that the code does not have is left as it was.
  method FecEncode(t: Tables, code: FecParms, src: seq<array<gf>>, fec: array<gf>, index: nat, sz: nat)
    requires t.Valid() && code.Valid() && |src| == code.k && sz <= fec.Length && fec !in src
    requires forall i :: 0 <= i < code.k ==> sz <= src[i].Length
    modifies fec
    ensures index < code.n ==> fec[..sz] == Coded(Data(src, sz), index, code.k, sz)
    ensures forall m :: sz <= m < fec.Length ==> fec[m] == old(fec[m])
    ensures index >= code.n ==> fec[..] == old(fec[..])
  {
    hide Off, Rows, GeneratorRow, RowMat, MulTable, ExpTable, LogTable, InverseTable;
    var k := code.k;
    if index < k {
      ghost var data := Data(src, sz);
      for i := 0 to sz
        invariant forall m :: 0 <= m < i ==> fec[m] == src[index][m]
        invariant forall m :: i <= m < fec.Length ==> fec[m] == old(fec[m])
      {
        fec[i] := src[index][i];
      }
      CodedNative(data, index, k, sz);
      assert Data(src, sz) == data;
      assert fec[..sz] == data[index];
    } else if index < code.n {
      OffLess(index, code.n, k);
      RowsRow(code.encMatrix, code.n, k, index);
      Combine(t, Row(code.encMatrix, Off(index, k), k), src, fec, k, sz);
    }
  }

  // ---- decoding ---------------------------------------------------------------

  // Applying the inverse of the received rows to the received packets gives back the data.
  lemma RecoveredRow(m: Matrix, inv: Matrix, data: Matrix, received: Matrix, k: nat, sz: nat, r: nat)
    requires IsMatrix(m, k, k) && IsMatrix(inv, k, k) && IsMatrix(data, k, sz) && IsMatrix(received, k, sz)
    requires Inverse(m, inv, k) && r < k
    requires forall i :: 0 <= i < k ==> received[i] == RowMat(m[i], data, k, sz)
    ensures RowMat(inv[r], received, k, sz) == data[r]
  {
    hide Dot;
    forall b | 0 <= b < sz
      ensures RowMat(inv[r], received, k, sz)[b] == data[r][b]
    {
      var s, v := Column(data, b, k, sz), Column(received, b, k, sz);
      assert v == MatVec(m, s);
      assert MatVec(inv, v) == s;
    }
  }

  method BuildDecodeMatrix(t: Tables, code: FecParms, index: seq<nat>) returns (matrix: Option<array<gf>>)
    requires t.Valid() && code.Valid() && |index| == code.k
    requires forall i :: 0 <= i < code.k ==> index[i] >= code.k || index[i] == i
    ensures matrix.Some? ==> fresh(matrix.value) && matrix.value.Length == Off(code.k, code.k)
    ensures matrix.Some? ==> Inverse(Selection(index, code.k), Rows(matrix.value[..], code.k, code.k), code.k)
    ensures matrix.Some? ==> forall i :: 0 <= i < code.k ==> index[i] < code.n
    ensures matrix.None? ==>
      Singular(Selection(index, code.k), code.k) || exists i :: 0 <= i < code.k && index[i] >= code.n
  {
    hide Off, Rows, Row, GeneratorRow, Inverse, Singular, MulTable, ExpTable, LogTable, InverseTable;
    var k := code.k;
    var m := new gf[Off(k, k)];
    var p: nat := 0;
    OffZero(k);
    for i := 0 to k
      invariant p == Off(i, k)
      invariant forall r :: 0 <= r < i ==> index[r] < code.n && Rows(m[..], k, k)[r] == GeneratorRow(index[r], k)
    {
      OffLess(i, k, k);
      OffNext(i, k);
      ghost var s := m[..];
      if index[i] < k {
        FillUnit(m, p, i, k);
        GeneratorTop(i, k);
      } else if index[i] < code.n {
        OffLess(index[i], code.n, k);
        RowsRow(code.encMatrix, code.n, k, index[i]);
        CopyRow(m, p, code.encMatrix, Off(index[i], k), k);
      } else {
        return None;
      }
      RowsUpdate(s, m[..], k, k, i);
      p := p + k;
    }
    assert Rows(m[..], k, k) == Selection(index, k);
    var error := InvertMat(t, m, k);
    matrix := if error != 0 then None else Some(m);
  }

  lemma GeneratorTop(r: nat, k: nat)
    requires r < k
    ensures GeneratorRow(r, k) == Unit(r, k)
  {}

  method FillUnit(m: array<gf>, p: nat, j: nat, k: nat)
    requires p + k <= m.Length && j < k
    modifies m
    ensures Row(m[..], p, k) == Unit(j, k)
    ensures forall i :: 0 <= i < m.Length && !(p <= i < p + k) ==> m[i] == old(m[i])
  {
    for i := 0 to k
      invariant forall q :: p <= q < p + i ==> m[q] == 0
      invariant forall q :: 0 <= q < m.Length && !(p <= q < p + i) ==> m[q] == old(m[q])
    {
      m[p + i] := 0;
    }
    m[p + j] := 1;
  }

  method CopyRow(m: array<gf>, p: nat, s: seq<gf>, q: nat, k: nat)
    requires p + k <= m.Length && q + k <= |s|
    modifies m
    ensures Row(m[..], p, k) == Row(s, q, k)
    ensures forall i :: 0 <= i < m.Length && !(p <= i < p + k) ==> m[i] == old(m[i])
  {
    for i := 0 to k
      invariant forall j :: p <= j < p + i ==> m[j] == s[j - p + q]
      invariant forall j :: 0 <= j < m.Length && !(p <= j < p + i) ==> m[j] == old(m[j])
    {
      m[p + i] := s[q + i];
    }
  }

  // The packets whose indices are not native, computed from all the received ones into buffers of their own.
  method ComputeMissing(t: Tables, inv: seq<gf>, pkts: seq<array<gf>>, index: seq<nat>, k: nat, sz: nat)
    returns (recovered: seq<array<gf>>)
    requires t.Valid() && |pkts| == |index| == k && |inv| == Off(k, k)
    requires forall i :: 0 <= i < k ==> sz <= pkts[i].Length
    ensures |recovered| == k && forall r :: 0 <= r < k ==> fresh(recovered[r]) && recovered[r].Length == sz
    ensures forall r :: 0 <= r < k && index[r] >= k ==>
      recovered[r][..] == RowMat(Rows(inv, k, k)[r], Data(pkts, sz), k, sz)
  {
    hide Off, Rows, Row, RowMat, MulTable, ExpTable, LogTable, InverseTable;
    ghost var data := Data(pkts, sz);
    recovered := [];
    for row := 0 to k
      invariant |recovered| == row && Data(pkts, sz) == data
      invariant forall r :: 0 <= r < row ==> fresh(recovered[r]) && recovered[r].Length == sz
      invariant forall r :: 0 <= r < row && index[r] >= k ==>
        recovered[r][..] == RowMat(Rows(inv, k, k)[r], data, k, sz)
    {
      var buf := new gf[sz];
      if index[row] >= k {
        OffLess(row, k, k);
        RowsRow(inv, k, k, row);
        Combine(t, Row(inv, Off(row, k), k), pkts, buf, k, sz);
        assert buf[..] == buf[..sz];
      }
      recovered := recovered + [buf];
    }
  }

  // Moves them to their final destination.
  method MoveMissing(recovered: seq<array<gf>>, pkts: seq<array<gf>>, index: seq<nat>, k: nat, sz: nat)
    requires |pkts| == |index| == |recovered| == k && AllDifferent(pkts)
    requires forall i :: 0 <= i < k ==> sz <= pkts[i].Length && recovered[i].Length == sz && recovered[i] !in pkts
    modifies pkts
    ensures forall r :: 0 <= r < k && index[r] < k ==> pkts[r][..] == old(pkts[r][..])
    ensures forall r :: 0 <= r < k && index[r] >= k ==> pkts[r][..sz] == old(recovered[r][..])
    ensures forall r, m :: 0 <= r < k && sz <= m < pkts[r].Length ==> pkts[r][m] == old(pkts[r][m])
  {
    for row := 0 to k
      invariant forall r :: 0 <= r < k && (index[r] < k || r >= row) ==> pkts[r][..] == old(pkts[r][..])
      invariant forall r :: 0 <= r < row && index[r] >= k ==> pkts[r][..sz] == old(recovered[r][..])
      invariant forall r, m :: 0 <= r < k && sz <= m < pkts[r].Length ==> pkts[r][m] == old(pkts[r][m])
    {
      if index[row] >= k {
        CopyPacket(recovered[row], pkts[row], sz);
      }
    }
  }

  method CopyPacket(src: array<gf>, dst: array<gf>, sz: nat)
    requires sz <= src.Length && sz <= dst.Length && src != dst
    modifies dst
    ensures dst[..sz] == src[..sz]
    ensures forall m :: sz <= m < dst.Length ==> dst[m] == old(dst[m])
  {
    for i := 0 to sz
      invariant forall m :: 0 <= m < i ==> dst[m] == src[m]
      invariant forall m :: i <= m < dst.Length ==> dst[m] == old(dst[m])
    {
      dst[i] := src[i];
    }
  }

  // Every received packet is the one its index says.
  ghost predicate Received(pkts: seq<array<gf>>, index: seq<nat>, data: Matrix, k: nat, sz: nat)
    requires k >= 1 && |pkts| == |index| == k && forall i :: 0 <= i < k ==> sz <= pkts[i].Length
    reads pkts
  {
    IsMatrix(data, k, sz) && forall i :: 0 <= i < k ==> pkts[i][..sz] == Coded(data, index[i], k, sz)
  }

  lemma ReceivedRearranged(
    pkts: seq<array<gf>>, index: seq<nat>, pkts': seq<array<gf>>, index': seq<nat>, data: Matrix, k: nat, sz: nat)
    requires k >= 1 && |pkts| == |index| == |pkts'| == |index'| == k
    requires forall i :: 0 <= i < k ==> sz <= pkts[i].Length
    requires Rearranged(index, pkts, index', pkts')
    ensures forall i :: 0 <= i < k ==> pkts'[i] in pkts && sz <= pkts'[i].Length
    ensures Received(pkts, index, data, k, sz) ==> Received(pkts', index', data, k, sz)
  {
    hide Coded;
    forall i | 0 <= i < k
      ensures exists j :: 0 <= j < k && pkts'[i] == pkts[j] && index'[i] == index[j]
    {
      assert Pairs(index', pkts')[i] in Pairs(index', pkts');
      SameMembers(Pairs(index', pkts'), Pairs(index, pkts), (index'[i], pkts'[i]));
      var j :| 0 <= j < k && Pairs(index, pkts)[j] == (index'[i], pkts'[i]);
    }
  }

  lemma IndicesRearranged(index: seq<nat>, index': seq<nat>, k: nat, n: nat)
    requires multiset(index) == multiset(index') && |index| == |index'|
    ensures Indices(index, k, n) <==> Indices(index', k, n)
  {
    IndicesKept(index, index', k, n);
    IndicesKept(index', index, k, n);
  }

  lemma IndicesKept(index: seq<nat>, index': seq<nat>, k: nat, n: nat)
    requires multiset(index) == multiset(index') && |index| == |index'|
    ensures Indices(index, k, n) ==> Indices(index', k, n)
  {
    if Indices(index, k, n) {
      AllDifferentPermuted(index, index');
      forall i | 0 <= i < k
        ensures index'[i] < n
      {
        SameMembers(index', index, index'[i]);
      }
    }
  }

  lemma ClashNotIndices(index: seq<nat>, k: nat, n: nat)
    requires Clash(index, k)
    ensures !Indices(index, k, n)
  {}

  // Whatever makes the decoding matrix fail is a wrong choice of packets.
  lemma MatrixFailure(index: seq<nat>, k: nat, n: nat)
    requires 1 <= k <= n <= 256 && |index| == k
    requires Singular(Selection(index, k), k) || exists i :: 0 <= i < k && index[i] >= n
    ensures !Indices(index, k, n)
  {
    hide Singular, Selection;
    if Indices(index, k, n) {
      MaximumDistance(index, k);
    }
  }

  lemma MatrixSuccess(index: seq<nat>, k: nat, n: nat, inv: Matrix)
    requires k >= 1 && |index| == k && IsMatrix(inv, k, k) && Inverse(Selection(index, k), inv, k)
    requires forall i :: 0 <= i < k ==> index[i] < n
    ensures Indices(index, k, n)
  {
    hide Inverse, Selection;
    forall i, j | 0 <= i < j < k
      ensures index[i] != index[j]
    {
      InvertibleRowsDiffer(index, k, inv, i, j);
    }
  }

  // Native packets stay, the others are recovered; together they are the data.
  lemma DecodedData(index: seq<nat>, inv: Matrix, data: Matrix, received: Matrix, decoded: Matrix, k: nat, sz: nat)
    requires k >= 1 && |index| == k && IsMatrix(inv, k, k) && Inverse(Selection(index, k), inv, k)
    requires IsMatrix(data, k, sz) && IsMatrix(received, k, sz) && IsMatrix(decoded, k, sz)
    requires forall i :: 0 <= i < k ==> received[i] == Coded(data, index[i], k, sz)
    requires forall r :: 0 <= r < k && index[r] < k ==> index[r] == r && decoded[r] == received[r]
    requires forall r :: 0 <= r < k && index[r] >= k ==> decoded[r] == RowMat(inv[r], received, k, sz)
    ensures decoded == data
  {
    hide Inverse, RowMat, GeneratorRow;
    forall r | 0 <= r < k
      ensures decoded[r] == data[r]
    {
      if index[r] < k {
        CodedNative(data, r, k, sz);
      } else {
        RecoveredRow(Selection(index, k), inv, data, received, k, sz, r);
      }
    }
  }

  lemma ChoiceRearranged(pkts: seq<array<gf>>, index: seq<nat>, pkts': seq<array<gf>>, index': seq<nat>, k: nat, n: nat)
    requires |pkts| == |index| && |pkts'| == |index'| && Rearranged(index, pkts, index', pkts') && AllDifferent(pkts)
    ensures AllDifferent(pkts')
    ensures Indices(index, k, n) <==> Indices(index', k, n)
  {
    hide AllDifferent, Indices;
    AllDifferentPermuted(pkts, pkts');
    IndicesRearranged(index, index', k, n);
  }

  // The part after the shuffle, on the packets and indices it has arranged.
  method DecodeArranged(t: Tables, code: FecParms, pkts: seq<array<gf>>, index: seq<nat>, sz: nat, ghost data: Matrix)
    returns (error: nat)
    requires t.Valid() && code.Valid() && |pkts| == |index| == code.k
    requires AllDifferent(pkts) && forall i :: 0 <= i < code.k ==> sz <= pkts[i].Length
    requires forall i :: 0 <= i < code.k ==> index[i] >= code.k || index[i] == i
    modifies pkts
    ensures error == 0 || error == 1
    ensures error == 0 <==> Indices(index, code.k, code.n)
    ensures error == 1 ==> forall r :: 0 <= r < code.k ==> pkts[r][..] == old(pkts[r][..])
    ensures forall r, m :: 0 <= r < code.k && sz <= m < pkts[r].Length ==> pkts[r][m] == old(pkts[r][m])
    ensures error == 0 && old(Received(pkts, index, data, code.k, sz)) ==> Data(pkts, sz) == data
  {
    hide Off, Rows, Row, RowMat, GeneratorRow, MulTable, ExpTable, LogTable, InverseTable, Selection, Coded;
    hide Indices, Inverse, Singular;
    var k := code.k;
    var matrix := BuildDecodeMatrix(t, code, index);
    if matrix.None? {
      MatrixFailure(index, k, code.n);
      return 1;
    }
    var inv := matrix.value[..];
    MatrixSuccess(index, k, code.n, Rows(inv, k, k));
    ghost var received := Data(pkts, sz);
    var recovered := ComputeMissing(t, inv, pkts, index, k, sz);
    MoveMissing(recovered, pkts, index, k, sz);
    if old(Received(pkts, index, data, k, sz)) {
      forall r | 0 <= r < k && index[r] < k
        ensures pkts[r][..sz] == received[r]
      {
        assert pkts[r][..][..sz] == old(pkts[r][..])[..sz];
      }
      DecodedData(index, Rows(inv, k, k), data, received, Data(pkts, sz), k, sz);
    }
    error := 0;
  }

  // Decoding succeeds exactly when the first k indices are different and belong to the code; k coded packets of the
  // same data then leave the data in the packets, in order.
  method FecDecode(t: Tables, code: FecParms, pkt: array<array<gf>>, index: array<nat>, sz: nat, ghost data: Matrix)
    returns (error: nat)
    requires t.Valid() && code.Valid() && code.k <= pkt.Length && code.k <= index.Length
    requires AllDifferent(Packets(pkt, code.k)) && forall i :: 0 <= i < code.k ==> sz <= pkt[i].Length
    modifies pkt, index, Packets(pkt, code.k)
    ensures error == 0 || error == 1
    ensures error == 0 <==> Indices(old(index[..code.k]), code.k, code.n)
    ensures Rearranged(old(index[..code.k]), old(Packets(pkt, code.k)), index[..code.k], Packets(pkt, code.k))
    ensures forall m :: code.k <= m < index.Length ==> index[m] == old(index[m])
    ensures forall m :: code.k <= m < pkt.Length ==> pkt[m] == old(pkt[m])
    ensures error == 1 ==> forall r :: 0 <= r < code.k ==> old(pkt[r])[..] == old(pkt[r][..])
    ensures forall i :: 0 <= i < code.k ==> sz <= pkt[i].Length
    ensures error == 0 && old(Received(Packets(pkt, code.k), index[..code.k], data, code.k, sz)) ==>
      Data(Packets(pkt, code.k), sz) == data
  {
    hide Received, Indices, Clash, Rearranged, AllDifferent, MulTable, ExpTable, LogTable, InverseTable, Rows,
      GeneratorRow;
    var k := code.k;
    ghost var index0, pkts0 := index[..k], Packets(pkt, k);
    error := ShufflePackets(pkt, index, k);
    var idx, pkts := index[..k], pkt[..k];
    ReceivedRearranged(pkts0, index0, pkts, idx, data, k, sz);
    if error != 0 {
      ClashNotIndices(index0, k, code.n);
      return 1;
    }
    ChoiceRearranged(pkts0, index0, pkts, idx, k, code.n);
    error := DecodeArranged(t, code, pkts, idx, sz, data);
  }
}
