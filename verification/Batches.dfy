// The object that holds one batch of packets, on the encoding or on the decoding side.
module Batches {
  import opened Gf
  import opened GfTables
  import opened LinAlg
  import opened FlatMatrix
  import opened Sequences
  import opened Shuffle
  import opened Generator
  import opened FecCode
  import opened FecCodec

  datatype Codec = Encoder | Decoder

  ghost predicate Buffers(batch: array<array<gf>>, pktSize: nat)
    reads batch
  {
    && (forall i :: 0 <= i < batch.Length ==> batch[i].Length == pktSize)
    && forall i, j :: 0 <= i < j < batch.Length ==> batch[i] != batch[j]
  }

  ghost predicate Within(batch: array<array<gf>>, repr: set<object>)
    reads batch
  {
    batch in repr && forall i :: 0 <= i < batch.Length ==> batch[i] in repr
  }

  method AllocBatch(count: nat, size: nat) returns (batch: array<array<gf>>, ghost repr: set<object>)
    requires count >= 1
    ensures fresh(batch) && fresh(repr) && batch.Length == count
    ensures Buffers(batch, size) && Within(batch, repr)
  {
    var first := new gf[size];
    batch := new array<gf>[count](_ => first);
    repr := {first, batch};
    var i := 1;
    while i < count
      invariant 1 <= i <= count && fresh(repr) && batch in repr
      invariant forall j :: 0 <= j < i ==> batch[j] in repr && batch[j].Length == size
      invariant forall j, l :: 0 <= j < l < i ==> batch[j] != batch[l]
      invariant forall j :: i <= j < count ==> batch[j] == first
    {
      var buf := new gf[size];
      batch[i] := buf;
      repr := repr + {buf};
      i := i + 1;
    }
  }

  method ClearNumbers(a: array<nat>)
    modifies a
    ensures forall i :: 0 <= i < a.Length ==> a[i] == 0
  {
    for i := 0 to a.Length
      invariant forall j :: 0 <= j < i ==> a[j] == 0
    {
      a[i] := 0;
    }
  }

  class CodeInfo {
    const codecType: Codec
    const maxBatchSize: nat
    const pktSize: nat
    const inds: array<nat>
    const lens: array<nat>
    const originalBatch: array<array<gf>>
    const codedBatch: array<array<gf>>
    var k: nat
    var n: nat
    var sz: nat
    var startSeq: nat
    var curInd: nat
    ghost const OriginalRepr: set<object>
    ghost const CodedRepr: set<object>
    ghost const Repr: set<object>

    ghost predicate Valid()
      reads this, Repr
    {
      && Repr == {this, inds, lens} + OriginalRepr + CodedRepr
      && OriginalRepr !! CodedRepr && {this, inds, lens} !! OriginalRepr + CodedRepr && inds != lens
      && originalBatch in OriginalRepr && codedBatch in CodedRepr
      && Within(originalBatch, OriginalRepr) && Within(codedBatch, CodedRepr)
      && Buffers(originalBatch, pktSize) && Buffers(codedBatch, pktSize)
      && inds.Length == codedBatch.Length == GF_SIZE + 1
      && lens.Length == originalBatch.Length == maxBatchSize
      && sz <= pktSize
    }

    // What callers need of the representation.
    lemma Sizes()
      requires Valid()
      ensures {this, inds, lens, codedBatch, originalBatch} <= Repr && inds != lens
      ensures inds.Length == codedBatch.Length == GF_SIZE + 1 && lens.Length == maxBatchSize && sz <= pktSize
      ensures forall i :: 0 <= i < codedBatch.Length ==> codedBatch[i].Length == pktSize && codedBatch[i] in Repr
      ensures CodedRepr <= Repr && {this, inds, lens} !! CodedRepr
    {}

    constructor (codecType: Codec, maxBatchSize: nat, pktSize: nat)
      requires 1 <= maxBatchSize
      ensures Valid() && fresh(Repr)
      ensures this.codecType == codecType && this.maxBatchSize == maxBatchSize && this.pktSize == pktSize
      ensures k == n == sz == startSeq == curInd == 0
    {
      this.codecType, this.maxBatchSize, this.pktSize := codecType, maxBatchSize, pktSize;
      inds, lens := new nat[GF_SIZE + 1], new nat[maxBatchSize];
      k, n, sz, startSeq, curInd := 0, 0, 0, 0, 0;
      var original, ro := AllocBatch(maxBatchSize, pktSize);
      var coded, rc := AllocBatch(GF_SIZE + 1, pktSize);
      originalBatch, codedBatch := original, coded;
      OriginalRepr, CodedRepr := ro, rc;
      Repr := {this, inds, lens} + ro + rc;
    }

    method ZeroBatch(batch: array<array<gf>>, count: nat, ghost repr: set<object>)
      requires Valid() && count <= batch.Length
      requires (batch == originalBatch && repr == OriginalRepr) || (batch == codedBatch && repr == CodedRepr)
      modifies repr
      ensures Valid()
      ensures forall i :: 0 <= i < batch.Length ==> batch[i] == old(batch[i])
      ensures forall i :: 0 <= i < count ==> batch[i][..] == Zeros(pktSize)
    {
      for i := 0 to count
        modifies repr
        invariant Valid()
        invariant forall j :: 0 <= j < batch.Length ==> batch[j] == old(batch[j])
        invariant forall j :: 0 <= j < i ==> batch[j][..] == Zeros(pktSize)
      {
        Clear(batch[i], pktSize);
        assert batch[i][..] == Zeros(pktSize);
      }
    }

    // Every counter and every byte of the batch is zero.
    method ClearInfo()
      requires Valid()
      modifies Repr
      ensures Valid()
      ensures k == n == sz == startSeq == curInd == 0
      ensures codecType == Encoder ==> forall i :: 0 <= i < maxBatchSize ==> originalBatch[i][..] == Zeros(pktSize)
      ensures forall i :: 0 <= i < codedBatch.Length ==> codedBatch[i][..] == Zeros(pktSize)
      ensures (forall i :: 0 <= i < inds.Length ==> inds[i] == 0) && forall i :: 0 <= i < lens.Length ==> lens[i] == 0
    {
      k, n, sz, startSeq, curInd := 0, 0, 0, 0, 0;
      if codecType == Encoder {
        ZeroBatch(originalBatch, maxBatchSize, OriginalRepr);
      }
      ZeroBatch(codedBatch, GF_SIZE + 1, CodedRepr);
      ClearNumbers(inds);
      ClearNumbers(lens);
    }

    method SetCodeInfo(k: nat, n: nat, startSeq: nat)
      requires Valid()
      modifies this
      ensures Valid() && this.k == k && this.n == n && this.startSeq == startSeq
      ensures sz == old(sz) && curInd == old(curInd)
    {
      this.k, this.n, this.startSeq := k, n, startSeq;
    }

    method CopyLens(newLens: seq<nat>)
      requires Valid() && 0 < k <= |newLens| && k <= maxBatchSize
      modifies lens
      ensures Valid() && lens[..k] == newLens[..k]
    {
      for i := 0 to k
        invariant lens[..i] == newLens[..i]
      {
        lens[i] := newLens[i];
      }
    }

    method MoveToNextPkt()
      requires Valid()
      modifies this`curInd
      ensures Valid() && curInd == old(curInd) + 1
    {
      curInd := curInd + 1;
    }

    // What a push into the slot at curInd changes, and what it leaves.
    twostate predicate Pushed(batch: array<array<gf>>, src: seq<gf>, ind: nat)
      requires Valid() && old(Valid()) && old(curInd) < batch.Length && |src| <= pktSize
      requires batch == originalBatch || batch == codedBatch
      reads this, Repr
    {
      && (forall i :: 0 <= i < originalBatch.Length ==> originalBatch[i] == old(originalBatch[i]))
      && (forall i :: 0 <= i < codedBatch.Length ==> codedBatch[i] == old(codedBatch[i]))
      && batch[old(curInd)][..|src|] == src && batch[old(curInd)][|src|..] == old(batch[curInd][|src|..])
      && (forall i :: 0 <= i < batch.Length && i != old(curInd) ==> batch[i][..] == old(batch[i][..]))
      && curInd == old(curInd) + 1 && k == old(k) && n == old(n) && startSeq == old(startSeq)
      && sz == if old(sz) < |src| then |src| else old(sz)
    }

    // Refused when the packet is empty or the batch already has all it can hold.
    method PushPkt(src: seq<gf>, ind: nat) returns (ok: bool)
      requires Valid() && |src| <= pktSize
      requires codecType == Encoder ==> k <= maxBatchSize
      requires codecType == Decoder ==> n <= GF_SIZE + 1
      modifies Repr
      ensures Valid()
      ensures ok <==>
        && |src| > 0
        && if codecType == Encoder then ind == 0 && old(curInd) < old(k) else ind < old(n) && old(curInd) < old(n)
      ensures !ok ==> forall o :: o in Repr ==> unchanged(o)
      ensures ok && codecType == Decoder ==>
        Pushed(codedBatch, src, ind) && unchanged(lens) && inds[..] == old(inds[..])[old(curInd) := ind]
      ensures ok && codecType == Encoder ==>
        Pushed(originalBatch, src, ind) && unchanged(inds) && lens[..] == old(lens[..])[old(curInd) := |src|]
    {
      if |src| == 0 {
        return false;
      }
      var batch;
      if codecType == Encoder {
        if ind != 0 || curInd >= k {
          return false;
        }
        lens[curInd] := |src|;
        batch := originalBatch;
      } else {
        if ind >= n || curInd >= n {
          return false;
        }
        inds[curInd] := ind;
        batch := codedBatch;
      }
      Store(batch[curInd], src);
      if sz < |src| {
        sz := |src|;
      }
      curInd := curInd + 1;
      ok := true;
    }

    // A packet leaves by reference: the caller sees the buffer itself.
    method PopPkt() returns (ok: bool, dst: array?<gf>, len: nat)
      requires Valid()
      requires codecType == Encoder ==> n <= GF_SIZE + 1
      requires codecType == Decoder ==> k <= maxBatchSize && k <= GF_SIZE + 1
      modifies this`curInd
      ensures Valid()
      ensures ok <==> old(curInd) < if codecType == Encoder then n else k
      ensures ok ==> dst == codedBatch[old(curInd)] && len == if codecType == Encoder then sz else lens[old(curInd)]
      ensures curInd == old(curInd) + if ok then 1 else 0
    {
      if codecType == Encoder {
        if curInd >= n {
          return false, null, 0;
        }
        len := sz;
      } else {
        if curInd >= k {
          return false, null, 0;
        }
        len := lens[curInd];
      }
      dst := codedBatch[curInd];
      curInd := curInd + 1;
      ok := true;
    }

    // The coded packet with index i; the other buffers stay as they are.
    method EncodeOne(t: Tables, code: FecParms, i: nat, ghost data: Matrix)
      requires Valid() && t.Valid() && code.Valid() && code.k == k && code.n == n && 1 <= k <= maxBatchSize
      requires i < n <= GF_SIZE + 1 && data == Data(originalBatch[..k], sz)
      modifies inds, codedBatch[i]
      ensures Valid() && Data(originalBatch[..k], sz) == data
      ensures inds[..] == old(inds[..])[i := i] && codedBatch[i][..sz] == Coded(data, i, k, sz)
      ensures forall j :: 0 <= j < codedBatch.Length && j != i ==> codedBatch[j][..] == old(codedBatch[j][..])
    {
      hide Coded, Tables.Valid, FecParms.Valid;
      inds[i] := i;
      FecEncode(t, code, originalBatch[..k], codedBatch[i], inds[i], sz);
    }

    // The coded packets of the batch that has been pushed.
    method EncodeBatch(t: Tables)
      requires Valid() && codecType == Encoder && t.Valid() && 1 <= k <= n <= GF_SIZE + 1 && k <= maxBatchSize
      modifies this`curInd, inds, CodedRepr
      ensures Valid() && curInd == 0
      ensures forall i :: 0 <= i < n ==> inds[i] == i
      ensures forall i :: 0 <= i < codedBatch.Length ==> codedBatch[i] == old(codedBatch[i])
      ensures forall i :: 0 <= i < n ==> codedBatch[i][..sz] == Coded(old(Data(originalBatch[..k], sz)), i, k, sz)
    {
      hide Coded, Tables.Valid, FecParms.Valid;
      var made := FecNew(t, k, n);
      var code := made.value;
      ghost var data := Data(originalBatch[..k], sz);
      for i := 0 to n
        invariant Valid() && Data(originalBatch[..k], sz) == data
        invariant forall j :: 0 <= j < codedBatch.Length ==> codedBatch[j] == old(codedBatch[j])
        invariant forall j :: 0 <= j < i ==> inds[j] == j && codedBatch[j][..][..sz] == Coded(data, j, k, sz)
        modifies inds, CodedRepr
      {
        EncodeOne(t, code, i, data);
        assert codedBatch[i][..][..sz] == codedBatch[i][..sz];
      }
      assert forall j :: 0 <= j < n ==> codedBatch[j][..][..sz] == codedBatch[j][..sz];
      curInd := 0;
    }

    // Succeeds exactly when the first k packets have different indices of the code; if they are coded packets of
    // the same data, the first k buffers then hold the data. An error is only reported, never acted on.
    method DecodeBatch(t: Tables, ghost data: Matrix) returns (error: nat)
      requires Valid() && codecType == Decoder && t.Valid() && 1 <= k <= n <= GF_SIZE + 1
      modifies this`curInd, inds, CodedRepr
      ensures Valid() && curInd == 0
      ensures error == 0 <==> Indices(old(inds[..k]), k, n)
      ensures forall i :: k <= i < codedBatch.Length ==> codedBatch[i] == old(codedBatch[i])
      ensures error == 0 && old(Received(codedBatch[..k], inds[..k], data, k, sz)) ==> Data(codedBatch[..k], sz) == data
    {
      hide Rows, GeneratorRow, RowMat, Coded, Off, Indices, Received, Rearranged;
      var made := FecNew(t, k, n);
      var code := made.value;
      ghost var before, rest := Packets(codedBatch, k), codedBatch[k..];
      assert codedBatch[..] == before + rest;
      error := FecDecode(t, code, codedBatch, inds, sz, data);
      BuffersRearranged(old(inds[..k]), before, inds[..k], Packets(codedBatch, k), rest);
      assert codedBatch[..] == Packets(codedBatch, k) + rest;
      curInd := 0;
    }
  }

  method Store(dst: array<gf>, src: seq<gf>)
    requires |src| <= dst.Length
    modifies dst
    ensures dst[..|src|] == src && dst[|src|..] == old(dst[|src|..])
  {
    for i := 0 to |src|
      invariant dst[..i] == src[..i] && dst[|src|..] == old(dst[|src|..])
    {
      dst[i] := src[i];
    }
  }

  // Rearranging a part of the buffers leaves them all different.
  lemma BuffersRearranged(index: seq<nat>, p: seq<array<gf>>, index': seq<nat>, p': seq<array<gf>>, q: seq<array<gf>>)
    requires |index| == |p| && |index'| == |p'| && Rearranged(index, p, index', p') && AllDifferent(p + q)
    ensures AllDifferent(p' + q) && forall i :: 0 <= i < |p'| ==> p'[i] in p
  {
    AllDifferentPermuted(p + q, p' + q);
    forall i | 0 <= i < |p'|
      ensures p'[i] in p
    {
      SameMembers(p', p, p'[i]);
    }
  }
}
