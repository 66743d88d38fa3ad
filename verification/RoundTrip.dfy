// What the codec is for: any k different coded packets out of n give back the k native ones.
module RoundTrip {
  import opened Gf
  import opened LinAlg
  import opened GfTables
  import opened Sequences
  import opened Shuffle
  import opened Generator
  import opened FecCode
  import opened FecCodec

  // The coded packets with the indices idx, each in a buffer of its own.
  method EncodeChosen(t: Tables, code: FecParms, src: seq<array<gf>>, idx: seq<nat>, sz: nat)
    returns (pkts: seq<array<gf>>)
    requires t.Valid() && code.Valid() && |src| == |idx| == code.k
    requires forall i :: 0 <= i < code.k ==> sz <= src[i].Length && idx[i] < code.n
    ensures |pkts| == code.k && AllDifferent(pkts)
    ensures forall i :: 0 <= i < code.k ==> fresh(pkts[i]) && pkts[i].Length == sz
    ensures Received(pkts, idx, Data(src, sz), code.k, sz)
  {
    hide Coded, FecParms.Valid, Tables.Valid;
    pkts := [];
    CodeSize(code);
    ghost var data := Data(src, sz);
    for i := 0 to code.k
      invariant |pkts| == i && AllDifferent(pkts)
      invariant forall j :: 0 <= j < i ==> fresh(pkts[j]) && pkts[j].Length == sz
      invariant forall j :: 0 <= j < i ==> pkts[j][..sz] == Coded(data, idx[j], code.k, sz)
    {
      var fec := new gf[sz];
      FecEncode(t, code, src, fec, idx[i], sz);
      pkts := pkts + [fec];
    }
  }

  lemma CodeSize(code: FecParms)
    requires code.Valid()
    ensures 1 <= code.k <= code.n
  {}

  lemma DifferentIndices(idx: seq<nat>, k: nat, n: nat)
    requires |idx| == k && forall i :: 0 <= i < k ==> idx[i] < n
    ensures Indices(idx, k, n) <==> AllDifferent(idx)
  {}

  // Decoding packets that were received with these indices; the order of the buffers is that of the native packets.
  method DecodeChosen(t: Tables, code: FecParms, pkts: seq<array<gf>>, idx: seq<nat>, sz: nat, ghost data: Matrix)
    returns (error: nat, pkt: array<array<gf>>)
    requires t.Valid() && code.Valid() && |pkts| == |idx| == code.k >= 1 && AllDifferent(pkts)
    requires forall i :: 0 <= i < code.k ==> sz <= pkts[i].Length && idx[i] < code.n
    requires Received(pkts, idx, data, code.k, sz)
    modifies pkts
    ensures fresh(pkt) && pkt.Length == code.k && forall i :: 0 <= i < code.k ==> sz <= pkt[i].Length
    ensures error == 0 <==> AllDifferent(idx)
    ensures error == 0 ==> Data(Packets(pkt, code.k), sz) == data
  {
    hide Coded, FecParms.Valid, Tables.Valid, Received, Rearranged, AllDifferent, Indices, Data;
    DifferentIndices(idx, code.k, code.n);
    pkt := new array<gf>[code.k](i requires 0 <= i < code.k => pkts[i]);
    var index := new nat[code.k](i requires 0 <= i < code.k => idx[i]);
    assert Packets(pkt, code.k) == pkts && index[..code.k] == idx;
    error := FecDecode(t, code, pkt, index, sz, data);
  }

  // Decoding succeeds exactly when the indices are different, and then the packets are the native ones.
  method EncodeThenDecode(t: Tables, code: FecParms, src: seq<array<gf>>, idx: seq<nat>, sz: nat)
    returns (error: nat, pkt: array<array<gf>>)
    requires t.Valid() && code.Valid() && |src| == |idx| == code.k
    requires forall i :: 0 <= i < code.k ==> sz <= src[i].Length && idx[i] < code.n
    ensures fresh(pkt) && pkt.Length == code.k && forall i :: 0 <= i < code.k ==> sz <= pkt[i].Length
    ensures error == 0 <==> AllDifferent(idx)
    ensures error == 0 ==> forall r :: 0 <= r < code.k ==> pkt[r][..sz] == src[r][..sz]
  {
    hide Coded, FecParms.Valid, Tables.Valid, Received, AllDifferent;
    CodeSize(code);
    ghost var data := Data(src, sz);
    var pkts := EncodeChosen(t, code, src, idx, sz);
    error, pkt := DecodeChosen(t, code, pkts, idx, sz, data);
    if error == 0 {
      assert forall r :: 0 <= r < code.k ==> Data(Packets(pkt, code.k), sz)[r] == pkt[r][..sz];
      assert forall r :: 0 <= r < code.k ==> data[r] == src[r][..sz];
    }
  }
}
