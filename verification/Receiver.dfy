// The loop that receives coded packets, hands native ones on at once and recovers the rest.
module Receiver {
  import opened Gf
  import opened GfTables
  import opened Sequences
  import opened Generator
  import opened FecCodec
  import opened Batches
  import opened Reassembly
  import RawBuf

  // The positions of a list that hold native indices, in order.
  function NativeInds(inds: seq<nat>, k: nat): seq<nat>
  {
    if inds == [] then []
    else NativeInds(inds[..|inds| - 1], k) + if inds[|inds| - 1] < k then [inds[|inds| - 1]] else []
  }

  lemma {:induction false} NativeIndsMember(inds: seq<nat>, k: nat, i: nat)
    ensures i in NativeInds(inds, k) <==> i in inds && i < k
    ensures |NativeInds(inds, k)| <= |inds|
  {
    if inds != [] {
      var m := |inds| - 1;
      assert inds == inds[..m] + [inds[m]];
      NativeIndsMember(inds[..m], k, i);
    }
  }

  lemma NativeIndsNext(inds: seq<nat>, k: nat, i: nat)
    ensures NativeInds(inds + [i], k) == NativeInds(inds, k) + if i < k then [i] else []
  {
    assert (inds + [i])[..|inds|] == inds;
  }

  lemma {:induction false} AllNative(inds: seq<nat>, k: nat)
    requires |NativeInds(inds, k)| == |inds|
    ensures forall j :: 0 <= j < |inds| ==> inds[j] < k
  {
    if inds != [] {
      var m := |inds| - 1;
      NativeIndsMember(inds[..m], k, 0);
      AllNative(inds[..m], k);
    }
  }

  lemma {:induction false} RecoveredNothing(b: Batch, inds: seq<nat>, m: nat)
    requires b.Valid() && m <= b.K() && forall i: nat :: i < m ==> i in inds
    ensures Recovered(b, inds, m) == []
  {
    if m > 0 {
      RecoveredNothing(b, inds, m - 1);
    }
  }

  // As many native packets as there are packets: nothing is left to recover.
  lemma NothingMissing(b: Batch, inds: seq<nat>)
    requires b.Valid() && Indices(inds, b.K(), b.n) && |NativeInds(inds, b.K())| == b.K()
    ensures Recovered(b, inds, b.K()) == []
  {
    AllNative(inds, b.K());
    Pigeonhole(inds, b.K());
    RecoveredNothing(b, inds, b.K());
  }

  lemma AllReceived(pkts: seq<array<gf>>, inds: seq<nat>, b: Batch)
    requires b.Valid() && |pkts| == |inds| == b.K()
    requires forall i :: 0 <= i < b.K() ==>
      b.sz <= pkts[i].Length && pkts[i][..b.sz] == Coded(b.data, inds[i], b.K(), b.sz)
    ensures Received(pkts, inds, b.data, b.K(), b.sz)
  {
    hide Coded;
  }

  lemma DataRow(pkts: seq<array<gf>>, sz: nat, i: nat)
    requires i < |pkts| && forall j :: 0 <= j < |pkts| ==> sz <= pkts[j].Length
    ensures Data(pkts, sz)[i] == pkts[i][..sz]
  {}

  lemma ShorterPrefix(s: seq<gf>, sz: nat, len: nat)
    requires len <= sz <= |s|
    ensures s[..sz][..len] == s[..len]
  {}

  method IsIndExist(arr: array<nat>, len: nat, val: nat) returns (found: bool)
    requires len <= arr.Length
    ensures found <==> val in arr[..len]
  {
    for i := 0 to len
      invariant val !in arr[..i]
    {
      if arr[i] == val {
        return true;
      }
    }
    found := false;
  }

  // What BatchInfo shows to the thread that creates acknowledgements.
  datatype BatchStatus = BatchStatus(batchId: nat, highestDecodedSeq: nat, decodingDone: bool)

  // The highest first sequence number of any batch so far.
  ghost function MaxStart(history: seq<Progress>, senders: Senders): nat
  {
    if history == [] then 0
    else
      var m, s := MaxStart(history[..|history| - 1], senders), senders(history[|history| - 1].batchId).startSeq;
      if s > m then s else m
  }

  // What the tracker of the raw link is told of a packet, and of a stream: only good packets.
  function Logged(raw: RawBuf.Raw, p: Packet): RawBuf.Raw
  {
    if p.isGood && p.isMine then RawBuf.Push(raw, p.rawSeq, true) else raw
  }

  function AllLogged(raw: RawBuf.Raw, stream: seq<Packet>): RawBuf.Raw
  {
    if stream == [] then raw else Logged(AllLogged(raw, stream[..|stream| - 1]), stream[|stream| - 1])
  }

  // The events of the raw link that a stream causes.
  ghost function RawEvents(stream: seq<Packet>): (events: seq<RawBuf.Event>)
    ensures forall i :: 0 <= i < |events| ==> events[i].PushEvent? && events[i].good
  {
    if stream == [] then []
    else
      var p := stream[|stream| - 1];
      RawEvents(stream[..|stream| - 1]) + if p.isGood && p.isMine then [RawBuf.PushEvent(p.rawSeq, true)] else []
  }

  // Between two reports the tracker goes on with its run, by good pushes only.
  lemma {:induction false} LoggedIsRun(events: seq<RawBuf.Event>, stream: seq<Packet>, max: nat)
    ensures AllLogged(RawBuf.Run(events, max).raw, stream) == RawBuf.Run(events + RawEvents(stream), max).raw
  {
    hide RawBuf.Push, RawBuf.Run;
    if stream == [] {
      assert events + [] == events;
    } else {
      var n := |stream| - 1;
      LoggedIsRun(events, stream[..n], max);
      var earlier, p := events + RawEvents(stream[..n]), stream[n];
      if p.isGood && p.isMine {
        assert events + RawEvents(stream) == earlier + [RawBuf.PushEvent(p.rawSeq, true)];
        RawBuf.RunPushed(earlier, p.rawSeq, true, max);
      } else {
        assert events + RawEvents(stream) == earlier;
      }
    }
  }

  // No batch of the history begins later, and one begins there.
  lemma {:induction false} MaxStartIsHighest(history: seq<Progress>, senders: Senders)
    ensures forall i :: 0 <= i < |history| ==> senders(history[i].batchId).startSeq <= MaxStart(history, senders)
    ensures MaxStart(history, senders) == 0 ||
      exists i :: 0 <= i < |history| && senders(history[i].batchId).startSeq == MaxStart(history, senders)
  {
    if history != [] {
      var n := |history| - 1;
      MaxStartIsHighest(history[..n], senders);
      if i :| 0 <= i < n && senders(history[..n][i].batchId).startSeq == MaxStart(history[..n], senders) {
        assert history[i] == history[..n][i];
      }
    }
  }

  class BatchReceiver {
    const tables: Tables
    const decoder: CodeInfo
    const earlyInds: array<nat>
    var batchId: nat
    var startSeq: nat
    var decodingDone: bool
    var earlyCnt: nat
    var status: BatchStatus
    var calls: seq<Call>
    ghost var history: seq<Progress>
    ghost const senders: Senders
    ghost const Repr: set<object>

    ghost predicate Shape()
      reads this, Repr
    {
      && Repr == {this, earlyInds, decoder} + decoder.Repr && {this, earlyInds} !! decoder.Repr
        && this != earlyInds as object
      && earlyInds.Length == MAX_BATCH_SIZE && tables.Valid()
      && decoder.Valid() && decoder.codecType == Decoder && decoder.maxBatchSize == MAX_BATCH_SIZE
        && decoder.pktSize == PKT_SIZE
    }

    ghost predicate Valid()
      reads this, Repr
    {
      && Shape()
      && AllSound(history, senders) && Known(history, senders) && calls == Calls(history, senders)
      && (history == [] <==> batchId == 0)
      && startSeq == MaxStart(history, senders)
      && (history != [] ==> status == BatchStatus(batchId, startSeq - 1, decodingDone))
      && (history != [] ==> batchId == history[|history| - 1].batchId && Collecting(history[|history| - 1].inds))
    }

    // The state within the current batch, whose packets so far had the indices inds.
    ghost predicate Collecting(inds: seq<nat>)
      requires decoder.Valid() && earlyInds.Length == MAX_BATCH_SIZE && decoder.maxBatchSize == MAX_BATCH_SIZE
      reads this, earlyInds, decoder, decoder.Repr
    {
      var b := senders(batchId);
      && b.Valid() && decoder.k == b.K() && decoder.n == b.n && |inds| <= b.K()
      && decoder.lens[..decoder.k] == b.lens
      && (decodingDone <==> |inds| == b.K())
      && (!decodingDone ==>
            && decoder.curInd == |inds| && decoder.inds[..|inds|] == inds
            && (inds != [] ==> decoder.sz == b.sz)
            && (inds == [] ==> decoder.sz == 0)
            && (forall i :: 0 <= i < |inds| ==> decoder.codedBatch[i][..b.sz] == Coded(b.data, inds[i], b.K(), b.sz))
            && earlyCnt <= |inds| && earlyInds[..earlyCnt] == NativeInds(inds, b.K()))
    }

    constructor (tables: Tables, ghost senders: Senders)
      requires tables.Valid()
      ensures Valid() && fresh(Repr)
      ensures calls == [] && history == [] && this.senders == senders
    {
      this.tables, this.senders := tables, senders;
      var d := new CodeInfo(Decoder, MAX_BATCH_SIZE, PKT_SIZE);
      decoder := d;
      earlyInds := new nat[MAX_BATCH_SIZE](_ => 0);
      batchId, startSeq, decodingDone, earlyCnt := 0, 0, false, 0;
      status := BatchStatus(0, 0, false);
      calls, history := [], [];
      Repr := {this, earlyInds, d} + d.Repr;
    }

    method PrepareDecoder(p: Packet)
      requires decoder.Valid() && 1 <= p.k == |p.lens| <= decoder.maxBatchSize
      modifies decoder.Repr
      ensures decoder.Valid() && decoder.k == p.k && decoder.n == p.n && decoder.sz == decoder.curInd == 0
      ensures decoder.lens[..p.k] == p.lens
    {
      decoder.ClearInfo();
      decoder.SetCodeInfo(p.k, p.n, p.startSeq);
      decoder.CopyLens(p.lens);
    }

    method ClearEarly()
      requires earlyInds.Length == MAX_BATCH_SIZE
      modifies earlyInds
    {
      for i := 0 to MAX_BATCH_SIZE {
        earlyInds[i] := 0;
      }
    }

    // A new batch: what was collected is dropped, even if it could not be decoded.
    method StartBatch(p: Packet)
      requires Shape() && p.batchId > 0 && Sent(p, senders(p.batchId))
      modifies Repr
      ensures Shape() && Collecting([]) && batchId == p.batchId && !decodingDone
      ensures startSeq == if p.startSeq > old(startSeq) then p.startSeq else old(startSeq)
      ensures status == BatchStatus(batchId, startSeq - 1, false)
      ensures calls == old(calls) && history == old(history)
    {
      hide Coded, Received, Indices, CodeInfo.Valid, Tables.Valid, Native;
      decoder.Sizes();
      batchId := p.batchId;
      decodingDone := false;
      earlyCnt := 0;
      PrepareDecoder(p);
      decoder.Sizes();
      ClearEarly();
      startSeq := if p.startSeq > startSeq then p.startSeq else startSeq;
      status := BatchStatus(batchId, startSeq - 1, false);
    }

    // The decoder holds the packets with the indices inds, the last of which has just been pushed.
    ghost predicate Pushed(b: Batch, inds: seq<nat>)
      requires decoder.Valid() && b.Valid() && |inds| <= b.K() && decoder.maxBatchSize == MAX_BATCH_SIZE
        && decoder.pktSize == PKT_SIZE
      reads this, decoder, decoder.Repr
    {
      && decoder.k == b.K() && decoder.n == b.n && decoder.sz == b.sz && decoder.lens[..b.K()] == b.lens
      && decoder.curInd == |inds| && decoder.inds[..|inds|] == inds
      && forall i :: 0 <= i < |inds| ==> decoder.codedBatch[i][..b.sz] == Coded(b.data, inds[i], b.K(), b.sz)
    }

    // The coded packet joins the others; PushPkt cannot refuse it.
    method PushCoded(p: Packet, ghost inds: seq<nat>, ghost b: Batch)
      requires Shape() && b == senders(batchId) && Collecting(inds) && !decodingDone && Sent(p, b) && |inds| < b.K()
      modifies decoder.Repr
      ensures Shape() && Pushed(b, inds + [p.ind])
    {
      hide Coded;
      var ok := decoder.PushPkt(p.payload, p.ind);
      assert ok;
      assert decoder.codedBatch[|inds|][..b.sz] == p.payload;
      forall i | 0 <= i < |inds|
        ensures decoder.codedBatch[i][..b.sz] == Coded(b.data, inds[i], b.K(), b.sz)
      {
        assert decoder.codedBatch[i][..] == old(decoder.codedBatch[i][..]);
        assert decoder.codedBatch[i][..][..b.sz] == decoder.codedBatch[i][..b.sz];
      }
    }

    // The buffers hold the decoded data, and the first i packets have been dealt with.
    ghost predicate HandingOn(i: nat, inds: seq<nat>, b: Batch)
      reads this, Repr
    {
      && Shape() && b.Valid() && decoder.k == b.K() && decoder.n == b.n && i <= b.K()
      && decoder.curInd == i && decoder.lens[..b.K()] == b.lens && Data(decoder.codedBatch[..b.K()], b.sz) == b.data
      && earlyCnt <= MAX_BATCH_SIZE && earlyInds[..earlyCnt] == NativeInds(inds, b.K())
    }

    // The buffer that is popped is the one of the loop index; the pop cannot fail.
    method PopNative(i: nat, ghost inds: seq<nat>, ghost b: Batch) returns (payload: seq<gf>)
      requires HandingOn(i, inds, b) && i < b.K()
      modifies decoder`curInd
      ensures HandingOn(i + 1, inds, b)
      ensures payload == b.data[i][..b.lens[i]]
    {
      hide Within, Buffers, AllSound, Tables.Valid, CodeInfo.Valid, NativeInds, Native;
      decoder.Sizes();
      DataRow(decoder.codedBatch[..b.K()], b.sz, i);
      var ok, buf, len := decoder.PopPkt();
      assert ok && buf == decoder.codedBatch[..b.K()][i] && len == decoder.lens[..b.K()][i];
      ShorterPrefix(buf[..], b.sz, len);
      payload := buf[..len];
    }

    method SkipNative(i: nat, ghost inds: seq<nat>, ghost b: Batch)
      requires HandingOn(i, inds, b) && i < b.K()
      modifies decoder`curInd
      ensures HandingOn(i + 1, inds, b)
    {
      hide Within, AllSound, Tables.Valid, NativeInds, Native;
      decoder.MoveToNextPkt();
    }

    // One turn of the loop over the decoded packets: those that were handed on early are skipped.
    method HandOn(startSeqParse: nat, i: nat, ghost inds: seq<nat>, ghost b: Batch)
      requires HandingOn(i, inds, b) && i < b.K() && startSeqParse == b.startSeq
      modifies this`calls, decoder`curInd
      ensures HandingOn(i + 1, inds, b)
      ensures calls == old(calls) + if i in inds then [] else [Call(b.startSeq + i, b.data[i][..b.lens[i]])]
    {
      hide Within, Buffers, AllSound, Tables.Valid, CodeInfo.Valid, NativeInds;
      decoder.Sizes();
      var early := IsIndExist(earlyInds, earlyCnt, i);
      NativeIndsMember(inds, b.K(), i);
      if !early {
        var payload := PopNative(i, inds, b);
        calls := calls + [Call(startSeqParse + i, payload)];
      } else {
        SkipNative(i, inds, b);
      }
    }

    // The decoder has everything that arrived for batch b: k packets, with the indices inds.
    ghost predicate Full(b: Batch, inds: seq<nat>)
      requires decoder.Valid() && b.Valid() && decoder.maxBatchSize == MAX_BATCH_SIZE && decoder.pktSize == PKT_SIZE
      reads this, decoder, decoder.Repr
    {
      && |inds| == b.K() == decoder.k && decoder.n == b.n && decoder.sz == b.sz
      && decoder.inds[..b.K()] == inds && decoder.lens[..b.K()] == b.lens
      && forall i :: 0 <= i < b.K() ==> decoder.codedBatch[i][..b.sz] == Coded(b.data, inds[i], b.K(), b.sz)
    }

    // Decoding cannot fail: the indices are different and belong to the code.
    method DecodeFull(ghost inds: seq<nat>, ghost b: Batch)
      requires Shape() && b.Valid() && Full(b, inds) && Indices(inds, b.K(), b.n)
      modifies decoder.Repr
      ensures Shape() && decoder.k == b.K() && decoder.n == b.n && decoder.curInd == 0
      ensures decoder.lens[..b.K()] == b.lens && Data(decoder.codedBatch[..b.K()], b.sz) == b.data
    {
      hide Coded, Received, Indices, Native, Within;
      AllReceived(decoder.codedBatch[..b.K()], inds, b);
      var error := decoder.DecodeBatch(tables, b.data);
      assert error == 0;
    }

    // Enough packets, some of them not native: decode, and hand on what has not been handed on yet.
    method RecoverBatch(startSeqParse: nat, k: nat, ghost inds: seq<nat>, ghost b: Batch)
      requires Shape() && b.Valid() && startSeqParse == b.startSeq && k == b.K() && Full(b, inds)
        && Indices(inds, b.K(), b.n)
      requires earlyCnt <= MAX_BATCH_SIZE && earlyInds[..earlyCnt] == NativeInds(inds, b.K())
      modifies this`calls, decoder.Repr
      ensures HandingOn(b.K(), inds, b)
      ensures calls == old(calls) + Recovered(b, inds, b.K())
    {
      hide Coded, Indices, Native, NativeInds, Tables.Valid, CodeInfo.Valid, BatchReceiver.Full;
      DecodeFull(inds, b);
      decoder.Sizes();
      HandOnAll(startSeqParse, k, inds, b);
    }

    method HandOnAll(startSeqParse: nat, k: nat, ghost inds: seq<nat>, ghost b: Batch)
      requires HandingOn(0, inds, b) && b.Valid() && startSeqParse == b.startSeq && k == b.K()
      modifies this`calls, decoder`curInd
      ensures HandingOn(b.K(), inds, b)
      ensures calls == old(calls) + Recovered(b, inds, b.K())
    {
      hide Native, BatchReceiver.HandingOn;
      for i := 0 to k
        invariant HandingOn(i, inds, b)
        invariant calls == old(calls) + Recovered(b, inds, i)
      {
        NativeHandsOn(b, i);
        HandOn(startSeqParse, i, inds, b);
      }
    }

    // A native packet is handed on before the batch is complete.
    method EnqueueNative(p: Packet, ghost inds: seq<nat>, ghost b: Batch)
      requires Shape() && Sent(p, b) && p.ind < b.K() && decoder.lens[..b.K()] == b.lens
      requires earlyCnt < MAX_BATCH_SIZE && earlyInds[..earlyCnt] == NativeInds(inds, b.K())
      modifies this`calls, this`earlyCnt, earlyInds
      ensures Shape() && calls == old(calls) + [Call(b.startSeq + p.ind, b.data[p.ind][..b.lens[p.ind]])]
      ensures earlyCnt == old(earlyCnt) + 1 && earlyInds[..earlyCnt] == NativeInds(inds + [p.ind], b.K())
    {
      hide Coded, Buffers, Within;
      CodedNative(b.data, p.ind, b.K(), b.sz);
      assert decoder.lens[p.ind] == b.lens[p.ind];
      calls := calls + [Call(p.startSeq + p.ind, p.payload[..decoder.lens[p.ind]])];
      earlyInds[earlyCnt] := p.ind;
      earlyCnt := earlyCnt + 1;
      NativeIndsNext(inds, b.K(), p.ind);
    }

    // What a packet with a new index adds to the calls.
    static ghost function Added(b: Batch, inds: seq<nat>, i: nat): seq<Call>
      requires b.Valid()
    {
      (if i < b.K() then [Native(b, i)] else []) + if |inds| + 1 == b.K() then Recovered(b, inds + [i], b.K()) else []
    }

    // With the k-th packet the batch is finished.
    method FinishBatch(p: Packet, ghost inds: seq<nat>, ghost b: Batch)
      requires Shape() && Sent(p, b) && Full(b, inds) && Indices(inds, b.K(), b.n)
      requires earlyCnt <= MAX_BATCH_SIZE && earlyInds[..earlyCnt] == NativeInds(inds, b.K())
      modifies this`calls, this`decodingDone, this`status, decoder.Repr
      ensures Shape() && decoder.k == b.K() && decoder.n == b.n && decoder.lens[..b.K()] == b.lens
      ensures decodingDone && status == old(status).(decodingDone := true)
      ensures calls == old(calls) + Recovered(b, inds, b.K())
    {
      hide Coded, Indices, Native, NativeInds, Tables.Valid, CodeInfo.Valid;
      decoder.Sizes();
      if earlyCnt != p.k {
        RecoverBatch(p.startSeq, p.k, inds, b);
      } else {
        NothingMissing(b, inds);
      }
      decodingDone := true;
      status := status.(decodingDone := true);
    }

    // After a push: the packet itself if it is native, and the others if it completes the batch.
    method AfterPush(p: Packet, ghost inds: seq<nat>, ghost b: Batch)
      requires Shape() && Sent(p, b) && b == senders(batchId) && |inds| < b.K()
        && Indices(inds + [p.ind], |inds| + 1, b.n)
      requires !decodingDone && Pushed(b, inds + [p.ind])
      requires earlyCnt <= |inds| && earlyInds[..earlyCnt] == NativeInds(inds, b.K())
      modifies Repr
      ensures Shape() && Collecting(inds + [p.ind]) && batchId == old(batchId)
      ensures startSeq == old(startSeq) && history == old(history)
      ensures status == if decodingDone then old(status).(decodingDone := true) else old(status)
      ensures calls == old(calls) + Added(b, inds, p.ind)
    {
      hide Coded, Indices, NativeInds, Tables.Valid, CodeInfo.Valid;
      decoder.Sizes();
      NativeIndsNext(inds, b.K(), p.ind);
      if p.ind < p.k {
        NativeHandsOn(b, p.ind);
        EnqueueNative(p, inds, b);
      }
      if decoder.curInd >= p.k {
        FinishBatch(p, inds + [p.ind], b);
        decoder.Sizes();
      }
    }

    // A packet of the current batch with an index not seen before.
    method Accept(p: Packet, ghost inds: seq<nat>, ghost b: Batch)
      requires Shape() && b == senders(batchId) && Collecting(inds) && !decodingDone && Sent(p, b) && |inds| < b.K()
      requires Indices(inds + [p.ind], |inds| + 1, b.n)
      modifies Repr
      ensures Shape() && Collecting(inds + [p.ind]) && batchId == old(batchId)
      ensures startSeq == old(startSeq) && history == old(history)
      ensures status == if decodingDone then old(status).(decodingDone := true) else old(status)
      ensures calls == old(calls) + Added(b, inds, p.ind)
    {
      hide Coded, Indices, Native, NativeInds, Tables.Valid, CodeInfo.Valid, Recovered;
      Owns();
      PushCoded(p, inds, b);
      AfterPush(p, inds, b);
    }

    lemma LogNext(b: Batch, inds: seq<nat>, i: nat)
      requires b.Valid()
      ensures Log(b, inds + [i]) == Log(b, inds) + Added(b, inds, i) && Log(b, []) == []
    {
      assert (inds + [i])[..|inds|] == inds;
    }

    // A packet of a newer batch than the current one.
    method ReceiveNew(p: Packet)
      requires Valid() && Acceptable(p, senders) && p.isGood && p.isMine && batchId < p.batchId
      modifies Repr
      ensures Valid() && history == Step(old(history), p)
    {
      hide Coded, Indices, Native, AllSound, Known, Log, Step, Calls, MaxStart, BatchReceiver.Shape,
        BatchReceiver.Collecting;
      ghost var b, h := senders(p.batchId), history + [Progress(p.batchId, [p.ind])];
      StepNew(history, p, senders);
      Owns();
      StartBatch(p);
      Accept(p, [], b);
      LogNext(b, [], p.ind);
      assert [] + [p.ind] == [p.ind];
      HistoryAppend(history, Progress(p.batchId, [p.ind]), senders);
      Record(h, [] + [p.ind]);
    }

    ghost method Record(h: seq<Progress>, inds: seq<nat>)
      requires Shape() && Collecting(inds)
      modifies this`history
      ensures Shape() && Collecting(inds) && history == h
    {
      hide Coded, Native;
      history := h;
    }

    lemma Owns()
      requires Shape()
      ensures this in Repr && this !in decoder.Repr && decoder.Repr <= Repr && earlyInds !in decoder.Repr
        && earlyInds in Repr
    {}

    // Whether the batch is finished or the index has been seen.
    method Useless(p: Packet, ghost inds: seq<nat>) returns (useless: bool)
      requires Shape() && Collecting(inds)
      ensures useless <==> decodingDone || p.ind in inds
      ensures decodingDone <==> |inds| == senders(batchId).K()
      ensures |inds| <= senders(batchId).K()
    {
      decoder.Sizes();
      if decodingDone {
        return true;
      }
      useless := IsIndExist(decoder.inds, decoder.curInd, p.ind);
    }

    // A packet of the current batch.
    method ReceiveCurrent(p: Packet)
      requires Valid() && Acceptable(p, senders) && p.isGood && p.isMine && batchId == p.batchId
      modifies Repr
      ensures Valid() && history == Step(old(history), p)
    {
      hide Coded, Indices, Native, AllSound, Known, Log, Step, Sent, Calls, MaxStart, Added, BatchReceiver.Shape,
        BatchReceiver.Collecting;
      ghost var b, inds := senders(p.batchId), history[|history| - 1].inds;
      StepCurrent(history, p, senders);
      Owns();
      var useless := Useless(p, inds);
      if useless {
        return;
      }
      HistoryExtend(history, p.ind, senders);
      LogNext(b, inds, p.ind);
      Accept(p, inds, b);
      Record(Extended(history, p.ind), inds + [p.ind]);
    }

    // One turn of the loop, for one packet from the air. Its raw number is logged as good before anything else.
    method Receive(p: Packet, raw: RawBuf.RxRawBuf)
      requires Valid() && Acceptable(p, senders) && raw !in Repr && raw.pktCnt <= RawBuf.MAX_BUF_SIZE
      modifies Repr, raw
      ensures Valid() && history == Step(old(history), p)
      ensures raw.State() == Logged(old(raw.State()), p) && raw.pktCnt <= RawBuf.MAX_BUF_SIZE
      ensures raw.maxSendCnt == old(raw.maxSendCnt)
    {
      hide AllSound, Collecting, Shape, RawBuf.Push;
      if !p.isGood {
        return;
      }
      if !p.isMine {
        return;
      }
      var _ := raw.PushPkts(p.rawSeq, true);
      if batchId > p.batchId {
        return;
      } else if batchId < p.batchId {
        ReceiveNew(p);
      } else {
        ReceiveCurrent(p);
      }
    }

    // The loop, for as long as packets come.
    method RxRcvAth(stream: seq<Packet>, raw: RawBuf.RxRawBuf)
      requires Valid() && history == [] && FromSenders(stream, senders)
      requires raw !in Repr && raw.pktCnt <= RawBuf.MAX_BUF_SIZE
      modifies Repr, raw
      ensures Valid() && history == Run(stream)
      ensures Known(Run(stream), senders) && calls == Calls(Run(stream), senders)
      ensures Newest(stream) > 0 ==>
        var b := Newest(stream);
        && status.batchId == b && status.highestDecodedSeq == MaxStart(Run(stream), senders) - 1
        && (status.decodingDone <==> |Arrivals(stream, b, senders(b).K())| == senders(b).K())
      ensures raw.State() == AllLogged(old(raw.State()), stream) && raw.maxSendCnt == old(raw.maxSendCnt)
    {
      hide AllSound, Collecting, Shape, Step, Acceptable, Calls, MaxStart, Logged;
      ghost var r := Repr;
      assert stream[..0] == [];
      for i := 0 to |stream|
        modifies r, raw
        invariant Valid() && Repr == r && history == Run(stream[..i]) && raw.pktCnt <= RawBuf.MAX_BUF_SIZE
        invariant raw.State() == AllLogged(old(raw.State()), stream[..i]) && raw.maxSendCnt == old(raw.maxSendCnt)
      {
        assert stream[..i + 1][..i] == stream[..i];
        Receive(stream[i], raw);
      }
      assert stream[..|stream|] == stream;
      RunNewest(stream, senders);
      StatusNow();
    }

    lemma StatusNow()
      requires Valid()
      ensures history != [] ==>
        var g := history[|history| - 1];
        && status.batchId == g.batchId && status.highestDecodedSeq == MaxStart(history, senders) - 1
        && (status.decodingDone <==> |g.inds| == senders(g.batchId).K())
    {
      hide AllSound, Calls, MaxStart, Known, CodeInfo.Valid, Native;
    }
  }

  // The history with one more index in its last batch.
  function Extended(history: seq<Progress>, i: nat): (h: seq<Progress>)
    requires history != []
    ensures |h| == |history|
      && h[|h| - 1] == Progress(history[|history| - 1].batchId, history[|history| - 1].inds + [i])
  {
    history[|history| - 1 := history[|history| - 1].(inds := history[|history| - 1].inds + [i])]
  }

  // What the receiver relies on for a packet of a newer batch.
  lemma StepNew(history: seq<Progress>, p: Packet, senders: Senders)
    requires AllSound(history, senders) && Acceptable(p, senders) && p.isGood && p.isMine
    requires history != [] ==> history[|history| - 1].batchId < p.batchId
    ensures var h := history + [Progress(p.batchId, [p.ind])];
      Step(history, p) == h && AllSound(h, senders) && Known(history, senders) && Known(h, senders)
    ensures Sent(p, senders(p.batchId)) && Indices([] + [p.ind], 1, senders(p.batchId).n)
  {
    hide Coded;
    StepSound(history, p, senders);
    SoundIsKnown(history, senders);
    SoundIsKnown(Step(history, p), senders);
  }

  // And for a packet of the current one.
  lemma StepCurrent(history: seq<Progress>, p: Packet, senders: Senders)
    requires AllSound(history, senders) && Acceptable(p, senders) && p.isGood && p.isMine
    requires history != [] && history[|history| - 1].batchId == p.batchId
    ensures var inds, b := history[|history| - 1].inds, senders(p.batchId);
      && b.Valid() && Sent(p, b)
      && (|inds| == b.K() || p.ind in inds ==> Step(history, p) == history)
      && (|inds| < b.K() && p.ind !in inds ==>
            && Step(history, p) == Extended(history, p.ind) && AllSound(Extended(history, p.ind), senders)
            && Known(Extended(history, p.ind), senders) && Indices(inds + [p.ind], |inds| + 1, b.n))
  {
    hide Coded;
    StepSound(history, p, senders);
    SoundIsKnown(Step(history, p), senders);
    assert Sound(history[|history| - 1], senders);
  }

  lemma HistoryAppend(history: seq<Progress>, g: Progress, senders: Senders)
    requires Known(history, senders) && Known(history + [g], senders) && senders(g.batchId).Valid()
    ensures Calls(history + [g], senders) == Calls(history, senders) + Log(senders(g.batchId), g.inds)
    ensures MaxStart(history + [g], senders) ==
      var m, s := MaxStart(history, senders), senders(g.batchId).startSeq; if s > m then s else m
  {
    hide Log;
    assert (history + [g])[..|history|] == history;
  }

  lemma HistoryExtend(history: seq<Progress>, i: nat, senders: Senders)
    requires history != [] && Known(history, senders) && Known(Extended(history, i), senders)
    ensures MaxStart(Extended(history, i), senders) == MaxStart(history, senders)
    ensures var n := |history| - 1;
      var g := history[n];
      && senders(g.batchId).Valid() && Known(history[..n], senders)
      && Calls(history, senders) == Calls(history[..n], senders) + Log(senders(g.batchId), g.inds)
      && Calls(Extended(history, i), senders) == Calls(history[..n], senders) + Log(senders(g.batchId), g.inds + [i])
  {
    hide Log;
    var n := |history| - 1;
    assert Extended(history, i)[..n] == history[..n];
  }
}
