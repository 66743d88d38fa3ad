// What the receiver of coded packets hands on, as a function of the packets that reach it.
module Reassembly {
  import opened Gf
  import opened LinAlg
  import opened Sequences
  import opened FecCodec

  const MAX_BATCH_SIZE: nat := 10
  const PKT_SIZE: nat := 1472

  // What the sender put into a batch: k packets padded to one size, and their true lengths.
  datatype Batch = Batch(startSeq: nat, n: nat, lens: seq<nat>, data: Matrix, sz: nat)
  {
    function K(): nat { |lens| }

    ghost predicate Valid()
    {
      && startSeq > 0 && 1 <= K() <= n <= 255 && K() <= MAX_BATCH_SIZE && 1 <= sz <= PKT_SIZE
      && IsMatrix(data, K(), sz) && forall i :: 0 <= i < K() ==> lens[i] <= sz
    }
  }

  // A packet from the air; the flags stand for the two tests that skip a packet.
  datatype Packet = Packet(
    isGood: bool, isMine: bool, rawSeq: nat, batchId: nat, startSeq: nat, ind: nat, k: nat, n: nat, lens: seq<nat>,
    payload: seq<gf>)

  // One call of EnqueuePkt; the payload has the length that is passed with it.
  datatype Call = Call(seqNum: nat, payload: seq<gf>)

  type Senders = nat -> Batch

  ghost predicate Sent(p: Packet, batch: Batch)
  {
    && batch.Valid() && p.startSeq == batch.startSeq && p.k == batch.K() && p.n == batch.n && p.lens == batch.lens
    && p.ind < batch.n && p.payload == Coded(batch.data, p.ind, batch.K(), batch.sz)
  }

  // The header checks of the source, and that all packets of a batch come from the one sender.
  ghost predicate Acceptable(p: Packet, senders: Senders)
  {
    p.isGood && p.isMine ==> p.batchId > 0 && Sent(p, senders(p.batchId))
  }

  // A batch the receiver has worked on, with the different indices it used, in order of arrival.
  datatype Progress = Progress(batchId: nat, inds: seq<nat>)

  // Stale batches, duplicates, and packets after the k-th are ignored; a newer batch replaces the current one.
  function Step(history: seq<Progress>, p: Packet): seq<Progress>
  {
    var current := if history == [] then 0 else history[|history| - 1].batchId;
    if !p.isGood || !p.isMine || p.batchId < current then history
    else if p.batchId > current then history + [Progress(p.batchId, [p.ind])]
    else
      var last := if history == [] then Progress(0, []) else history[|history| - 1];
      if history == [] || |last.inds| >= p.k || p.ind in last.inds then history
      else history[|history| - 1 := last.(inds := last.inds + [p.ind])]
  }

  // ---- the calls of one batch -------------------------------------------------

  function Native(batch: Batch, i: nat): Call
    requires i < |batch.lens| == |batch.data| && batch.lens[i] <= |batch.data[i]|
  {
    Call(batch.startSeq + i, batch.data[i][..batch.lens[i]])
  }

  // The native packets with indices below m that did not arrive themselves.
  ghost function Recovered(batch: Batch, inds: seq<nat>, m: nat): seq<Call>
    requires batch.Valid() && m <= batch.K()
  {
    if m == 0 then []
    else if m - 1 in inds then Recovered(batch, inds, m - 1)
    else Recovered(batch, inds, m - 1) + [Native(batch, m - 1)]
  }

  // Native packets at once; with the k-th packet the missing ones, in order.
  ghost function Log(batch: Batch, inds: seq<nat>): seq<Call>
    requires batch.Valid()
  {
    if inds == [] then []
    else
      var m := |inds| - 1;
      Log(batch, inds[..m]) + (if inds[m] < batch.K() then [Native(batch, inds[m])] else [])
      + if m + 1 == batch.K() then Recovered(batch, inds, batch.K()) else []
  }

  ghost predicate Known(history: seq<Progress>, senders: Senders)
  {
    forall i :: 0 <= i < |history| ==> senders(history[i].batchId).Valid()
  }

  ghost function Calls(history: seq<Progress>, senders: Senders): seq<Call>
    requires Known(history, senders)
  {
    if history == [] then []
    else
      var last := history[|history| - 1];
      Calls(history[..|history| - 1], senders) + Log(senders(last.batchId), last.inds)
  }

  // ---- exactly once -----------------------------------------------------------

  ghost function Natives(batch: Batch, inds: seq<nat>): seq<Call>
    requires batch.Valid()
  {
    if inds == [] then []
    else
      var m := |inds| - 1;
      Natives(batch, inds[..m]) + if inds[m] < batch.K() then [Native(batch, inds[m])] else []
  }

  // Before the k-th packet, only the native packets that arrived, in that order.
  lemma {:induction false} PartialLog(batch: Batch, inds: seq<nat>)
    requires batch.Valid() && |inds| < batch.K()
    ensures Log(batch, inds) == Natives(batch, inds)
  {
    if inds != [] {
      PartialLog(batch, inds[..|inds| - 1]);
    }
  }

  ghost function AllNatives(batch: Batch, m: nat): (s: seq<Call>)
    requires batch.Valid() && m <= batch.K()
    ensures |s| == m && forall i :: 0 <= i < m ==> s[i] == Native(batch, i)
  {
    seq(m, i requires 0 <= i < m => Native(batch, i))
  }

  // The natives with index below m among inds, and the recovered ones below m, are all those below m.
  ghost function NativesBelow(batch: Batch, inds: seq<nat>, m: nat): seq<Call>
    requires batch.Valid() && m <= batch.K()
  {
    if inds == [] then []
    else
      var l := |inds| - 1;
      NativesBelow(batch, inds[..l], m) + if inds[l] < m then [Native(batch, inds[l])] else []
  }

  lemma {:induction false} BelowAll(batch: Batch, inds: seq<nat>)
    requires batch.Valid()
    ensures NativesBelow(batch, inds, batch.K()) == Natives(batch, inds)
  {
    if inds != [] {
      BelowAll(batch, inds[..|inds| - 1]);
    }
  }

  lemma BelowLast(batch: Batch, inds: seq<nat>, i: nat, m: nat)
    requires batch.Valid() && m <= batch.K()
    ensures multiset(NativesBelow(batch, inds + [i], m)) ==
      multiset(NativesBelow(batch, inds, m)) + if i < m then multiset{Native(batch, i)} else multiset{}
  {
    hide Native;
    assert (inds + [i])[..|inds|] == inds;
  }

  lemma {:induction false} BelowNext(batch: Batch, inds: seq<nat>, m: nat)
    requires batch.Valid() && m < batch.K() && AllDifferent(inds)
    ensures multiset(NativesBelow(batch, inds, m + 1)) ==
      multiset(NativesBelow(batch, inds, m)) + if m in inds then multiset{Native(batch, m)} else multiset{}
  {
    hide Native, NativesBelow;
    if inds == [] {
      BelowEmpty(batch, m);
      BelowEmpty(batch, m + 1);
    } else {
      var s, i := inds[..|inds| - 1], inds[|inds| - 1];
      assert inds == s + [i];
      assert i !in s;
      BelowNext(batch, s, m);
      BelowLast(batch, s, i, m);
      BelowLast(batch, s, i, m + 1);
    }
  }

  lemma BelowEmpty(batch: Batch, m: nat)
    requires batch.Valid() && m <= batch.K()
    ensures NativesBelow(batch, [], m) == []
  {}

  lemma {:induction false} BelowNone(batch: Batch, inds: seq<nat>)
    requires batch.Valid()
    ensures NativesBelow(batch, inds, 0) == []
  {
    if inds != [] {
      BelowNone(batch, inds[..|inds| - 1]);
    }
  }

  lemma AllNativesNext(batch: Batch, m: nat)
    requires batch.Valid() && m < batch.K()
    ensures AllNatives(batch, m + 1) == AllNatives(batch, m) + [Native(batch, m)]
  {
    hide Native;
  }

  lemma RecoveredNext(batch: Batch, inds: seq<nat>, m: nat)
    requires batch.Valid() && m < batch.K()
    ensures multiset(Recovered(batch, inds, m + 1)) ==
      multiset(Recovered(batch, inds, m)) + if m in inds then multiset{} else multiset{Native(batch, m)}
  {
    hide Native;
  }

  lemma {:induction false} BelowAndRecovered(batch: Batch, inds: seq<nat>, m: nat)
    requires batch.Valid() && m <= batch.K() && AllDifferent(inds)
    ensures multiset(NativesBelow(batch, inds, m)) + multiset(Recovered(batch, inds, m)) ==
      multiset(AllNatives(batch, m))
  {
    hide Native, AllDifferent, NativesBelow, Recovered, AllNatives, Batch.Valid;
    if m == 0 {
      BelowNone(batch, inds);
      RecoveredNone(batch, inds);
    } else {
      BelowAndRecovered(batch, inds, m - 1);
      BelowNext(batch, inds, m - 1);
      RecoveredNext(batch, inds, m - 1);
      AllNativesNext(batch, m - 1);
    }
  }

  lemma RecoveredNone(batch: Batch, inds: seq<nat>)
    requires batch.Valid()
    ensures Recovered(batch, inds, 0) == [] && AllNatives(batch, 0) == []
  {}

  // With the k-th packet, every packet of the batch has been handed on, and none twice.
  lemma ExactlyOnce(batch: Batch, inds: seq<nat>)
    requires batch.Valid() && AllDifferent(inds) && |inds| == batch.K()
    ensures multiset(Log(batch, inds)) == multiset(AllNatives(batch, batch.K()))
  {
    var m := |inds| - 1;
    PartialLog(batch, inds[..m]);
    assert Log(batch, inds) == Natives(batch, inds) + Recovered(batch, inds, batch.K());
    BelowAll(batch, inds);
    BelowAndRecovered(batch, inds, batch.K());
  }

  // ---- which numbers and bytes these are ----------------------------------------

  // The call hands on packet i of the batch under the number that belongs to it, cut to its own length.
  ghost predicate HandsOn(c: Call, batch: Batch, i: int)
    requires batch.Valid()
  {
    0 <= i < batch.K() && c.seqNum == batch.startSeq + i && c.payload == batch.data[i][..batch.lens[i]]
  }

  ghost predicate HandedOn(calls: seq<Call>, batch: Batch, i: int)
    requires batch.Valid()
  {
    exists c :: c in calls && HandsOn(c, batch, i)
  }

  // One call for each of the numbers of the batch, and none twice.
  ghost predicate Complete(calls: seq<Call>, batch: Batch)
    requires batch.Valid()
  {
    && |calls| == batch.K()
    && (forall c :: c in calls ==> HandsOn(c, batch, c.seqNum - batch.startSeq))
    && (forall j, l :: 0 <= j < l < |calls| ==> calls[j].seqNum != calls[l].seqNum)
    && forall i :: 0 <= i < batch.K() ==> HandedOn(calls, batch, i)
  }

  // Calls for the native packets that arrived, and for no others.
  ghost predicate Arrived(calls: seq<Call>, batch: Batch, inds: seq<nat>)
    requires batch.Valid()
  {
    && (forall c :: c in calls ==> HandsOn(c, batch, c.seqNum - batch.startSeq) && c.seqNum - batch.startSeq in inds)
    && forall i :: i in inds && i < batch.K() ==> HandedOn(calls, batch, i)
  }

  lemma NativeHandsOn(batch: Batch, i: nat)
    requires batch.Valid() && i < batch.K()
    ensures Native(batch, i) == Call(batch.startSeq + i, batch.data[i][..batch.lens[i]])
    ensures HandsOn(Native(batch, i), batch, i)
  {}

  lemma {:induction false} NativesArrived(batch: Batch, inds: seq<nat>)
    requires batch.Valid()
    ensures Arrived(Natives(batch, inds), batch, inds)
  {
    hide Native, HandsOn, HandedOn, Batch.Valid;
    if inds != [] {
      var m := |inds| - 1;
      NativesArrived(batch, inds[..m]);
      assert inds == inds[..m] + [inds[m]];
      NativesGrow(batch, inds[..m], inds[m]);
    }
  }

  lemma NativesGrow(batch: Batch, inds: seq<nat>, i: nat)
    requires batch.Valid() && Arrived(Natives(batch, inds), batch, inds)
    ensures Arrived(Natives(batch, inds + [i]), batch, inds + [i])
  {
    hide Native, HandsOn, Arrived, HandedOn;
    assert (inds + [i])[..|inds|] == inds;
    if i < batch.K() {
      NativeHandsOn(batch, i);
      OneMoreArrived(Natives(batch, inds), batch, inds, i, Native(batch, i));
    } else {
      NoneArrived(Natives(batch, inds), batch, inds, i);
      assert Natives(batch, inds + [i]) == Natives(batch, inds);
    }
  }

  lemma OneMoreArrived(calls: seq<Call>, batch: Batch, inds: seq<nat>, i: nat, c: Call)
    requires batch.Valid() && Arrived(calls, batch, inds)
    requires i < batch.K() && HandsOn(c, batch, i) && c.seqNum == batch.startSeq + i
    ensures Arrived(calls + [c], batch, inds + [i])
  {
    hide HandsOn, HandedOn, Batch.Valid;
    forall d | d in calls + [c]
      ensures HandsOn(d, batch, d.seqNum - batch.startSeq) && d.seqNum - batch.startSeq in inds + [i]
    {
      assert d in calls || d == c;
    }
    forall j | j in inds + [i] && j < batch.K()
      ensures HandedOn(calls + [c], batch, j)
    {
      if j in inds {
        HandedOnStill(calls, c, batch, j);
      } else {
        HandedOnNow(calls, c, batch, j);
      }
    }
  }

  lemma HandedOnStill(calls: seq<Call>, c: Call, batch: Batch, j: int)
    requires batch.Valid() && HandedOn(calls, batch, j)
    ensures HandedOn(calls + [c], batch, j)
  {
    hide HandsOn, Batch.Valid;
    var d :| d in calls && HandsOn(d, batch, j);
    assert d in calls + [c];
  }

  lemma HandedOnNow(calls: seq<Call>, c: Call, batch: Batch, j: int)
    requires batch.Valid() && HandsOn(c, batch, j)
    ensures HandedOn(calls + [c], batch, j)
  {
    hide HandsOn, Batch.Valid;
    assert c in calls + [c];
  }

  lemma NoneArrived(calls: seq<Call>, batch: Batch, inds: seq<nat>, i: nat)
    requires batch.Valid() && Arrived(calls, batch, inds) && i >= batch.K()
    ensures Arrived(calls, batch, inds + [i])
  {
    hide HandsOn, HandedOn, Batch.Valid;
  }

  lemma AllNativesComplete(batch: Batch)
    requires batch.Valid()
    ensures Complete(AllNatives(batch, batch.K()), batch)
  {
    hide Native, HandsOn;
    var s := AllNatives(batch, batch.K());
    forall i: nat | i < batch.K()
      ensures HandsOn(s[i], batch, i) && s[i].seqNum == batch.startSeq + i && s[i] in s
    {
      NativeHandsOn(batch, i);
    }
    forall i | 0 <= i < batch.K()
      ensures HandedOn(s, batch, i)
    {
      assert s[i] in s && HandsOn(s[i], batch, i);
    }
  }

  lemma CompletePermuted(calls: seq<Call>, calls': seq<Call>, batch: Batch)
    requires batch.Valid() && Complete(calls, batch) && multiset(calls') == multiset(calls)
    ensures Complete(calls', batch)
  {
    hide Batch.Valid, HandsOn;
    assert |calls'| == |multiset(calls')| == |multiset(calls)| == |calls|;
    forall c
      ensures c in calls' <==> c in calls
    {
      assert c in multiset(calls') <==> c in multiset(calls);
    }
    NumbersDiffer(calls, calls', batch);
    forall i | 0 <= i < batch.K()
      ensures HandedOn(calls', batch, i)
    {
      assert HandedOn(calls, batch, i);
    }
  }

  // A call of the batch is determined by its number.
  lemma SameNumber(c: Call, d: Call, batch: Batch)
    requires batch.Valid() && c != d
    requires HandsOn(c, batch, c.seqNum - batch.startSeq) && HandsOn(d, batch, d.seqNum - batch.startSeq)
    ensures c.seqNum != d.seqNum
  {}

  lemma NumbersDiffer(calls: seq<Call>, calls': seq<Call>, batch: Batch)
    requires batch.Valid() && Complete(calls, batch) && multiset(calls') == multiset(calls)
    requires forall c :: c in calls' <==> c in calls
    ensures forall j, l :: 0 <= j < l < |calls'| ==> calls'[j].seqNum != calls'[l].seqNum
  {
    hide Batch.Valid, HandsOn, HandedOn;
    assert AllDifferent(calls);
    AllDifferentPermuted(calls, calls');
    forall j, l | 0 <= j < l < |calls'|
      ensures calls'[j].seqNum != calls'[l].seqNum
    {
      assert calls'[j] in calls && calls'[l] in calls && calls'[j] != calls'[l];
      SameNumber(calls'[j], calls'[l], batch);
    }
  }

  // With k different indices, exactly startSeq .. startSeq + k - 1 have been enqueued, once each with their own bytes;
  // before that, exactly the native ones that arrived.
  lemma LogNumbers(batch: Batch, inds: seq<nat>)
    requires batch.Valid() && AllDifferent(inds) && |inds| <= batch.K()
    ensures |inds| == batch.K() ==> Complete(Log(batch, inds), batch)
    ensures |inds| < batch.K() ==> Arrived(Log(batch, inds), batch, inds)
  {
    hide Native, HandsOn, Complete, Arrived, Log, Natives, AllNatives, AllDifferent, Batch.Valid;
    if |inds| == batch.K() {
      ExactlyOnce(batch, inds);
      AllNativesComplete(batch);
      CompletePermuted(AllNatives(batch, batch.K()), Log(batch, inds), batch);
    } else {
      PartialLog(batch, inds);
      NativesArrived(batch, inds);
    }
  }

  // ---- whole streams ----------------------------------------------------------

  ghost function Run(stream: seq<Packet>): seq<Progress>
  {
    if stream == [] then [] else Step(Run(stream[..|stream| - 1]), stream[|stream| - 1])
  }

  ghost function Newest(stream: seq<Packet>): nat
  {
    if stream == [] then 0
    else
      var p, older := stream[|stream| - 1], Newest(stream[..|stream| - 1]);
      if p.isGood && p.isMine && p.batchId > older then p.batchId else older
  }

  // The first k different indices that arrived for batch b.
  ghost function Arrivals(stream: seq<Packet>, b: nat, k: nat): seq<nat>
  {
    if stream == [] then []
    else
      var p, earlier := stream[|stream| - 1], Arrivals(stream[..|stream| - 1], b, k);
      if p.isGood && p.isMine && p.batchId == b && |earlier| < k && p.ind !in earlier then
        earlier + [p.ind]
      else earlier
  }

  ghost predicate FromSenders(stream: seq<Packet>, senders: Senders)
  {
    forall i :: 0 <= i < |stream| ==> Acceptable(stream[i], senders)
  }

  lemma {:induction false} ArrivalsOfFuture(stream: seq<Packet>, b: nat, k: nat)
    requires b > Newest(stream)
    ensures Arrivals(stream, b, k) == []
  {
    if stream != [] {
      ArrivalsOfFuture(stream[..|stream| - 1], b, k);
    }
  }

  // A batch of the history used different indices of the code, at least one and at most k of them.
  ghost predicate Sound(g: Progress, senders: Senders)
  {
    && g.batchId > 0 && senders(g.batchId).Valid()
    && AllDifferent(g.inds) && 1 <= |g.inds| <= senders(g.batchId).K()
    && forall j :: 0 <= j < |g.inds| ==> g.inds[j] < senders(g.batchId).n
  }

  // No batch is ever worked on twice.
  ghost predicate Ascending(history: seq<Progress>)
  {
    forall i, j :: 0 <= i < j < |history| ==> history[i].batchId < history[j].batchId
  }

  ghost predicate AllSound(history: seq<Progress>, senders: Senders)
  {
    Ascending(history) && forall i :: 0 <= i < |history| ==> Sound(history[i], senders)
  }

  lemma StepSound(history: seq<Progress>, p: Packet, senders: Senders)
    requires AllSound(history, senders) && Acceptable(p, senders)
    ensures AllSound(Step(history, p), senders)
  {
    hide Coded, AllDifferent;
    var h' := Step(history, p);
    if h' != history {
      SentBatch(p, senders);
      if |h'| > |history| {
        SoundNext([], p.ind);
        assert [p.ind] == [] + [p.ind];
      } else {
        assert Sound(history[|history| - 1], senders);
        SoundNext(history[|history| - 1].inds, p.ind);
      }
      forall i | 0 <= i < |h'|
        ensures Sound(h'[i], senders)
      {
        assert i < |h'| - 1 ==> h'[i] == history[i];
      }
    }
  }

  lemma SoundNext(inds: seq<nat>, i: nat)
    requires AllDifferent(inds) || inds == []
    requires i !in inds
    ensures AllDifferent(inds + [i])
  {}

  lemma {:induction false} RunSound(stream: seq<Packet>, senders: Senders)
    requires FromSenders(stream, senders)
    ensures AllSound(Run(stream), senders)
  {
    hide AllSound, Step, Acceptable;
    if stream == [] {
      EmptySound(senders);
    } else {
      var s, p := stream[..|stream| - 1], stream[|stream| - 1];
      assert forall i :: 0 <= i < |s| ==> s[i] == stream[i];
      RunSound(s, senders);
      StepSound(Run(s), p, senders);
    }
  }

  lemma EmptySound(senders: Senders)
    ensures AllSound([], senders)
  {}

  // The newest batch is the last of the history, with the first k different indices that arrived for it.
  lemma {:induction false} RunNewest(stream: seq<Packet>, senders: Senders)
    requires FromSenders(stream, senders)
    ensures Run(stream) == [] <==> Newest(stream) == 0
    ensures Run(stream) != [] ==>
      Run(stream)[|Run(stream)| - 1] ==
      Progress(Newest(stream), Arrivals(stream, Newest(stream), senders(Newest(stream)).K()))
  {
    hide Coded, Sent;
    if stream != [] {
      var s, p := stream[..|stream| - 1], stream[|stream| - 1];
      assert forall i :: 0 <= i < |s| ==> s[i] == stream[i];
      RunNewest(s, senders);
      if p.isGood && p.isMine {
        SentBatch(p, senders);
        if p.batchId > Newest(s) {
          ArrivalsOfFuture(s, p.batchId, p.k);
        }
      }
    }
  }

  lemma SentBatch(p: Packet, senders: Senders)
    requires Acceptable(p, senders) && p.isGood && p.isMine
    ensures p.batchId > 0 && senders(p.batchId).Valid() && p.k == senders(p.batchId).K() && p.ind < senders(p.batchId).n
  {}

  lemma SoundIsKnown(history: seq<Progress>, senders: Senders)
    requires AllSound(history, senders)
    ensures Known(history, senders)
  {
    hide AllDifferent;
    forall i | 0 <= i < |history|
      ensures senders(history[i].batchId).Valid()
    {
      assert Sound(history[i], senders);
    }
  }

  // Over every stream: the calls for the newest batch come last; there are none but native packets as they arrive until
  // k different indices have arrived, and from then on every packet of the batch has been handed on exactly once.
  lemma StreamExactlyOnce(stream: seq<Packet>, senders: Senders)
    requires FromSenders(stream, senders) && Newest(stream) > 0
    ensures Known(Run(stream), senders) && senders(Newest(stream)).Valid()
    ensures var h, batch := Run(stream), senders(Newest(stream));
      var inds := Arrivals(stream, Newest(stream), batch.K());
      && |h| > 0 && Calls(h, senders) == Calls(h[..|h| - 1], senders) + Log(batch, inds)
      && AllDifferent(inds) && |inds| <= batch.K()
      && (|inds| < batch.K() ==> Log(batch, inds) == Natives(batch, inds))
      && (|inds| == batch.K() ==> multiset(Log(batch, inds)) == multiset(AllNatives(batch, batch.K())))
      && (|inds| < batch.K() ==> Arrived(Log(batch, inds), batch, inds))
      && (|inds| == batch.K() ==> Complete(Log(batch, inds), batch))
  {
    hide AllDifferent, Log, Natives, AllNatives, Arrivals, Complete, Arrived;
    var h := Run(stream);
    RunSound(stream, senders);
    SoundIsKnown(h, senders);
    RunNewest(stream, senders);
    assert Sound(h[|h| - 1], senders);
    var batch, inds := senders(Newest(stream)), h[|h| - 1].inds;
    LogNumbers(batch, inds);
    if |inds| < batch.K() {
      PartialLog(batch, inds);
    } else {
      ExactlyOnce(batch, inds);
    }
  }

  // The first k different indices that arrived for batch b before a newer batch did.
  ghost function InTime(stream: seq<Packet>, b: nat, k: nat): seq<nat>
  {
    if stream == [] then []
    else
      var before, p := stream[..|stream| - 1], stream[|stream| - 1];
      var earlier := InTime(before, b, k);
      if p.isGood && p.isMine && p.batchId == b && Newest(before) <= b && |earlier| < k && p.ind !in earlier then
        earlier + [p.ind]
      else earlier
  }

  lemma {:induction false} InTimeFuture(stream: seq<Packet>, b: nat, k: nat)
    requires b > Newest(stream)
    ensures InTime(stream, b, k) == []
  {
    if stream != [] {
      InTimeFuture(stream[..|stream| - 1], b, k);
    }
  }

  // Some packet of batch b came while no newer batch had.
  ghost predicate Came(stream: seq<Packet>, b: nat)
  {
    stream != [] &&
    var before, p := stream[..|stream| - 1], stream[|stream| - 1];
    Came(before, b) || (p.isGood && p.isMine && p.batchId == b && Newest(before) < b)
  }

  // Not only of the newest batch: the history holds exactly the batches that came in time, each with the first k
  // different indices that arrived in time.
  ghost predicate TellsAll(h: seq<Progress>, stream: seq<Packet>, senders: Senders)
  {
    && (forall i :: 0 <= i < |h| ==> h[i].inds == InTime(stream, h[i].batchId, senders(h[i].batchId).K()))
    && (forall i :: 0 <= i < |h| ==> h[i].batchId <= Newest(stream))
    && forall b: nat :: Came(stream, b) <==> exists i :: 0 <= i < |h| && h[i].batchId == b
  }

  lemma {:induction false} EveryBatchTold(stream: seq<Packet>, senders: Senders)
    requires FromSenders(stream, senders)
    ensures TellsAll(Run(stream), stream, senders)
  {
    hide Coded, Sent;
    if stream != [] {
      var before, p := stream[..|stream| - 1], stream[|stream| - 1];
      assert stream == before + [p];
      assert forall i :: 0 <= i < |before| ==> before[i] == stream[i];
      EveryBatchTold(before, senders);
      RunNewest(before, senders);
      RunSound(before, senders);
      if p.isGood && p.isMine {
        SentBatch(p, senders);
        if p.batchId > Newest(before) {
          InTimeFuture(before, p.batchId, p.k);
        }
      }
      TellNext(Run(before), before, p, senders);
    }
  }

  lemma TellNext(h: seq<Progress>, before: seq<Packet>, p: Packet, senders: Senders)
    requires TellsAll(h, before, senders) && AllSound(h, senders)
    requires h == [] <==> Newest(before) == 0
    requires h != [] ==> h[|h| - 1].batchId == Newest(before)
    requires p.isGood && p.isMine ==> p.batchId > 0 && p.k == senders(p.batchId).K() >= 1
    requires p.isGood && p.isMine && p.batchId > Newest(before) ==> InTime(before, p.batchId, p.k) == []
    ensures TellsAll(Step(h, p), before + [p], senders)
  {
    hide Sound, AllSound, InTime, Came, Newest, Step;
    forall i | 0 <= i < |Step(h, p)|
      ensures var g := Step(h, p)[i];
        g.inds == InTime(before + [p], g.batchId, senders(g.batchId).K()) && g.batchId <= Newest(before + [p])
    {
      TellEntry(h, before, p, senders, i);
    }
    TellCame(h, before, p, senders);
  }

  lemma TellEntry(h: seq<Progress>, before: seq<Packet>, p: Packet, senders: Senders, i: nat)
    requires TellsAll(h, before, senders) && AllSound(h, senders)
    requires h == [] <==> Newest(before) == 0
    requires h != [] ==> h[|h| - 1].batchId == Newest(before)
    requires p.isGood && p.isMine ==> p.batchId > 0 && p.k == senders(p.batchId).K() >= 1
    requires p.isGood && p.isMine && p.batchId > Newest(before) ==> InTime(before, p.batchId, p.k) == []
    requires i < |Step(h, p)|
    ensures var g := Step(h, p)[i];
      g.inds == InTime(before + [p], g.batchId, senders(g.batchId).K()) && g.batchId <= Newest(before + [p])
  {
    hide Sound, InTime, Came, Newest;
    NextPacket(before, p);
    if i < |h| {
      assert h[i].inds == InTime(before, h[i].batchId, senders(h[i].batchId).K());
      assert Sound(h[i], senders);
      SoundSize(h[i], senders);
      assert i < |h| - 1 ==> h[i].batchId < h[|h| - 1].batchId;
    }
  }

  lemma TellCame(h: seq<Progress>, before: seq<Packet>, p: Packet, senders: Senders)
    requires TellsAll(h, before, senders) && AllSound(h, senders)
    requires h == [] <==> Newest(before) == 0
    requires h != [] ==> h[|h| - 1].batchId == Newest(before)
    requires p.isGood && p.isMine ==> p.batchId > 0 && p.k == senders(p.batchId).K() >= 1
    ensures forall b: nat ::
      Came(before + [p], b) <==> exists i :: 0 <= i < |Step(h, p)| && Step(h, p)[i].batchId == b
  {
    hide Sound, AllSound, InTime, Came, Newest;
    var h' := Step(h, p);
    NextPacket(before, p);
    forall b: nat
      ensures Came(before + [p], b) <==> exists i :: 0 <= i < |h'| && h'[i].batchId == b
    {
      if i :| 0 <= i < |h| && h[i].batchId == b {
        assert h'[i].batchId == b;
      }
      if Came(before + [p], b) && !Came(before, b) {
        assert h'[|h|].batchId == b;
      }
    }
  }

  lemma SoundSize(g: Progress, senders: Senders)
    requires Sound(g, senders)
    ensures |g.inds| <= senders(g.batchId).K()
  {}

  // One packet more.
  lemma NextPacket(before: seq<Packet>, p: Packet)
    ensures var stream, mine := before + [p], p.isGood && p.isMine;
      && Newest(stream) == (if mine && p.batchId > Newest(before) then p.batchId else Newest(before))
      && (forall b: nat :: Came(stream, b) <==> Came(before, b) || (mine && p.batchId == b && Newest(before) < b))
      && forall b: nat, k: nat :: InTime(stream, b, k) ==
           var earlier := InTime(before, b, k);
           if mine && p.batchId == b && Newest(before) <= b && |earlier| < k && p.ind !in earlier then
             earlier + [p.ind]
           else earlier
  {
    var stream := before + [p];
    assert stream[..|stream| - 1] == before && stream[|stream| - 1] == p;
  }
}
