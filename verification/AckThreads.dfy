// One round of each acknowledging thread of the client: what it puts into the packet, and that nothing of it is lost.
module AckThreads {
  import opened Window
  import opened Nacks
  import opened AckPacket
  import opened DataBuf
  import AckRuns
  import RawBuf

  const BUF_SIZE: nat := 5000

  method PushAll(ack: AckPkt, nacks: seq<nat>)
    requires ack.Valid() && ack.pushed == [] && |nacks| <= ACK_WINDOW
    modifies ack`numNacks, ack`startNackSeq, ack`pushed, ack.relSeqArr
    ensures ack.Valid() && ack.pushed == nacks
  {
    for i := 0 to |nacks|
      modifies ack`numNacks, ack`startNackSeq, ack`pushed, ack.relSeqArr
      invariant ack.Valid() && ack.pushed == nacks[..i]
    {
      ack.PushNack(nacks[i]);
    }
    assert nacks[..|nacks|] == nacks;
  }

  // A list goes into the packet whole, and the receiver of the packet reads the same list.
  method SendDataAck(ack: AckPkt, nacks: seq<nat>, endSeq: nat)
    requires ack.Valid() && |nacks| <= ACK_WINDOW && Close(nacks)
    modifies ack, ack.relSeqArr
    ensures ack.Valid() && ack.ackType == DataAck && ack.ackSeq == old(ack.ackSeq) + 1
    ensures ack.endSeq == endSeq && ack.pushed == nacks
    ensures Decoded(ack.startNackSeq, Encoded(ack.pushed)) == ack.pushed
  {
    hide Close, Decoded, Encoded;
    ack.Init(DataAck);
    PushAll(ack, nacks);
    ack.endSeq := endSeq;
    PushedRead(ack);
  }

  // A round whose list is the k-th one found in a run in which the other threads move the window as they like: the list
  // is never too long for the packet, and nothing of it is lost.
  method RxCreateDataAck(ack: AckPkt, nacks: seq<nat>, endSeq: nat, ghost moves: seq<AckRuns.Move>, ghost k: nat)
    requires ack.Valid()
    requires var sent := AckRuns.Exec(AckRuns.Init(BUF_SIZE), moves, ACK_WINDOW).sent;
      k < |sent| && sent[k] == (nacks, endSeq)
    modifies ack, ack.relSeqArr
    ensures ack.Valid() && ack.ackType == DataAck && ack.ackSeq == old(ack.ackSeq) + 1
    ensures ack.endSeq == endSeq && ack.pushed == nacks && |nacks| < ACK_WINDOW
    ensures Decoded(ack.startNackSeq, Encoded(ack.pushed)) == ack.pushed
  {
    hide AckRuns.Exec, Close, Decoded, Encoded;
    AckRuns.EveryListLossless(BUF_SIZE, moves, ACK_WINDOW, k);
    SendDataAck(ack, nacks, endSeq);
  }

  // A round on the buffer itself, not interrupted while it searches.
  method RoundOnBuffer(buf: RxDataBuf, ack: AckPkt, expired: set<nat>, highestDecodedSeq: nat, decodingDone: bool)
    returns (ok: bool)
    requires ack.Valid() && buf.slots.Length == BUF_SIZE && buf.head <= buf.tail <= buf.head + BUF_SIZE
    modifies buf.slots, ack, ack.relSeqArr
    ensures ok <==> buf.tail > 0 || (!decodingDone && highestDecodedSeq == 0)
    ensures ok ==>
      var nacks := Missing(old(buf.Now()), ack.endSeq, expired);
      && ack.Valid() && ack.ackType == DataAck && ack.ackSeq == old(ack.ackSeq) + 1
      && ack.endSeq == (if decodingDone then Max(buf.tail, highestDecodedSeq) else highestDecodedSeq)
      && ack.pushed == (if |nacks| < ACK_WINDOW then nacks else [])
      && Decoded(ack.startNackSeq, Encoded(ack.pushed)) == ack.pushed
  {
    hide Missing, Close, Decoded, Encoded, Inv, DropOverdue, MarkAll;
    ghost var s := buf.Now();
    var found := buf.FindNackSeqNum(expired, ACK_WINDOW, highestDecodedSeq, decodingDone);
    if found.None? {
      return false;
    }
    var (nacks, endSeq) := found.value;
    if nacks != [] {
      MissingClose(s, endSeq, expired);
    } else {
      NothingClose();
    }
    SendDataAck(ack, nacks, endSeq);
    ok := true;
  }

  lemma NothingClose()
    ensures Close([])
  {}

  lemma PushedRead(ack: AckPkt)
    requires ack.Valid() && (ack.pushed != [] ==> Close(ack.pushed))
    ensures Decoded(ack.startNackSeq, Encoded(ack.pushed)) == ack.pushed
  {
    hide Close, Rel;
    if ack.pushed != [] {
      CompressionExact(ack.pushed);
    }
  }

  // One attempt at a round whose packet is initialised: nothing happens when too few packets have been logged yet. As
  // long as only good packets are pushed, the error of a full packet is never reached.
  method RxCreateRawAck(raw: RawBuf.RxRawBuf, ack: AckPkt, minPktCnt: nat, ghost events: seq<RawBuf.Event>)
    returns (sent: bool, full: bool)
    requires ack.Valid() && ack.pushed == [] && ack.ackType == RawAck && raw.maxSendCnt == 1
    requires raw.State() == RawBuf.Run(events, 1).raw
    requires forall i :: 0 <= i < |events| && events[i].PushEvent? ==> events[i].good
    modifies raw, ack, ack.relSeqArr
    ensures ack.Valid() && ack.ackType == RawAck && ack.ackSeq == old(ack.ackSeq)
    ensures !full && (sent <==> old(raw.pktCnt) >= minPktCnt)
    ensures !sent ==> raw.State() == old(raw.State()) && ack.pushed == []
    ensures sent ==> raw.State() == RawBuf.Run(events + [RawBuf.PopEvent], 1).raw
    ensures sent ==> ack.pushed == RawBuf.Numbers(old(raw.nackDeq))
    ensures sent ==> ack.endSeq == raw.endSeq && ack.numPkts == old(raw.pktCnt)
    ensures Decoded(ack.startNackSeq, Encoded(ack.pushed)) == ack.pushed
  {
    hide RawBuf.Run, RawBuf.Pop, Close, Encoded, Decoded;
    RawBuf.ReportFits(events);
    var ok, nacks, endSeq, numPkts := raw.PopPktStatus(minPktCnt);
    full := false;
    if !ok {
      PushedRead(ack);
      return false, false;
    }
    assert raw.State() == RawBuf.Run(events + [RawBuf.PopEvent], 1).raw by { PopRun(events); }
    ReportClose(events);
    for i := 0 to |nacks|
      modifies ack`numNacks, ack`startNackSeq, ack`pushed, ack.relSeqArr
      invariant ack.Valid() && ack.pushed == nacks[..i] && !full
    {
      ack.PushNack(nacks[i]);
      if ack.IsFull() {
        full := true;
      }
    }
    assert nacks[..|nacks|] == nacks;
    ack.endSeq, ack.numPkts := endSeq, numPkts;
    PushedRead(ack);
    sent := true;
  }

  lemma PopRun(events: seq<RawBuf.Event>)
    ensures RawBuf.Run(events + [RawBuf.PopEvent], 1).raw == RawBuf.Pop(RawBuf.Run(events, 1).raw, 1)
  {
    hide RawBuf.Pop;
    assert (events + [RawBuf.PopEvent])[..|events|] == events;
  }

  lemma ReportClose(events: seq<RawBuf.Event>)
    ensures Close(RawBuf.Numbers(RawBuf.Run(events, 1).raw.deq))
  {
    hide RawBuf.Run, RawBuf.Losses, Close;
    RawBuf.RunAccurate(events);
    var l := RawBuf.Run(events, 1);
    RawBuf.LossesExact(l.raw.endSeq - l.raw.pktCnt, l.raw.endSeq, l.good);
    AscendingClose(RawBuf.Numbers(l.raw.deq), l.raw.endSeq - l.raw.pktCnt, l.raw.endSeq);
  }
}
