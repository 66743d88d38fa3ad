// From the sender to the consumer: what is taken out of the window is what the sender meant by that number.
module EndToEnd {
  import opened Gf
  import opened Reassembly
  import Window

  // The packet with a sequence number, as the sender has it; batches may overlap, as when packets are sent again.
  type Originals = nat -> seq<gf>

  ghost predicate Consistent(senders: Senders, originals: Originals)
  {
    forall id: nat, i: nat :: senders(id).Valid() && i < senders(id).K() ==>
      originals(senders(id).startSeq + i) == senders(id).data[i][..senders(id).lens[i]]
  }

  lemma NativeIsOriginal(senders: Senders, id: nat, i: nat, originals: Originals)
    requires Consistent(senders, originals) && senders(id).Valid() && i < senders(id).K()
    ensures IsOriginal(Native(senders(id), i), originals)
  {}

  ghost predicate IsOriginal(c: Call, originals: Originals)
  {
    c.payload == originals(c.seqNum)
  }

  ghost predicate AllOriginal(calls: seq<Call>, originals: Originals)
  {
    forall c :: c in calls ==> IsOriginal(c, originals)
  }

  lemma {:induction false} RecoveredOriginal(senders: Senders, id: nat, inds: seq<nat>, m: nat, originals: Originals)
    requires Consistent(senders, originals) && senders(id).Valid() && m <= senders(id).K()
    ensures AllOriginal(Recovered(senders(id), inds, m), originals)
  {
    hide Native, IsOriginal, Consistent;
    if m > 0 {
      RecoveredOriginal(senders, id, inds, m - 1, originals);
      NativeIsOriginal(senders, id, m - 1, originals);
    }
  }

  lemma {:induction false} LogOriginal(senders: Senders, id: nat, inds: seq<nat>, originals: Originals)
    requires Consistent(senders, originals) && senders(id).Valid()
    ensures AllOriginal(Log(senders(id), inds), originals)
  {
    hide Native, IsOriginal, Consistent;
    if inds != [] {
      var m := |inds| - 1;
      LogOriginal(senders, id, inds[..m], originals);
      RecoveredOriginal(senders, id, inds, senders(id).K(), originals);
      if inds[m] < senders(id).K() {
        NativeIsOriginal(senders, id, inds[m], originals);
      }
    }
  }

  lemma {:induction false} CallsOriginal(history: seq<Progress>, senders: Senders, originals: Originals)
    requires Known(history, senders) && Consistent(senders, originals)
    ensures AllOriginal(Calls(history, senders), originals)
  {
    hide Log, IsOriginal, Consistent;
    if history != [] {
      var last := history[|history| - 1];
      CallsOriginal(history[..|history| - 1], senders, originals);
      LogOriginal(senders, last.batchId, last.inds, originals);
    }
  }

  // What a receiver hands on over a stream.
  ghost function StreamCalls(stream: seq<Packet>, senders: Senders): (calls: seq<Call>)
    requires FromSenders(stream, senders)
    ensures Known(Run(stream), senders) && calls == Calls(Run(stream), senders)
  {
    RunSound(stream, senders);
    SoundIsKnown(Run(stream), senders);
    Calls(Run(stream), senders)
  }

  // The producers bring nothing but what a receiver hands on.
  ghost predicate Brought(steps: seq<Window.Step>, calls: seq<Call>)
  {
    forall j :: 0 <= j < |steps| && steps[j].Enter? ==> Call(steps[j].seqNum, steps[j].payload) in calls
  }

  // Over every stream from the air and every interleaving behind it, short of a jump onto an unread packet, the
  // consumer takes original packets under their own numbers, in ascending order.
  lemma OriginalsInOrder(
    stream: seq<Packet>, senders: Senders, originals: Originals,
    states: seq<Window.State>, steps: seq<Window.Step>, b: nat, i: nat)
    requires FromSenders(stream, senders) && Consistent(senders, originals)
    requires Window.Trace(states, steps, b) && i < |states|
    requires Brought(steps, StreamCalls(stream, senders))
    ensures Known(Run(stream), senders) && StreamCalls(stream, senders) == Calls(Run(stream), senders)
    ensures var taken := states[i].taken;
      && (forall k :: 0 <= k < |taken| ==> taken[k].1 == originals(taken[k].0))
      && forall k, l :: 0 <= k < l < |taken| ==> taken[k].0 < taken[l].0
  {
    hide Run, Calls, Window.Trace, Consistent, FromSenders, Window.Offered, Known, StreamCalls;
    CallsOriginal(Run(stream), senders, originals);
    Window.InOrderDelivery(states, steps, b, i);
    var taken := states[i].taken;
    forall k | 0 <= k < |taken|
      ensures taken[k].1 == originals(taken[k].0)
    {
      OfferedIsBrought(steps, i, taken[k], StreamCalls(stream, senders));
      assert IsOriginal(Call(taken[k].0, taken[k].1), originals);
    }
  }

  lemma OfferedIsBrought(steps: seq<Window.Step>, i: nat, p: (nat, seq<gf>), calls: seq<Call>)
    requires Window.Offered(steps, i, p) && Brought(steps, calls)
    ensures Call(p.0, p.1) in calls
  {}

  // If nothing is given up, it has taken precisely the originals 1, 2, 3 and so on up to the head.
  lemma OriginalsComplete(
    stream: seq<Packet>, senders: Senders, originals: Originals,
    states: seq<Window.State>, steps: seq<Window.Step>, b: nat, i: nat)
    requires FromSenders(stream, senders) && Consistent(senders, originals)
    requires Window.Trace(states, steps, b) && i < |states|
    requires Brought(steps, StreamCalls(stream, senders))
    requires forall j :: 0 <= j < i && j < |steps| ==> !Window.GivesUp(states[j], steps[j])
    ensures |states[i].taken| == states[i].head
    ensures forall k :: 0 <= k < states[i].head ==> states[i].taken[k] == (k + 1, originals(k + 1))
  {
    hide Run, Calls, Consistent, FromSenders, Window.GivesUp, Brought, Window.Inv, Known, Window.Takes;
    OriginalsInOrder(stream, senders, originals, states, steps, b, i);
    Window.GaplessDelivery(states, steps, b, i);
  }
}
