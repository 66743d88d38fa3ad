// The packet that carries the sequence numbers of lost packets as 16-bit distances from the first of them.
module AckPacket {
  const ACK_WINDOW: nat := 500
  const UINT16: nat := 0x1_0000

  datatype AckType = DataAck | RawAck

  function Rel(seqNum: nat, start: nat): nat
  {
    (seqNum - start) % UINT16
  }

  // What a sequence of pushes leaves in the packet.
  function Encoded(nacks: seq<nat>): (rel: seq<nat>)
    ensures |rel| == |nacks|
  {
    seq(|nacks|, i requires 0 <= i < |nacks| => if i == 0 then 0 else Rel(nacks[i], nacks[0]))
  }

  function Decoded(start: nat, rel: seq<nat>): (nacks: seq<nat>)
    ensures |nacks| == |rel|
  {
    seq(|rel|, i requires 0 <= i < |rel| => rel[i] + start)
  }

  // Every number lies less than 2^16 above the first.
  ghost predicate Close(nacks: seq<nat>)
  {
    forall i :: 0 <= i < |nacks| ==> nacks[0] <= nacks[i] < nacks[0] + UINT16
  }

  lemma RelClose(x: nat, start: nat)
    ensures Rel(x, start) + start == x <==> start <= x < start + UINT16
  {
    if start <= x < start + UINT16 {
      assert (x - start) % UINT16 == x - start;
    }
  }

  // Compression loses nothing exactly when the numbers are close.
  lemma CompressionExact(nacks: seq<nat>)
    requires |nacks| > 0
    ensures Decoded(nacks[0], Encoded(nacks)) == nacks <==> Close(nacks)
  {
    hide Rel;
    var d := Decoded(nacks[0], Encoded(nacks));
    forall i | 0 <= i < |nacks|
      ensures d[i] == nacks[i] <==> nacks[0] <= nacks[i] < nacks[0] + UINT16
    {
      RelClose(nacks[i], nacks[0]);
    }
    if d == nacks {
      assert forall i :: 0 <= i < |nacks| ==> d[i] == nacks[i];
    }
  }

  // What is on the wire: the low 16 bits of the distance from the first number; and what is read from it.
  lemma WireFormat(nacks: seq<nat>, start: nat, rel: seq<nat>)
    ensures forall i :: 0 <= i < |nacks| ==>
      Encoded(nacks)[i] == (nacks[i] as int - nacks[0]) % 0x1_0000 && 0 <= Encoded(nacks)[i] < 0x1_0000
    ensures forall i :: 0 <= i < |rel| ==> Decoded(start, rel)[i] == start + rel[i]
  {
    if nacks != [] {
      assert nacks[0] - nacks[0] == 0;
    }
  }

  class AckPkt {
    var ackType: AckType
    var numNacks: nat
    var numPkts: nat
    var ackSeq: nat
    var startNackSeq: nat
    var endSeq: nat
    const relSeqArr: array<nat>
    ghost var pushed: seq<nat>

    ghost predicate Valid()
      reads this, relSeqArr
    {
      && relSeqArr.Length == ACK_WINDOW && numNacks == |pushed| <= ACK_WINDOW
      && relSeqArr[..numNacks] == Encoded(pushed)
      && (pushed != [] ==> startNackSeq == pushed[0])
      && (pushed == [] ==> startNackSeq == 0)
    }

    constructor ()
      ensures Valid() && pushed == [] && ackSeq == 0 && fresh(relSeqArr)
    {
      ackType, numNacks, numPkts, ackSeq, startNackSeq, endSeq := DataAck, 0, 0, 0, 0, 0;
      relSeqArr := new nat[ACK_WINDOW](_ => 0);
      pushed := [];
    }

    method Init(ackType: AckType)
      requires Valid()
      modifies this
      ensures Valid() && pushed == [] && this.ackType == ackType && ackSeq == old(ackSeq) + 1 && endSeq == numPkts == 0
    {
      this.ackType := ackType;
      ackSeq := ackSeq + 1;
      numNacks, startNackSeq, endSeq, numPkts := 0, 0, 0, 0;
      pushed := [];
    }

    predicate IsFull()
      reads this
    {
      numNacks >= ACK_WINDOW
    }

    // The source asserts that there is room.
    method PushNack(seqNum: nat)
      requires Valid() && |pushed| < ACK_WINDOW
      modifies this`numNacks, this`startNackSeq, this`pushed, relSeqArr
      ensures Valid() && pushed == old(pushed) + [seqNum] && numNacks == old(numNacks) + 1
      ensures startNackSeq == if old(numNacks) == 0 then seqNum else old(startNackSeq)
      ensures relSeqArr[old(numNacks)] == if old(numNacks) == 0 then 0 else (seqNum - startNackSeq) % 0x1_0000
    {
      ghost var before := relSeqArr[..numNacks];
      if numNacks == 0 {
        startNackSeq := seqNum;
        relSeqArr[0] := 0;
      } else {
        assert numNacks < ACK_WINDOW;
        relSeqArr[numNacks] := Rel(seqNum, startNackSeq);
      }
      numNacks := numNacks + 1;
      pushed := pushed + [seqNum];
      assert relSeqArr[..numNacks] == before + [relSeqArr[numNacks - 1]];
      assert Encoded(pushed) == before + [relSeqArr[numNacks - 1]];
    }

    // The numbers come back as they were pushed exactly when they are close.
    method ParseNack() returns (nacks: seq<nat>)
      requires Valid()
      ensures nacks == Decoded(startNackSeq, Encoded(pushed))
      ensures |nacks| == numNacks && forall i :: 0 <= i < numNacks ==> nacks[i] == startNackSeq + relSeqArr[i]
      ensures nacks == pushed <==> Close(pushed)
    {
      nacks := [];
      for i := 0 to numNacks
        invariant nacks == Decoded(startNackSeq, Encoded(pushed))[..i]
      {
        assert Encoded(pushed)[i] == relSeqArr[..numNacks][i];
        nacks := nacks + [relSeqArr[i] + startNackSeq];
      }
      if pushed != [] {
        CompressionExact(pushed);
      }
    }
  }
}
