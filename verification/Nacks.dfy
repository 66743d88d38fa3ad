// Which sequence numbers an acknowledgement reports missing, and which slots it gives up.
module Nacks {
  import opened Window
  import opened AckPacket

  // Nothing has come for n, and nobody has waited for it too long. A wait is named by its index, one below n.
  predicate Hole(slots: seq<Slot>, n: nat, expired: set<nat>)
    requires n > 0 && |slots| > 0
  {
    var status := slots[Index(n, |slots|)].status;
    status == Empty || (status == Block && n - 1 !in expired)
  }

  predicate Overdue(slots: seq<Slot>, n: nat, expired: set<nat>)
    requires n > 0 && |slots| > 0
  {
    slots[Index(n, |slots|)].status == Block && n - 1 in expired
  }

  function Holes(slots: seq<Slot>, lo: nat, hi: nat, expired: set<nat>): (r: seq<nat>)
    requires |slots| > 0
    ensures forall i :: 0 <= i < |r| ==> r[i] > 0
  {
    if hi <= lo then [] else Holes(slots, lo, hi - 1, expired) + if Hole(slots, hi, expired) then [hi] else []
  }

  function Ahead(lo: nat, hi: nat): (r: seq<nat>)
    ensures forall i :: 0 <= i < |r| ==> r[i] > 0
  {
    if hi <= lo then [] else Ahead(lo, hi - 1) + [hi]
  }

  function Min(a: nat, b: nat): nat { if a < b then a else b }

  // The holes up to the end of the batch or of the window, and everything between the window and the end of the batch.
  function Missing(s: State, endSeq: nat, expired: set<nat>): (r: seq<nat>)
    requires |s.slots| > 0
    ensures forall i :: 0 <= i < |r| ==> r[i] > 0
  {
    Holes(s.slots, s.head, Min(endSeq, s.tail), expired) + Ahead(s.tail, endSeq)
  }

  // The waits for lo + 1 .. hi that took too long are given up.
  function DropOverdue(s: State, lo: nat, hi: nat, expired: set<nat>): (r: State)
    requires |s.slots| > 0
    ensures |r.slots| == |s.slots|
  {
    if hi <= lo then s
    else
      var s' := DropOverdue(s, lo, hi - 1, expired);
      if Overdue(s'.slots, hi, expired) then Mark(s', hi, true) else s'
  }

  function MarkAll(s: State, nacks: seq<nat>): (r: State)
    requires |s.slots| > 0 && forall i :: 0 <= i < |nacks| ==> nacks[i] > 0
    ensures |r.slots| == |s.slots|
  {
    if nacks == [] then s else Mark(MarkAll(s, nacks[..|nacks| - 1]), nacks[|nacks| - 1], false)
  }

  // ---- what the list contains -------------------------------------------------

  ghost predicate Ascending(nacks: seq<nat>, lo: nat, hi: nat)
  {
    && (forall i :: 0 <= i < |nacks| ==> lo < nacks[i] <= hi)
    && forall i, j :: 0 <= i < j < |nacks| ==> nacks[i] < nacks[j]
  }

  lemma {:induction false} HolesExact(slots: seq<Slot>, lo: nat, hi: nat, expired: set<nat>)
    requires |slots| > 0
    ensures Ascending(Holes(slots, lo, hi, expired), lo, if hi > lo then hi else lo)
    ensures forall n: nat :: n in Holes(slots, lo, hi, expired) <==> lo < n <= hi && Hole(slots, n, expired)
  {
    hide Hole;
    if hi > lo {
      HolesExact(slots, lo, hi - 1, expired);
    }
  }

  lemma {:induction false} AheadExact(lo: nat, hi: nat)
    ensures Ascending(Ahead(lo, hi), lo, if hi > lo then hi else lo)
    ensures |Ahead(lo, hi)| == if hi > lo then hi - lo else 0
    ensures forall n: nat :: n in Ahead(lo, hi) <==> lo < n <= hi
  {
    if hi > lo {
      AheadExact(lo, hi - 1);
    }
  }

  function Max(a: nat, b: nat): nat { if a < b then b else a }

  // Exactly the holes in the window up to the end and all numbers past the window up to the end, in ascending order.
  lemma MissingExact(s: State, endSeq: nat, expired: set<nat>)
    requires |s.slots| > 0 && s.head <= s.tail
    ensures Ascending(Missing(s, endSeq, expired), s.head, Max(s.tail, endSeq))
    ensures forall n: nat :: n in Missing(s, endSeq, expired) <==>
      || s.tail < n <= endSeq
      || (s.head < n <= s.tail && n <= endSeq &&
            var status := s.slots[Index(n, |s.slots|)].status;
            status == Empty || (status == Block && n - 1 !in expired))
  {
    hide Holes, Ahead, Index;
    HolesExact(s.slots, s.head, Min(endSeq, s.tail), expired);
    AheadExact(s.tail, endSeq);
  }

  // ---- what happens to the slots ----------------------------------------------

  ghost predicate OnlySlots(s: State, s': State)
  {
    s' == s.(slots := s'.slots) && |s'.slots| == |s.slots|
  }

  // The scan gives up exactly the overdue waits, and sees every later slot of the window as it was.
  lemma {:induction false} DropOverdueExact(s: State, lo: nat, hi: nat, expired: set<nat>)
    requires |s.slots| > 0 && hi <= lo + |s.slots|
    ensures var s' := DropOverdue(s, lo, hi, expired);
      && OnlySlots(s, s')
      && (forall n: nat :: lo < n <= hi && n <= lo + |s.slots| ==>
            s'.slots[Index(n, |s.slots|)] ==
              var slot := s.slots[Index(n, |s.slots|)];
              if slot.status == Block && n - 1 in expired then Slot(Drop, n, slot.payload) else slot)
      && forall j :: 0 <= j < |s.slots| && (forall n: nat :: lo < n <= hi ==> Index(n, |s.slots|) != j) ==>
        s'.slots[j] == s.slots[j]
  {
    hide Index;
    if hi > lo {
      DropOverdueExact(s, lo, hi - 1, expired);
      forall n: nat | lo < n < hi
        ensures Index(n, |s.slots|) != Index(hi, |s.slots|)
      {
        if Index(n, |s.slots|) == Index(hi, |s.slots|) {
          SameIndex(n, hi, lo, |s.slots|);
        }
      }
    }
  }

  // The slot the scan comes to is as it was when the scan began.
  lemma ScannedAsBefore(s: State, lo: nat, index: nat, expired: set<nat>)
    requires |s.slots| > 0 && lo <= index < lo + |s.slots|
    ensures var slots' := DropOverdue(s, lo, index, expired).slots;
      && Hole(slots', index + 1, expired) == Hole(s.slots, index + 1, expired)
      && Overdue(slots', index + 1, expired) == Overdue(s.slots, index + 1, expired)
  {
    hide Index, DropOverdue;
    DropOverdueExact(s, lo, index, expired);
    forall n: nat | lo < n <= index
      ensures Index(n, |s.slots|) != Index(index + 1, |s.slots|)
    {
      if Index(n, |s.slots|) == Index(index + 1, |s.slots|) {
        SameIndex(n, index + 1, lo, |s.slots|);
      }
    }
  }

  // Both early returns are the general case with nothing to list.
  lemma NothingListed(s: State, endSeq: nat, expired: set<nat>)
    requires |s.slots| > 0 && endSeq <= s.tail && endSeq <= s.head
    ensures Missing(s, endSeq, expired) == []
    ensures DropOverdue(s, s.head, Min(endSeq, s.tail), expired) == s && MarkAll(s, []) == s
  {}

  // The slot of n is given up under a listed number.
  ghost predicate GivenUp(slots: seq<Slot>, slots': seq<Slot>, n: nat, nacks: seq<nat>)
    requires n > 0 && |slots'| == |slots| > 0
  {
    var slot' := slots'[Index(n, |slots|)];
    slot'.status == Drop && slot'.seqNum in nacks && slot'.payload == slots[Index(n, |slots|)].payload
  }

  lemma MarkGivesUp(s: State, s': State, nacks: seq<nat>, last: nat, n: nat)
    requires |s'.slots| == |s.slots| > 0 && last > 0 && n > 0
    requires n == last || (n in nacks && GivenUp(s.slots, s'.slots, n, nacks))
    requires s'.slots[Index(last, |s.slots|)].payload == s.slots[Index(last, |s.slots|)].payload
    ensures GivenUp(s.slots, Mark(s', last, false).slots, n, nacks + [last])
  {
    hide Index;
    if Index(n, |s.slots|) != Index(last, |s.slots|) {
      assert GivenUp(s.slots, s'.slots, n, nacks);
    }
  }

  // Every listed number's slot is given up; the other slots stay as they are, and so does every payload.
  lemma {:induction false} MarkAllExact(s: State, nacks: seq<nat>)
    requires |s.slots| > 0 && forall i :: 0 <= i < |nacks| ==> nacks[i] > 0
    ensures OnlySlots(s, MarkAll(s, nacks))
    ensures forall i :: 0 <= i < |nacks| ==> GivenUp(s.slots, MarkAll(s, nacks).slots, nacks[i], nacks)
    ensures forall j :: 0 <= j < |s.slots| ==> MarkAll(s, nacks).slots[j].payload == s.slots[j].payload
    ensures forall j :: 0 <= j < |s.slots| && (forall i :: 0 <= i < |nacks| ==> Index(nacks[i], |s.slots|) != j) ==>
      MarkAll(s, nacks).slots[j] == s.slots[j]
  {
    hide Index, GivenUp;
    if nacks != [] {
      var k := |nacks| - 1;
      MarkAllExact(s, nacks[..k]);
      forall i | 0 <= i < |nacks|
        ensures GivenUp(s.slots, MarkAll(s, nacks).slots, nacks[i], nacks)
      {
        assert nacks == nacks[..k] + [nacks[k]];
        assert i < k ==> nacks[..k][i] == nacks[i];
        MarkGivesUp(s, MarkAll(s, nacks[..k]), nacks[..k], nacks[k], nacks[i]);
      }
    }
  }

  // A slot whose packet has not been read is no hole of the window, and is not overdue.
  lemma UnreadNotListed(s: State, j: nat, n: nat)
    requires Inv(s) && s.holder.Free? && j < |s.slots| && s.slots[j].status == OccupiedNew
    requires n > s.head && Index(n, |s.slots|) == j && n < s.slots[j].seqNum + |s.slots|
    ensures n == s.slots[j].seqNum
  {
    hide Index;
    assert SlotOk(s, j);
    var m := s.slots[j].seqNum;
    if n <= s.head + |s.slots| {
      SameIndex(n, m, s.head, |s.slots|);
    } else {
      SameIndex(n, m, m - 1, |s.slots|);
    }
  }

  lemma UnreadScanned(s: State, hi: nat, expired: set<nat>, j: nat)
    requires Inv(s) && s.holder.Free? && j < |s.slots| && s.slots[j].status == OccupiedNew && hi <= s.tail
    ensures DropOverdue(s, s.head, hi, expired).slots[j] == s.slots[j]
  {
    hide Index, SlotOk, DropOverdue;
    DropOverdueExact(s, s.head, hi, expired);
    UnreadInWindow(s, j);
    if n: nat :| s.head < n <= hi && Index(n, |s.slots|) == j {
      assert !Overdue(s.slots, n, expired);
    }
  }

  lemma UnreadInWindow(s: State, j: nat)
    requires Inv(s) && s.holder.Free? && j < |s.slots| && s.slots[j].status == OccupiedNew
    ensures s.head < s.slots[j].seqNum <= s.tail && Index(s.slots[j].seqNum, |s.slots|) == j
  {
    hide Index;
    assert SlotOk(s, j);
  }

  lemma IndexPlus(n: nat, b: nat)
    requires n > 0 && b > 0
    ensures Index(n + b, b) == Index(n, b)
  {
    assert n + b - 1 == (n - 1) + b;
    ModPlus(n - 1, b);
  }

  lemma ModPlus(a: nat, b: nat)
    requires b > 0
    ensures (a + b) % b == a % b
  {
    var q, r, q', r' := a / b, a % b, (a + b) / b, (a + b) % b;
    assert a == b * q + r && a + b == b * q' + r';
    assert b * q' - b * q - b == b * (q' - q - 1) && b * q + b - b * q' == b * (q + 1 - q');
    if r >= r' {
      NoMultiple(b, q' - q - 1, r - r');
    } else {
      NoMultiple(b, q + 1 - q', r' - r);
    }
  }

  lemma UnreadGivenUp(s: State, s1: State, nacks: seq<nat>, n: nat, j: nat)
    requires |s1.slots| == |s.slots| > 0 && j < |s.slots| && s.slots[j].status == OccupiedNew
    requires forall i :: 0 <= i < |nacks| ==> nacks[i] > 0
    requires n > 0 && n in nacks && Index(n, |s.slots|) == j
    ensures MarkAll(s1, nacks).slots[j] != s.slots[j]
  {
    hide Index, MarkAll;
    MarkAllExact(s1, nacks);
    var i :| 0 <= i < |nacks| && nacks[i] == n;
    assert GivenUp(s1.slots, MarkAll(s1, nacks).slots, nacks[i], nacks);
  }

  lemma UnreadUntouched(s: State, endSeq: nat, expired: set<nat>, j: nat)
    requires Inv(s) && s.holder.Free? && j < |s.slots| && s.slots[j].status == OccupiedNew
    requires endSeq < s.slots[j].seqNum + |s.slots|
    ensures forall n: nat :: n in Missing(s, endSeq, expired) ==> n > 0 && Index(n, |s.slots|) != j
  {
    hide Index, SlotOk, HolderOk, Missing;
    UnreadInWindow(s, j);
    MissingExact(s, endSeq, expired);
    forall n: nat | n in Missing(s, endSeq, expired)
      ensures n > 0 && Index(n, |s.slots|) != j
    {
      if Index(n, |s.slots|) == j {
        UnreadNotListed(s, j, n);
      }
    }
  }

  // A list found earlier is given up: a packet that has come and not been read by then is lost exactly when its own
  // number is listed, or another number of its slot is.
  lemma GiveUpLosesExact(s: State, nacks: seq<nat>, j: nat)
    requires |s.slots| > 0 && forall i :: 0 <= i < |nacks| ==> nacks[i] > 0
    requires j < |s.slots| && s.slots[j].status == OccupiedNew
    requires s.slots[j].seqNum > 0 && Index(s.slots[j].seqNum, |s.slots|) == j
    ensures MarkAll(s, nacks).slots[j] != s.slots[j] <==>
      || s.slots[j].seqNum in nacks
      || exists n: nat :: n in nacks && n != s.slots[j].seqNum && n > 0 && Index(n, |s.slots|) == j
  {
    hide Index, MarkAll, GivenUp;
    if n: nat :| n in nacks && n > 0 && Index(n, |s.slots|) == j {
      UnreadGivenUp(s, s, nacks, n, j);
    } else {
      MarkAllExact(s, nacks);
    }
  }

  // When nothing happens between the scan and the giving up, no own number is listed: a packet survives exactly when
  // the list ends before the next number of its slot.
  lemma UnreadSurvivesAtOnce(s: State, endSeq: nat, expired: set<nat>, j: nat)
    requires Inv(s) && s.holder.Free? && j < |s.slots| && s.slots[j].status == OccupiedNew
    ensures var s' := MarkAll(DropOverdue(s, s.head, Min(endSeq, s.tail), expired), Missing(s, endSeq, expired));
      s'.slots[j] == s.slots[j] <==> endSeq < s.slots[j].seqNum + |s.slots|
  {
    hide Index, SlotOk, HolderOk, DropOverdue, MarkAll, Missing, GivenUp;
    var m, nacks, b := s.slots[j].seqNum, Missing(s, endSeq, expired), |s.slots|;
    var s1 := DropOverdue(s, s.head, Min(endSeq, s.tail), expired);
    UnreadInWindow(s, j);
    if m + b <= endSeq {
      MissingExact(s, endSeq, expired);
      IndexPlus(m, b);
      UnreadGivenUp(s, s1, nacks, m + b, j);
    } else {
      UnreadScanned(s, Min(endSeq, s.tail), expired, j);
      MarkAllExact(s1, nacks);
      UnreadUntouched(s, endSeq, expired, j);
    }
  }

  lemma {:induction false} DropOverdueInv(s: State, lo: nat, hi: nat, expired: set<nat>)
    requires Inv(s)
    ensures Inv(DropOverdue(s, lo, hi, expired))
  {
    hide Index, SlotOk, HolderOk, Mark;
    if hi > lo {
      DropOverdueInv(s, lo, hi - 1, expired);
      MarkInv(DropOverdue(s, lo, hi - 1, expired), hi, true);
    }
  }

  lemma {:induction false} MarkAllInv(s: State, nacks: seq<nat>)
    requires Inv(s) && forall i :: 0 <= i < |nacks| ==> nacks[i] > 0
    ensures Inv(MarkAll(s, nacks))
  {
    hide Index, SlotOk, HolderOk, Mark;
    if nacks != [] {
      MarkAllInv(s, nacks[..|nacks| - 1]);
      MarkInv(MarkAll(s, nacks[..|nacks| - 1]), nacks[|nacks| - 1], false);
    }
  }

  // ---- the list fits into an acknowledgement ----------------------------------

  lemma AscendingClose(nacks: seq<nat>, lo: nat, hi: nat)
    requires Ascending(nacks, lo, hi) && hi <= lo + UINT16
    ensures Close(nacks)
  {
    forall i | 0 <= i < |nacks|
      ensures nacks[0] <= nacks[i] < nacks[0] + UINT16
    {
      assert i > 0 ==> nacks[0] < nacks[i];
      assert lo < nacks[0];
    }
  }

  // However the first part was scanned: ascending numbers of the snapshot's window and then the rest of the batch, with
  // room to spare, span less than the window and one acknowledgement, so compression loses nothing.
  lemma StaleClose(scanned: seq<nat>, head: nat, tail: nat, endSeq: nat, b: nat)
    requires head <= tail <= head + b && b + ACK_WINDOW <= UINT16
    requires Ascending(scanned, head, Max(head, Min(endSeq, tail)))
    requires |scanned + Ahead(tail, endSeq)| < ACK_WINDOW
    ensures Close(scanned + Ahead(tail, endSeq))
  {
    hide Ahead, Close;
    AheadExact(tail, endSeq);
    AscendingClose(scanned + Ahead(tail, endSeq), head, Max(tail, endSeq));
  }

  // The list of a scan that is not interrupted.
  lemma MissingClose(s: State, endSeq: nat, expired: set<nat>)
    requires |s.slots| > 0 && s.head <= s.tail <= s.head + |s.slots|
    requires |Missing(s, endSeq, expired)| < ACK_WINDOW && |s.slots| + ACK_WINDOW <= UINT16
    ensures Close(Missing(s, endSeq, expired))
  {
    hide Hole, Holes, Ahead, Ascending, Close;
    var hi := Min(endSeq, s.tail);
    HolesExact(s.slots, s.head, hi, expired);
    StaleClose(Holes(s.slots, s.head, hi, expired), s.head, s.tail, endSeq, |s.slots|);
  }
}
