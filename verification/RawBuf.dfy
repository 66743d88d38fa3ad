// The tracker of lost packets on the raw link: what it holds, what it reports, and how often.
module RawBuf {
  import AckPacket

  const MAX_BUF_SIZE: nat := AckPacket.ACK_WINDOW

  datatype Entry = Entry(seqNum: nat, sendCnt: nat)

  datatype Raw = Raw(deq: seq<Entry>, endSeq: nat, pktCnt: nat)

  // New entries for lo + 1 .. hi - 1.
  function Gap(lo: nat, hi: nat): seq<Entry>
  {
    if hi <= lo + 1 then [] else Gap(lo, hi - 1) + [Entry(hi - 1, 0)]
  }

  predicate Overflows(r: Raw, cur: nat)
  {
    cur > r.endSeq && cur - r.endSeq > MAX_BUF_SIZE - r.pktCnt
  }

  function Push(r: Raw, cur: nat, good: bool): Raw
  {
    if cur <= r.endSeq then r
    else
      var last := if good then [] else [Entry(cur, 0)];
      if Overflows(r, cur) then Raw(last, cur, 1)
      else Raw(r.deq + Gap(r.endSeq, cur) + last, cur, r.pktCnt + (cur - r.endSeq))
  }

  lemma {:induction false} GapEntries(lo: nat, hi: nat)
    requires lo < hi
    ensures |Gap(lo, hi)| == hi - lo - 1
    ensures forall i :: 0 <= i < hi - lo - 1 ==> Gap(lo, hi)[i] == Entry(lo + 1 + i, 0)
  {
    if hi > lo + 1 {
      GapEntries(lo, hi - 1);
    }
  }

  // What a push does, by the size of an acknowledgement: a number not newer than the newest does nothing; as long as
  // the numbers since the last report are not more than that, the whole gap is noted behind what is there, and a bad
  // packet too; otherwise everything is forgotten but this packet.
  lemma PushExact(r: Raw, cur: nat, good: bool)
    ensures cur <= r.endSeq ==> Push(r, cur, good) == r
    ensures cur > r.endSeq && r.pktCnt + (cur - r.endSeq) <= AckPacket.ACK_WINDOW ==>
      var r', k := Push(r, cur, good), |r.deq|;
      && r'.endSeq == cur && r'.pktCnt == r.pktCnt + (cur - r.endSeq)
      && |r'.deq| == k + (cur - r.endSeq) - (if good then 1 else 0) && r'.deq[..k] == r.deq
      && forall i :: k <= i < |r'.deq| ==> r'.deq[i] == Entry(r.endSeq + 1 + (i - k), 0)
    ensures cur > r.endSeq && r.pktCnt + (cur - r.endSeq) > AckPacket.ACK_WINDOW ==>
      Push(r, cur, good) == Raw(if good then [] else [Entry(cur, 0)], cur, 1)
  {
    if cur > r.endSeq {
      GapEntries(r.endSeq, cur);
    }
  }

  function Bumped(deq: seq<Entry>): (d: seq<Entry>)
    ensures |d| == |deq| && forall i :: 0 <= i < |deq| ==> d[i] == Entry(deq[i].seqNum, deq[i].sendCnt + 1)
  {
    seq(|deq|, i requires 0 <= i < |deq| => Entry(deq[i].seqNum, deq[i].sendCnt + 1))
  }

  // How long the prefix of entries sent max times is.
  function Exhausted(deq: seq<Entry>, max: nat): (n: nat)
    ensures n <= |deq|
    ensures forall i :: 0 <= i < n ==> deq[i].sendCnt == max
    ensures n < |deq| ==> deq[n].sendCnt != max
  {
    if deq == [] || deq[0].sendCnt != max then 0 else 1 + Exhausted(deq[1..], max)
  }

  function Numbers(deq: seq<Entry>): (s: seq<nat>)
    ensures |s| == |deq| && forall i :: 0 <= i < |deq| ==> s[i] == deq[i].seqNum
  {
    seq(|deq|, i requires 0 <= i < |deq| => deq[i].seqNum)
  }

  function Pop(r: Raw, max: nat): Raw
  {
    Raw(Bumped(r.deq)[Exhausted(Bumped(r.deq), max)..], r.endSeq, 0)
  }

  // ---- the object -------------------------------------------------------------

  class RxRawBuf {
    var nackDeq: seq<Entry>
    var endSeq: nat
    var maxSendCnt: nat
    var pktCnt: nat

    function State(): Raw
      reads this
    {
      Raw(nackDeq, endSeq, pktCnt)
    }

    constructor ()
      ensures State() == Raw([], 0, 0) && maxSendCnt == 1
    {
      nackDeq, endSeq, maxSendCnt, pktCnt := [], 0, 1, 0;
    }

    // Refuses what is not newer than the newest; a gap too wide for the buffer empties it.
    method PushPkts(curSeq: nat, isCurGood: bool) returns (ok: bool)
      requires pktCnt <= MAX_BUF_SIZE
      modifies this`nackDeq, this`endSeq, this`pktCnt
      ensures ok <==> curSeq > old(endSeq)
      ensures State() == Push(old(State()), curSeq, isCurGood) && pktCnt <= MAX_BUF_SIZE
    {
      if curSeq <= endSeq {
        return false;
      }
      if curSeq - endSeq <= MAX_BUF_SIZE - pktCnt {
        var i := endSeq + 1;
        while i < curSeq
          invariant endSeq < i <= curSeq
          invariant nackDeq == old(nackDeq) + Gap(endSeq, i)
          invariant unchanged(this`endSeq, this`pktCnt)
        {
          nackDeq := nackDeq + [Entry(i, 0)];
          i := i + 1;
        }
        pktCnt := pktCnt + (curSeq - endSeq);
      } else {
        nackDeq := [];
        pktCnt := 1;
      }
      if !isCurGood {
        nackDeq := nackDeq + [Entry(curSeq, 0)];
      }
      endSeq := curSeq;
      ok := true;
    }

    method CountReport() returns (seqVec: seq<nat>)
      modifies this`nackDeq
      ensures seqVec == Numbers(old(nackDeq)) && nackDeq == Bumped(old(nackDeq))
    {
      seqVec := [];
      ghost var before := nackDeq;
      for i := 0 to |nackDeq|
        invariant |nackDeq| == |before| && seqVec == Numbers(before)[..i]
        invariant forall j :: 0 <= j < i ==> nackDeq[j] == Bumped(before)[j]
        invariant forall j :: i <= j < |before| ==> nackDeq[j] == before[j]
      {
        seqVec := seqVec + [nackDeq[i].seqNum];
        nackDeq := nackDeq[i := Entry(nackDeq[i].seqNum, nackDeq[i].sendCnt + 1)];
      }
    }

    method ExhaustedPrefix() returns (n: nat)
      ensures n == Exhausted(nackDeq, maxSendCnt)
    {
      n := 0;
      while n < |nackDeq| && nackDeq[n].sendCnt == maxSendCnt
        invariant n <= |nackDeq| && Exhausted(nackDeq, maxSendCnt) == n + Exhausted(nackDeq[n..], maxSendCnt)
      {
        n := n + 1;
      }
    }

    // One attempt: false when too few packets have been logged, and the caller waits for more before the next.
    method PopPktStatus(minPktCnt: nat) returns (ok: bool, seqVec: seq<nat>, goodSeq: nat, numPkts: nat)
      modifies this`nackDeq, this`pktCnt
      ensures ok <==> old(pktCnt) >= minPktCnt
      ensures !ok ==> State() == old(State())
      ensures ok ==> seqVec == Numbers(old(nackDeq)) && goodSeq == endSeq && numPkts == old(pktCnt)
      ensures ok ==> State() == Pop(old(State()), maxSendCnt)
    {
      if pktCnt < minPktCnt {
        return false, [], 0, 0;
      }
      ok := true;
      goodSeq := endSeq;
      seqVec := CountReport();
      var n := ExhaustedPrefix();
      nackDeq := nackDeq[n..];
      numPkts := pktCnt;
      pktCnt := 0;
    }
  }

  // ---- runs -------------------------------------------------------------------

  datatype Event = PushEvent(cur: nat, good: bool) | PopEvent

  // The buffer with what an observer knows: how often each number was reported, which numbers are lost in truth and
  // which of them were forgotten when a gap was too wide, either because the gap was skipped or because the deque was
  // cleared, how many packets the reports covered, and which arrived well.
  datatype Ledger = Ledger(
    raw: Raw, reported: multiset<nat>, lost: set<nat>, skipped: set<nat>, cleared: set<nat>, covered: nat,
    good: set<nat>)

  function Noted(deq: seq<Entry>): set<nat>
  {
    set i | 0 <= i < |deq| :: deq[i].seqNum
  }

  function Between(lo: nat, hi: nat): (r: set<nat>)
    ensures forall s :: s in r <==> lo < s < hi
  {
    if hi <= lo + 1 then {} else Between(lo, hi - 1) + {hi - 1}
  }

  function Next(l: Ledger, e: Event, max: nat): Ledger
  {
    match e
    case PushEvent(cur, good) =>
      if cur <= l.raw.endSeq then l
      else
        var gap, over := Between(l.raw.endSeq, cur), Overflows(l.raw, cur);
        Ledger(
          Push(l.raw, cur, good), l.reported,
          l.lost + (if over then {} else gap) + (if good then {} else {cur}),
          if over then l.skipped + gap else l.skipped,
          if over then l.cleared + Noted(l.raw.deq) else l.cleared,
          l.covered, if good then l.good + {cur} else l.good)
    case PopEvent =>
      l.(raw := Pop(l.raw, max), reported := l.reported + multiset(Numbers(l.raw.deq)),
        covered := l.covered + l.raw.pktCnt)
  }

  ghost function Run(events: seq<Event>, max: nat): Ledger
  {
    if events == [] then Ledger(Raw([], 0, 0), multiset{}, {}, {}, {}, 0, {})
    else Next(Run(events[..|events| - 1], max), events[|events| - 1], max)
  }

  lemma RunPushed(events: seq<Event>, cur: nat, good: bool, max: nat)
    ensures Run(events + [PushEvent(cur, good)], max).raw == Push(Run(events, max).raw, cur, good)
  {
    assert (events + [PushEvent(cur, good)])[..|events|] == events;
  }

  // ---- with every loss reported once ------------------------------------------

  // The numbers in lo + 1 .. hi that did not arrive well, none of them reported yet.
  ghost function Losses(lo: nat, hi: nat, good: set<nat>): seq<Entry>
  {
    if hi <= lo then [] else Losses(lo, hi - 1, good) + if hi in good then [] else [Entry(hi, 0)]
  }

  lemma {:induction false} LossesSplit(lo: nat, mid: nat, hi: nat, good: set<nat>)
    requires lo <= mid <= hi
    ensures Losses(lo, hi, good) == Losses(lo, mid, good) + Losses(mid, hi, good)
  {
    if hi > mid {
      LossesSplit(lo, mid, hi - 1, good);
    }
  }

  lemma {:induction false} LossesSame(lo: nat, hi: nat, good: set<nat>, good': set<nat>)
    requires forall s :: lo < s <= hi ==> (s in good <==> s in good')
    ensures Losses(lo, hi, good) == Losses(lo, hi, good')
  {
    if hi > lo {
      LossesSame(lo, hi - 1, good, good');
    }
  }

  lemma {:induction false} GapIsLosses(lo: nat, hi: nat, good: set<nat>)
    requires forall s :: s in good ==> s <= lo || s >= hi
    ensures lo < hi ==> Gap(lo, hi) == Losses(lo, hi - 1, good)
  {
    if hi > lo + 1 {
      GapIsLosses(lo, hi - 1, good);
    }
  }

  // The deque holds exactly what was missing or bad in the interval the next report covers.
  ghost predicate Accurate(l: Ledger)
  {
    && l.raw.pktCnt <= l.raw.endSeq && l.raw.pktCnt <= MAX_BUF_SIZE
    && l.raw.deq == Losses(l.raw.endSeq - l.raw.pktCnt, l.raw.endSeq, l.good)
    && forall s :: s in l.good ==> s <= l.raw.endSeq
  }

  lemma {:induction false} PushAccurate(l: Ledger, cur: nat, good: bool)
    requires Accurate(l)
    ensures Accurate(Next(l, PushEvent(cur, good), 1))
  {
    if cur > l.raw.endSeq {
      var l' := Next(l, PushEvent(cur, good), 1);
      var lo, end := l.raw.endSeq - l.raw.pktCnt, l.raw.endSeq;
      assert Losses(cur - 1, cur, l'.good) == Losses(cur - 1, cur - 1, l'.good) + if good then [] else [Entry(cur, 0)];
      if !Overflows(l.raw, cur) {
        LossesSplit(lo, end, cur, l'.good);
        LossesSplit(end, cur - 1, cur, l'.good);
        LossesSame(lo, end, l.good, l'.good);
        GapIsLosses(end, cur, l'.good);
      }
    }
  }

  lemma {:induction false} ExhaustedAll(deq: seq<Entry>, max: nat)
    requires forall i :: 0 <= i < |deq| ==> deq[i].sendCnt == max
    ensures Exhausted(deq, max) == |deq|
  {
    if deq != [] {
      ExhaustedAll(deq[1..], max);
    }
  }

  lemma {:induction false} LossesUnsent(lo: nat, hi: nat, good: set<nat>)
    ensures forall i :: 0 <= i < |Losses(lo, hi, good)| ==> Losses(lo, hi, good)[i].sendCnt == 0
    ensures |Losses(lo, hi, good)| <= if hi > lo then hi - lo else 0
  {
    if hi > lo {
      LossesUnsent(lo, hi - 1, good);
    }
  }

  lemma {:induction false} LossesExact(lo: nat, hi: nat, good: set<nat>)
    ensures forall e :: e in Losses(lo, hi, good) <==> lo < e.seqNum <= hi && e.seqNum !in good && e.sendCnt == 0
    ensures forall i, j :: 0 <= i < j < |Losses(lo, hi, good)| ==>
      Losses(lo, hi, good)[i].seqNum < Losses(lo, hi, good)[j].seqNum
  {
    if hi > lo {
      LossesExact(lo, hi - 1, good);
      var earlier := Losses(lo, hi - 1, good);
      assert forall i :: 0 <= i < |earlier| ==> earlier[i] in earlier;
    }
  }

  lemma PopAccurate(l: Ledger)
    requires Accurate(l)
    ensures Accurate(Next(l, PopEvent, 1)) && Pop(l.raw, 1).deq == []
  {
    LossesUnsent(l.raw.endSeq - l.raw.pktCnt, l.raw.endSeq, l.good);
    ExhaustedAll(Bumped(l.raw.deq), 1);
  }

  lemma {:induction false} RunAccurate(events: seq<Event>)
    ensures Accurate(Run(events, 1))
  {
    hide Accurate, Next;
    if events == [] {
      StartAccurate();
    } else {
      var l := Run(events[..|events| - 1], 1);
      RunAccurate(events[..|events| - 1]);
      match events[|events| - 1]
      case PushEvent(cur, good) => PushAccurate(l, cur, good);
      case PopEvent => PopAccurate(l);
    }
  }

  lemma StartAccurate()
    ensures Accurate(Run([], 1))
  {}

  ghost predicate NeverOverflows(events: seq<Event>, max: nat)
  {
    forall i :: 0 <= i < |events| && events[i].PushEvent? ==> !Overflows(Run(events[..i], max).raw, events[i].cur)
  }

  // Without overflow the intervals of the reports tile the sequence numbers.
  lemma {:induction false} ReportsTile(events: seq<Event>, max: nat)
    requires NeverOverflows(events, max)
    ensures Run(events, max).covered + Run(events, max).raw.pktCnt == Run(events, max).raw.endSeq
  {
    if events != [] {
      var n := |events| - 1;
      forall i | 0 <= i < n && events[..n][i].PushEvent?
        ensures !Overflows(Run(events[..n][..i], max).raw, events[..n][i].cur)
      {
        assert events[..n][..i] == events[..i];
      }
      ReportsTile(events[..n], max);
    }
  }

  // With only good pushes the newest number is good, so a report never fills an acknowledgement.
  lemma {:induction false} GoodRunEnd(events: seq<Event>)
    requires forall i :: 0 <= i < |events| && events[i].PushEvent? ==> events[i].good
    ensures var l := Run(events, 1); l.raw.endSeq == 0 || l.raw.endSeq in l.good
  {
    if events != [] {
      GoodRunEnd(events[..|events| - 1]);
    }
  }

  lemma ReportFits(events: seq<Event>)
    requires forall i :: 0 <= i < |events| && events[i].PushEvent? ==> events[i].good
    ensures |Numbers(Run(events, 1).raw.deq)| < MAX_BUF_SIZE
  {
    hide Run;
    RunAccurate(events);
    GoodRunEnd(events);
    var l := Run(events, 1);
    var lo, hi := l.raw.endSeq - l.raw.pktCnt, l.raw.endSeq;
    if hi > lo {
      assert Losses(lo, hi, l.good) == Losses(lo, hi - 1, l.good);
      LossesUnsent(lo, hi - 1, l.good);
    }
  }

  // ---- with every loss reported max times --------------------------------------

  // Older losses have been reported at least as often as newer ones, none max times yet.
  ghost predicate Ordered(deq: seq<Entry>, max: nat)
  {
    && (forall i, j :: 0 <= i < j < |deq| ==> deq[i].seqNum < deq[j].seqNum && deq[i].sendCnt >= deq[j].sendCnt)
    && forall i :: 0 <= i < |deq| ==> deq[i].sendCnt < max
  }

  ghost predicate Counted(l: Ledger, max: nat)
  {
    var deq := l.raw.deq;
    && Ordered(deq, max)
    && (forall i :: 0 <= i < |deq| ==>
      deq[i].seqNum in l.lost && deq[i].seqNum !in l.cleared && l.reported[deq[i].seqNum] == deq[i].sendCnt)
    && (forall s :: s in l.lost ==> s <= l.raw.endSeq)
    && (forall s :: s in l.lost && s !in l.cleared && s !in Noted(deq) ==> l.reported[s] == max)
    && (forall s :: s in l.cleared ==> s in l.lost && l.reported[s] < max)
    && forall s :: s !in l.lost ==> l.reported[s] == 0
  }

  lemma {:induction false} GapShape(lo: nat, hi: nat)
    ensures forall i :: 0 <= i < |Gap(lo, hi)| ==> lo < Gap(lo, hi)[i].seqNum < hi && Gap(lo, hi)[i].sendCnt == 0
    ensures forall i, j :: 0 <= i < j < |Gap(lo, hi)| ==> Gap(lo, hi)[i].seqNum < Gap(lo, hi)[j].seqNum
  {
    if hi > lo + 1 {
      GapShape(lo, hi - 1);
    }
  }

  lemma {:induction false} GapNoted(lo: nat, hi: nat)
    ensures Noted(Gap(lo, hi)) == Between(lo, hi)
  {
    if hi > lo + 1 {
      GapNoted(lo, hi - 1);
      NotedSplit(Gap(lo, hi - 1), [Entry(hi - 1, 0)]);
      NotedOne(Entry(hi - 1, 0));
    }
  }

  lemma NotedOne(e: Entry)
    ensures Noted([e]) == {e.seqNum} && Noted([]) == {}
  {
    assert [e][0] == e;
    assert e.seqNum in Noted([e]);
  }

  // What a push appends: new numbers, in order, never reported.
  ghost predicate Fresh(added: seq<Entry>, lo: nat, hi: nat)
  {
    && (forall i :: 0 <= i < |added| ==> lo < added[i].seqNum <= hi && added[i].sendCnt == 0)
    && forall i, j :: 0 <= i < j < |added| ==> added[i].seqNum < added[j].seqNum
  }

  lemma NotedSplit(p: seq<Entry>, q: seq<Entry>)
    ensures Noted(p + q) == Noted(p) + Noted(q)
  {
    forall s
      ensures s in Noted(p + q) <==> s in Noted(p) + Noted(q)
    {
      if s in Noted(p) {
        var i :| 0 <= i < |p| && p[i].seqNum == s;
        assert (p + q)[i].seqNum == s;
      }
      if s in Noted(q) {
        var i :| 0 <= i < |q| && q[i].seqNum == s;
        assert (p + q)[|p| + i].seqNum == s;
      }
    }
  }

  lemma NotedBumped(deq: seq<Entry>)
    ensures Noted(Bumped(deq)) == Noted(deq)
  {
    forall s
      ensures s in Noted(Bumped(deq)) <==> s in Noted(deq)
    {
      if s in Noted(deq) {
        var i :| 0 <= i < |deq| && deq[i].seqNum == s;
        assert Bumped(deq)[i].seqNum == s;
      }
    }
  }

  lemma AppendCounted(l: Ledger, added: seq<Entry>, cur: nat, l': Ledger, max: nat)
    requires max >= 1 && Counted(l, max) && Fresh(added, l.raw.endSeq, cur) && cur > l.raw.endSeq
    requires l'.raw.deq == l.raw.deq + added && l'.raw.endSeq == cur && l'.reported == l.reported
    requires l'.lost == l.lost + Noted(added) && l'.cleared == l.cleared
    ensures Counted(l', max)
  {
    var deq, deq' := l.raw.deq, l'.raw.deq;
    forall i | 0 <= i < |deq'|
      ensures deq'[i].seqNum in l'.lost && deq'[i].seqNum !in l'.cleared
        && l'.reported[deq'[i].seqNum] == deq'[i].sendCnt
      ensures i >= |deq| ==> deq'[i].seqNum !in l.lost
    {
    }
    NotedSplit(deq, added);
  }

  lemma RestartCounted(l: Ledger, added: seq<Entry>, cur: nat, l': Ledger, max: nat)
    requires max >= 1 && Counted(l, max) && Fresh(added, l.raw.endSeq, cur) && cur > l.raw.endSeq
    requires l'.raw.deq == added && l'.raw.endSeq == cur && l'.reported == l.reported
    requires l'.lost == l.lost + Noted(added) && l'.cleared == l.cleared + Noted(l.raw.deq)
    ensures Counted(l', max)
  {}

  lemma PushCounted(l: Ledger, cur: nat, good: bool, max: nat)
    requires max >= 1 && Counted(l, max)
    ensures Counted(Next(l, PushEvent(cur, good), max), max)
  {
    hide Counted, Noted;
    if cur > l.raw.endSeq {
      var l' := Next(l, PushEvent(cur, good), max);
      var last := if good then [] else [Entry(cur, 0)];
      GapShape(l.raw.endSeq, cur);
      GapNoted(l.raw.endSeq, cur);
      NotedOne(Entry(cur, 0));
      NotedSplit(Gap(l.raw.endSeq, cur), last);
      if Overflows(l.raw, cur) {
        RestartCounted(l, last, cur, l', max);
      } else {
        assert l'.raw.deq == l.raw.deq + (Gap(l.raw.endSeq, cur) + last);
        AppendCounted(l, Gap(l.raw.endSeq, cur) + last, cur, l', max);
      }
    }
  }

  // Erasing the longest prefix at the maximum removes exactly the entries that have been reported often enough.
  lemma PopRemovesExhausted(deq: seq<Entry>, max: nat)
    requires Ordered(deq, max)
    ensures var d, n := Bumped(deq), Exhausted(Bumped(deq), max);
      && (forall i :: 0 <= i < n ==> d[i].sendCnt == max)
      && (forall i :: n <= i < |d| ==> d[i].sendCnt < max)
      && Ordered(d[n..], max)
  {
    var d, n := Bumped(deq), Exhausted(Bumped(deq), max);
    forall i | n <= i < |d|
      ensures d[i].sendCnt < max
    {
      assert d[n].sendCnt != max && d[n].sendCnt >= d[i].sendCnt;
    }
  }

  // Every number in the deque occurs in a report exactly once.
  lemma {:induction false} ReportCounts(deq: seq<Entry>, s: nat)
    requires forall i, j :: 0 <= i < j < |deq| ==> deq[i].seqNum < deq[j].seqNum
    ensures multiset(Numbers(deq))[s] == if s in Noted(deq) then 1 else 0
  {
    if deq != [] {
      var n := |deq| - 1;
      ReportCounts(deq[..n], s);
      assert Numbers(deq) == Numbers(deq[..n]) + [deq[n].seqNum];
      assert Noted(deq) == Noted(deq[..n]) + {deq[n].seqNum};
    }
  }

  // A number that has just been reported for the last time.
  lemma LeftReported(l: Ledger, max: nat, s: nat)
    requires Counted(l, max)
    requires s in Noted(Bumped(l.raw.deq)[..Exhausted(Bumped(l.raw.deq), max)])
    ensures l.reported[s] + 1 == max
  {
    var i :| 0 <= i < Exhausted(Bumped(l.raw.deq), max) && Bumped(l.raw.deq)[i].seqNum == s;
    assert l.raw.deq[i].seqNum == s && l.raw.deq[i].sendCnt + 1 == max;
  }

  lemma PopReports(l: Ledger, max: nat, s: nat)
    requires Counted(l, max)
    ensures Next(l, PopEvent, max).reported[s] == l.reported[s] + if s in Noted(l.raw.deq) then 1 else 0
  {
    ReportCounts(l.raw.deq, s);
  }

  lemma NotedIndex(deq: seq<Entry>, i: nat)
    requires i < |deq|
    ensures deq[i].seqNum in Noted(deq)
  {}

  lemma PopWaiting(l: Ledger, max: nat, i: nat)
    requires max >= 1 && Counted(l, max) && i < |Pop(l.raw, max).deq|
    ensures var e, l' := Pop(l.raw, max).deq[i], Next(l, PopEvent, max);
      e.seqNum in l.lost && e.seqNum !in l.cleared && l'.reported[e.seqNum] == e.sendCnt
  {
    hide Noted, Ordered;
    var n := Exhausted(Bumped(l.raw.deq), max);
    NotedIndex(l.raw.deq, n + i);
    PopReports(l, max, l.raw.deq[n + i].seqNum);
  }

  lemma PopDone(l: Ledger, max: nat, s: nat)
    requires max >= 1 && Counted(l, max)
    requires s in l.lost && s !in l.cleared && s !in Noted(Pop(l.raw, max).deq)
    ensures Next(l, PopEvent, max).reported[s] == max
  {
    hide Noted, Ordered;
    var d, n := Bumped(l.raw.deq), Exhausted(Bumped(l.raw.deq), max);
    NotedBumped(l.raw.deq);
    NotedSplit(d[..n], d[n..]);
    assert d == d[..n] + d[n..];
    PopReports(l, max, s);
    if s in Noted(d[..n]) {
      LeftReported(l, max, s);
    }
  }

  lemma PopCounted(l: Ledger, max: nat)
    requires max >= 1 && Counted(l, max)
    ensures Counted(Next(l, PopEvent, max), max)
  {
    hide Noted, Ordered, Pop;
    var l' := Next(l, PopEvent, max);
    PopOrdered(l.raw, max);
    forall i | 0 <= i < |l'.raw.deq|
      ensures var e := l'.raw.deq[i];
        e.seqNum in l'.lost && e.seqNum !in l'.cleared && l'.reported[e.seqNum] == e.sendCnt
    {
      PopWaiting(l, max, i);
    }
    forall s | s in l'.lost && s !in l'.cleared && s !in Noted(l'.raw.deq)
      ensures l'.reported[s] == max
    {
      PopDone(l, max, s);
    }
    ClearedUnreported(l, max);
    forall s | s in l.cleared || s !in l.lost
      ensures l'.reported[s] == l.reported[s]
    {
      PopReports(l, max, s);
    }
  }

  lemma PopOrdered(r: Raw, max: nat)
    requires Ordered(r.deq, max)
    ensures Ordered(Pop(r, max).deq, max) && Pop(r, max).endSeq == r.endSeq
  {
    hide Ordered;
    PopRemovesExhausted(r.deq, max);
  }

  lemma ClearedUnreported(l: Ledger, max: nat)
    requires Counted(l, max)
    ensures forall s :: s in l.cleared || s !in l.lost ==> s !in Noted(l.raw.deq)
  {}

  // A number up to the newest one arrived well, or its loss was noted, or it fell into a gap that was too wide.
  ghost predicate Settled(l: Ledger)
  {
    && (forall s: nat :: s in l.lost <==> 1 <= s <= l.raw.endSeq && s !in l.good && s !in l.skipped)
    && (forall s :: s in l.skipped ==> 1 <= s <= l.raw.endSeq && s !in l.good)
    && forall s :: s in l.good ==> 1 <= s <= l.raw.endSeq
  }

  lemma StepSettled(l: Ledger, e: Event, max: nat)
    requires Settled(l)
    ensures Settled(Next(l, e, max))
  {
    hide Noted, Push, Pop, Numbers, Overflows;
    match e
    case PushEvent(cur, good) => Ends(l.raw, cur, good, max);
    case PopEvent => Ends(l.raw, 0, true, max);
  }

  lemma Ends(r: Raw, cur: nat, good: bool, max: nat)
    ensures Push(r, cur, good).endSeq == if cur <= r.endSeq then r.endSeq else cur
    ensures Pop(r, max).endSeq == r.endSeq && Pop(r, max).pktCnt == 0
  {}

  lemma {:induction false} RunSettled(events: seq<Event>, max: nat)
    ensures Settled(Run(events, max))
  {
    hide Next, Settled;
    if events == [] {
      StartSettled(max);
    } else {
      RunSettled(events[..|events| - 1], max);
      StepSettled(Run(events[..|events| - 1], max), events[|events| - 1], max);
    }
  }

  lemma StartSettled(max: nat)
    ensures Settled(Run([], max))
  {}

  // In every run a loss that is neither waiting nor thrown away by an overflow has been reported exactly max times;
  // nothing else is ever reported.
  lemma {:induction false} RunCounted(events: seq<Event>, max: nat)
    requires max >= 1
    ensures Counted(Run(events, max), max)
  {
    hide Counted, Next;
    if events == [] {
      StartCounted(max);
    } else {
      var l := Run(events[..|events| - 1], max);
      RunCounted(events[..|events| - 1], max);
      match events[|events| - 1]
      case PushEvent(cur, good) => PushCounted(l, cur, good, max);
      case PopEvent => PopCounted(l, max);
    }
  }

  lemma StartCounted(max: nat)
    ensures Counted(Run([], max), max)
  {}

  // In every run, every number is accounted for: it has arrived well, was skipped by an overflow, or has not been heard
  // of, and is never reported; or it is lost, and then it has been reported exactly max times, unless it is still
  // waiting for that or an overflow has cleared it.
  lemma EveryNumber(events: seq<Event>, max: nat, s: nat)
    requires max >= 1
    ensures var l := Run(events, max);
      && ((s == 0 || s > l.raw.endSeq || s in l.good || s in l.skipped) <==> s !in l.lost)
      && (s !in l.lost ==> l.reported[s] == 0)
      && (s in l.lost && s !in l.cleared && s !in Noted(l.raw.deq) ==> l.reported[s] == max)
      && (s in l.cleared || s in Noted(l.raw.deq) ==> s in l.lost && l.reported[s] < max)
  {
    hide Run;
    RunSettled(events, max);
    RunCounted(events, max);
  }

  // ---- runs whose reports come in time ------------------------------------------

  // The highest number pushed, and the highest that had been pushed at the last report.
  function Highest(events: seq<Event>): nat
  {
    if events == [] then 0
    else
      var before, e := Highest(events[..|events| - 1]), events[|events| - 1];
      if e.PushEvent? && e.cur > before then e.cur else before
  }

  function Reported(events: seq<Event>): (n: nat)
    ensures n <= Highest(events)
  {
    if events == [] then 0
    else if events[|events| - 1].PopEvent? then Highest(events[..|events| - 1])
    else Reported(events[..|events| - 1])
  }

  // Number s arrived well when it was the newest.
  ghost predicate ArrivedWell(events: seq<Event>, s: nat)
  {
    events != [] &&
    var before, e := events[..|events| - 1], events[|events| - 1];
    ArrivedWell(before, s) || (e == PushEvent(s, true) && s > Highest(before))
  }

  // No stretch of numbers since a report is longer than an acknowledgement.
  ghost predicate InTime(events: seq<Event>)
  {
    forall i :: 0 <= i <= |events| ==> Highest(events[..i]) - Reported(events[..i]) <= AckPacket.ACK_WINDOW
  }

  ghost predicate Remembered(l: Ledger, events: seq<Event>)
  {
    && l.skipped == {} && l.cleared == {}
    && l.raw.endSeq == Highest(events) && l.raw.pktCnt == Highest(events) - Reported(events)
    && forall s: nat :: s in l.good <==> ArrivedWell(events, s)
  }

  lemma RememberedNext(l: Ledger, before: seq<Event>, e: Event, max: nat)
    requires Remembered(l, before)
    requires Highest(before + [e]) - Reported(before + [e]) <= AckPacket.ACK_WINDOW
    ensures Remembered(Next(l, e, max), before + [e])
  {
    hide Push, Pop, Noted, Numbers, Between;
    var events := before + [e];
    assert events[..|events| - 1] == before && events[|events| - 1] == e;
    match e
    case PushEvent(cur, good) => PushExact(l.raw, cur, good);
    case PopEvent => Ends(l.raw, 0, true, max);
  }

  // Then nothing is skipped or cleared, and the losses are exactly the numbers up to the highest that did not arrive
  // well.
  lemma {:induction false} NothingForgotten(events: seq<Event>, max: nat)
    requires InTime(events)
    ensures Remembered(Run(events, max), events)
    ensures forall s: nat :: s in Run(events, max).lost <==> 1 <= s <= Highest(events) && !ArrivedWell(events, s)
  {
    hide Remembered, Next, Highest, Reported, ArrivedWell;
    if events == [] {
      NothingYet(max);
    } else {
      var n := |events| - 1;
      var before := events[..n];
      assert events == before + [events[n]];
      assert forall i :: 0 <= i <= n ==> before[..i] == events[..i];
      NothingForgotten(before, max);
      assert events[..n + 1] == events;
      RememberedNext(Run(before, max), before, events[n], max);
    }
    RunSettled(events, max);
    RememberedLost(Run(events, max), events);
  }

  lemma RememberedLost(l: Ledger, events: seq<Event>)
    requires Remembered(l, events) && Settled(l)
    ensures forall s: nat :: s in l.lost <==> 1 <= s <= Highest(events) && !ArrivedWell(events, s)
  {
    hide Highest, Reported, ArrivedWell;
  }

  lemma NothingYet(max: nat)
    ensures Remembered(Run([], max), [])
  {}

  // Every number up to the last report that did not arrive well has then been reported exactly once when losses are
  // reported once, and no other number ever.
  lemma ReportedOnce(events: seq<Event>, s: nat)
    requires InTime(events)
    ensures var l := Run(events, 1);
      l.reported[s] == if 1 <= s <= Reported(events) && !ArrivedWell(events, s) then 1 else 0
  {
    hide Run, Highest, Reported, ArrivedWell, Noted;
    NothingForgotten(events, 1);
    EveryNumber(events, 1, s);
    RunAccurate(events);
    var l := Run(events, 1);
    WaitsForReport(l, s);
    GoodIsGood(l, events, s);
  }

  lemma WaitsForReport(l: Ledger, s: nat)
    requires Accurate(l)
    ensures s in Noted(l.raw.deq) <==> l.raw.endSeq - l.raw.pktCnt < s <= l.raw.endSeq && s !in l.good
  {
    hide Losses;
    var lo, hi := l.raw.endSeq - l.raw.pktCnt, l.raw.endSeq;
    LossesExact(lo, hi, l.good);
    if lo < s <= hi && s !in l.good {
      assert Entry(s, 0) in l.raw.deq;
    }
  }

  lemma GoodIsGood(l: Ledger, events: seq<Event>, s: nat)
    requires Remembered(l, events)
    ensures s in l.good <==> ArrivedWell(events, s)
    ensures l.raw.endSeq - l.raw.pktCnt == Reported(events) && l.raw.endSeq == Highest(events) && l.cleared == {}
  {
    hide Highest, Reported, ArrivedWell;
  }
}
