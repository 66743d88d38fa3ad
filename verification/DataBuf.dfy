// The receive buffer itself: what enqueueing and dequeueing do to its slots between two waits, each proved to be the
// steps of the window taken one after another.
module DataBuf {
  import opened Wrappers
  import opened Gf
  import opened Window
  import opened Nacks

  // The steps a producer still has to take before it releases the queue lock, taken without interruption.
  function Finish(s: State): (r: State)
    requires |s.slots| > 0
    ensures |r.slots| == |s.slots|
    decreases Remaining(s)
  {
    match s.holder
    case Wrapping(n, _) => if n > 0 then Finish(Wrap(s)) else s
    case Clearing(_, _) => Finish(Clean(s))
    case _ => s
  }

  function Remaining(s: State): nat
  {
    match s.holder
    case Wrapping(_, i) => if i < |s.slots| then |s.slots| - i + 1 else 1
    case Clearing(n, i) => if i < n then n - i + 1 else 1
    case _ => 0
  }

  lemma {:induction false} FinishInv(s: State)
    requires Inv(s)
    ensures Inv(Finish(s))
    decreases Remaining(s)
  {
    hide Index, SlotOk;
    match s.holder
    case Wrapping(_, _) =>
      WrapInv(s);
      FinishInv(Wrap(s));
    case Clearing(_, _) =>
      CleanInv(s);
      FinishInv(Clean(s));
    case _ =>
  }

  // What a producer does without interruption is one of the runs of the window from this state.
  ghost predicate Leads(states: seq<State>, steps: seq<Step>, s: State, s': State)
  {
    && |states| == |steps| + 1 && states[0] == s && states[|steps|] == s'
    && forall i :: 0 <= i < |steps| ==> Takes(states[i], steps[i], states[i + 1])
  }

  lemma LeadsFirst(s: State, step: Step, s1: State, states: seq<State>, steps: seq<Step>, s': State)
    requires Takes(s, step, s1) && Leads(states, steps, s1, s')
    ensures Leads([s] + states, [step] + steps, s, s')
  {
    hide Takes;
    forall i | 0 <= i < |steps| + 1
      ensures Takes(([s] + states)[i], ([step] + steps)[i], ([s] + states)[i + 1])
    {
      if i > 0 {
        assert Takes(states[i - 1], steps[i - 1], states[i - 1 + 1]);
      }
    }
  }

  lemma {:induction false} FinishIsRun(s: State) returns (states: seq<State>, steps: seq<Step>)
    requires |s.slots| > 0
    ensures Leads(states, steps, s, Finish(s))
    decreases Remaining(s)
  {
    hide Leads, Index;
    if s.holder.Wrapping? && s.holder.seqNum > 0 {
      states, steps := FinishIsRun(Wrap(s));
      assert Takes(s, WrapStep, Wrap(s));
      LeadsFirst(s, WrapStep, Wrap(s), states, steps, Finish(s));
      states, steps := [s] + states, [WrapStep] + steps;
    } else if s.holder.Clearing? {
      states, steps := FinishIsRun(Clean(s));
      assert Takes(s, CleanStep, Clean(s));
      LeadsFirst(s, CleanStep, Clean(s), states, steps, Finish(s));
      states, steps := [s] + states, [CleanStep] + steps;
    } else {
      states, steps := [s], [];
      NoSteps(s);
    }
  }

  lemma NoSteps(s: State)
    ensures Leads([s], [], s, s)
  {}

  lemma EnqueueIsRun(s: State, n: nat, p: seq<gf>) returns (states: seq<State>, steps: seq<Step>)
    requires |s.slots| > 0 && s.holder.Free? && !IsFull(s)
    ensures Leads(states, steps, s, Finish(Store(s.(holder := Arrived(n, p)), n, p)))
  {
    hide Leads, Index, Finish;
    var s1 := s.(holder := Arrived(n, p));
    var s2 := Store(s1, n, p);
    StoreKeepsSize(s1, n, p);
    assert Takes(s, Enter(n, p), s1) && Takes(s1, StoreStep, s2);
    states, steps := FinishIsRun(s2);
    LeadsFirst(s1, StoreStep, s2, states, steps, Finish(s2));
    LeadsFirst(s, Enter(n, p), s1, [s1] + states, [StoreStep] + steps, Finish(s2));
    states, steps := [s] + ([s1] + states), [Enter(n, p)] + ([StoreStep] + steps);
  }

  lemma StoreKeepsSize(s: State, n: nat, p: seq<gf>)
    requires |s.slots| > 0
    ensures |Store(s, n, p).slots| == |s.slots|
  {}

  // After a jump every other slot is clear.
  lemma {:induction false} FinishWrap(s: State)
    requires |s.slots| > 0 && s.holder.Wrapping? && s.holder.seqNum > 0
    ensures var s' := Finish(s);
      && s' == s.(slots := s'.slots, holder := Free) && |s'.slots| == |s.slots|
      && forall j :: 0 <= j < |s.slots| ==>
           s'.slots[j] == if j >= s.holder.next && j != Index(s.holder.seqNum, |s.slots|) then CLEAR else s.slots[j]
    decreases Remaining(s)
  {
    hide Index;
    if s.holder.next < |s.slots| {
      FinishWrap(Wrap(s));
    }
  }

  // The slot of a number in lo + 1 .. hi.
  ghost predicate Among(j: nat, lo: nat, hi: nat, b: nat)
    requires b > 0
  {
    exists m: nat :: lo < m <= hi && Index(m, b) == j
  }

  lemma AmongFirst(j: nat, lo: nat, hi: nat, b: nat)
    requires b > 0 && lo < hi
    ensures Among(j, lo, hi, b) <==> lo % b == j || Among(j, lo + 1, hi, b)
  {
    IndexIs(lo + 1, b);
    hide Index;
    if Among(j, lo, hi, b) {
      var m: nat :| lo < m <= hi && Index(m, b) == j;
    }
  }

  // The tail moves to the new packet; exactly the read slots that the window grows over are cleared.
  lemma {:induction false} FinishClean(s: State)
    requires |s.slots| > 0 && s.holder.Clearing?
    ensures var s' := Finish(s);
      && s' == s.(slots := s'.slots, tail := s.holder.seqNum, holder := Free) && |s'.slots| == |s.slots|
      && forall j :: 0 <= j < |s.slots| ==>
           s'.slots[j] ==
           if s.slots[j].status == Read && Among(j, s.holder.next, s.holder.seqNum, |s.slots|) then CLEAR
             else s.slots[j]
    decreases Remaining(s)
  {
    hide Among;
    var b, i, n := |s.slots|, s.holder.next, s.holder.seqNum;
    if i < n {
      FinishClean(Clean(s));
      forall j | 0 <= j < b
        ensures Among(j, i, n, b) <==> i % b == j || Among(j, i + 1, n, b)
      {
        AmongFirst(j, i, n, b);
      }
    } else {
      NoneAmong(i, n, b);
    }
  }

  lemma NoneAmong(lo: nat, hi: nat, b: nat)
    requires b > 0 && lo >= hi
    ensures forall j :: !Among(j, lo, hi, b)
  {
    hide Index;
  }

  // Enqueueing within the window: the packet is in its slot unless an unread one is, the slots of the numbers the
  // window grows over lose what was read from them, and every other slot stays as it was.
  lemma EnqueueInWindow(s: State, n: nat, p: seq<gf>)
    requires Inv(s) && s.holder == Arrived(n, p) && s.head < n <= s.head + |s.slots|
    ensures var s', i := Finish(Store(s, n, p)), Index(n, |s.slots|);
      && Inv(s') && s'.holder.Free? && s'.head == s.head && s'.tail == (if n > s.tail then n else s.tail)
      && |s'.slots| == |s.slots|
      && s'.slots[i] == (if s.slots[i].status != OccupiedNew then Slot(OccupiedNew, n, p) else s.slots[i])
      && forall j :: 0 <= j < |s.slots| && j != i ==>
           s'.slots[j] ==
           if s.slots[j].status == Read && Among(j, s.tail, n, |s.slots|) then CLEAR else s.slots[j]
  {
    hide Index, SlotOk, HolderOk, Among;
    StoreInv(s, n, p);
    FinishInv(Store(s, n, p));
    if n > s.tail {
      FinishClean(Store(s, n, p));
    } else {
      NoneAmong(s.tail, n, |s.slots|);
    }
  }

  // A packet that is not ahead of the window changes nothing.
  lemma EnqueueStale(s: State, n: nat, p: seq<gf>)
    requires |s.slots| > 0 && n <= s.head
    ensures Finish(Store(s, n, p)) == s.(holder := Free)
  {}

  // A jump: the window holds the new packet alone, unless the slot of the packet held an unread one.
  lemma EnqueueJump(s: State, n: nat, p: seq<gf>)
    requires Inv(s) && s.holder == Arrived(n, p) && n > s.head + |s.slots|
    ensures var s', i := Finish(Store(s, n, p)), Index(n, |s.slots|);
      && s'.head == n - 1 && s'.tail == n && s'.holder.Free?
      && (forall j :: 0 <= j < |s.slots| && j != i ==> s'.slots[j] == CLEAR)
      && s'.slots[i] == (if s.slots[i].status != OccupiedNew then Slot(OccupiedNew, n, p) else s.slots[i])
      && (Inv(s') <==> s.slots[i].status != OccupiedNew)
  {
    hide Index, HolderOk;
    var s1 := Store(s, n, p);
    var i := Index(n, |s.slots|);
    FinishWrap(s1);
    if s.slots[i].status != OccupiedNew {
      StoreInv(s, n, p);
      FinishInv(s1);
    } else {
      assert SlotOk(s, i);
      assert !SlotOk(Finish(s1), i);
    }
  }

  // What the consumer takes first after a jump, whether it begins a call or was blocked: under the new number it is
  // given the new packet, or the old packet of the slot if that had not been read.
  lemma JumpDelivers(s: State, n: nat, p: seq<gf>)
    requires Inv(s) && s.holder == Arrived(n, p) && n > s.head + |s.slots|
    ensures var s', step := Finish(Store(s, n, p)), if s.waiting.Some? then WakeStep else Begin;
      var slot := s.slots[Index(n, |s.slots|)];
      && Enabled(s', step) && Apply(s', step).holder == Taking(Index(n, |s.slots|))
      && Take(Apply(s', step)).taken == s.taken + [(n, if slot.status == OccupiedNew then slot.payload else p)]
      && (slot.status == OccupiedNew ==> slot.seqNum < n && (slot.seqNum, slot.payload) in s.stored)
  {
    var i, s1 := Index(n, |s.slots|), Store(s, n, p);
    assert i == (n - 1) % |s.slots|;
    hide Index, HolderOk;
    EnqueueJump(s, n, p);
    FinishWrap(s1);
    assert SlotOk(s, i);
  }

  lemma LeadsOn(
    states: seq<State>, steps: seq<Step>, s: State, s1: State, states': seq<State>, steps': seq<Step>, s': State)
    returns (all: seq<State>, moves: seq<Step>)
    requires Leads(states, steps, s, s1) && Leads(states', steps', s1, s')
    ensures Leads(all, moves, s, s')
  {
    hide Takes;
    all, moves := states + states'[1..], steps + steps';
    forall i | 0 <= i < |moves|
      ensures Takes(all[i], moves[i], all[i + 1])
    {
      if i >= |steps| {
        assert Takes(states'[i - |steps|], steps'[i - |steps|], states'[i - |steps| + 1]);
      }
    }
  }

  // Packet 1 arrives in an empty window.
  lemma FirstEnqueued(b: nat) returns (s: State)
    requires b > 0
    ensures var s0 := Init(b).(holder := Arrived(1, [7]));
      s == Finish(Store(s0, 1, [7]))
    ensures Inv(s) && |s.slots| == b && s.holder.Free? && s.waiting.None? && s.head == 0 && s.tail == 1
    ensures s.slots[0] == Slot(OccupiedNew, 1, [7]) && s.stored == {(1, [7])} && s.taken == []
  {
    var s0 := Init(b).(holder := Arrived(1, [7]));
    InitInv(b);
    assert Index(1, b) == 0;
    hide Index, Inv, Finish;
    EnterInv(Init(b), 1, [7]);
    EnqueueInWindow(s0, 1, [7]);
    FinishClean(Store(s0, 1, [7]));
    s := Finish(Store(s0, 1, [7]));
  }

  // For every ring of two slots or more, and every number that jumps onto the slot of packet 1, there is a run in which
  // the consumer is given packet 1 under that number.
  lemma JumpOntoPacketFails(b: nat, n: nat) returns (states: seq<State>, steps: seq<Step>)
    requires b >= 2 && n > b && Index(n, b) == 0
    ensures Run(states, steps, b)
    ensures states[|steps|].taken == [(n, [7])] && states[|steps|].stored == {(1, [7])}
  {
    hide Index, Inv, Finish, Leads, Store, Take;
    var s1 := FirstEnqueued(b);
    var a := s1.(holder := Arrived(n, [9]));
    EnterInv(s1, n, [9]);
    StoreKeepsSize(a, n, [9]);
    var s2 := Finish(Store(a, n, [9]));
    JumpDelivers(a, n, [9]);
    JumpKeeps(a, n, [9]);
    states, steps := EnqueueIsRun(Init(b), 1, [7]);
    var states', steps' := EnqueueIsRun(s1, n, [9]);
    states, steps := LeadsOn(states, steps, Init(b), s1, states', steps', s2);
    states', steps' := TakeIsRun(s2);
    states, steps := LeadsOn(states, steps, Init(b), s2, states', steps', Take(Apply(s2, Begin)));
    LeadsIsRun(states, steps, b, Take(Apply(s2, Begin)));
  }

  // With one slot it cannot happen: the window is full while a packet has not been read.
  lemma JumpOntoPacketNeedsTwo(s: State, step: Step)
    requires Inv(s) && JumpsOntoPacket(s, step)
    ensures |s.slots| >= 2
  {
    hide Index;
    assert SlotOk(s, Index(s.holder.seqNum, |s.slots|));
  }

  lemma JumpKeeps(s: State, n: nat, p: seq<gf>)
    requires |s.slots| > 0 && n > 0 && IsJump(s, n) && s.slots[Index(n, |s.slots|)].status == OccupiedNew
    ensures var s' := Finish(Store(s, n, p)); s'.stored == s.stored && s'.waiting == s.waiting
    ensures var s' := Finish(Store(s, n, p));
      Enabled(s', Begin) && Enabled(Apply(s', Begin), TakeStep) ==> Take(Apply(s', Begin)).stored == s.stored
  {
    hide Index;
    FinishWrap(Store(s, n, p));
  }

  lemma TakeIsRun(s: State) returns (states: seq<State>, steps: seq<Step>)
    requires |s.slots| > 0 && Enabled(s, Begin)
    ensures Leads(states, steps, s, Take(Apply(s, Begin)))
  {
    hide Index, Take;
    var s1 := Apply(s, Begin);
    var s2 := Take(s1);
    assert Takes(s, Begin, s1) && Takes(s1, TakeStep, s2);
    states, steps := [s, s1, s2], [Begin, TakeStep];
  }

  lemma LeadsIsRun(states: seq<State>, steps: seq<Step>, b: nat, s: State)
    requires b > 0 && Leads(states, steps, Init(b), s)
    ensures Run(states, steps, b) && states[|steps|] == s
  {
    hide Takes;
  }

  // What the consumer has after a critical section: the index it waits for, or it is done, with or without a packet.
  // On an empty queue it waits for packets, and begins again.
  datatype Outcome = WaitsForFill | Waits(index: nat) | Given(payload: seq<gf>) | NothingGiven

  class RxDataBuf {
    const slots: array<Slot>
    var head: nat
    var tail: nat
    ghost var stored: set<(nat, seq<gf>)>
    ghost var taken: seq<(nat, seq<gf>)>

    ghost function View(holder: Holder, waiting: Option<nat>): (s: State)
      reads this, slots
    {
      State(slots[..], head, tail, holder, waiting, stored, taken)
    }

    constructor (size: nat)
      ensures View(Free, None) == Init(size) && fresh(slots)
    {
      slots := new Slot[size](_ => CLEAR);
      head, tail, stored, taken := 0, 0, {}, [];
      new;
      assert slots[..] == Init(size).slots;
    }

    // ---- producers ------------------------------------------------------------

    method MakeRoom(ghost seqNum: nat, ghost payload: seq<gf>, ghost w: Option<nat>)
      requires slots.Length > 0
      modifies slots
      ensures View(Free, w) == DropBlocked(old(View(Arrived(seqNum, payload), w)))
    {
      var i := head % slots.Length;
      if slots[i].status == Block {
        slots[i] := slots[i].(status := Drop);
      }
    }

    method FillSlot(i: nat, seqNum: nat, payload: seq<gf>)
      requires i < slots.Length
      modifies this`stored, slots
      ensures var s := old(View(Free, None));
        View(Free, None) == if s.slots[i].status != OccupiedNew
          then s.(slots := s.slots[i := Slot(OccupiedNew, seqNum, payload)], stored := s.stored + {(seqNum, payload)})
          else s
    {
      if slots[i].status != OccupiedNew {
        slots[i] := Slot(OccupiedNew, seqNum, payload);
        stored := stored + {(seqNum, payload)};
      }
    }

    method ClearOthers(seqNum: nat, index: nat, ghost w: Option<nat>)
      requires slots.Length > 0 && seqNum > 0 && index == Index(seqNum, slots.Length)
      modifies slots
      ensures View(Free, w) == Finish(old(View(Wrapping(seqNum, 0), w)))
    {
      hide Index;
      ghost var target := Finish(View(Wrapping(seqNum, 0), w));
      for i := 0 to slots.Length
        modifies slots
        invariant Finish(View(Wrapping(seqNum, i), w)) == target
      {
        ghost var before := View(Wrapping(seqNum, i), w);
        if i != index {
          slots[i] := CLEAR;
        }
        assert View(Wrapping(seqNum, i + 1), w) == Wrap(before);
      }
    }

    method CleanUp(seqNum: nat, ghost w: Option<nat>)
      requires slots.Length > 0 && tail < seqNum
      modifies this`tail, slots
      ensures View(Free, w) == Finish(old(View(Clearing(seqNum, tail), w)))
    {
      ghost var target := Finish(View(Clearing(seqNum, tail), w));
      for index := tail to seqNum
        modifies slots
        invariant Finish(View(Clearing(seqNum, index), w)) == target
      {
        ghost var before := View(Clearing(seqNum, index), w);
        var indexMod := index % slots.Length;
        if slots[indexMod].status == Read {
          slots[indexMod] := CLEAR;
        }
        assert View(Clearing(seqNum, index + 1), w) == Clean(before);
      }
      ghost var last := View(Clearing(seqNum, seqNum), w);
      tail := seqNum;
      assert View(Free, w) == Clean(last);
    }

    // One attempt: false when the queue was full, and the producer waits for room before the next.
    method EnqueuePkt(seqNum: nat, payload: seq<gf>, ghost w: Option<nat>) returns (done: bool)
      requires slots.Length > 0 && head <= tail
      modifies this`head, this`tail, this`stored, slots
      ensures done <==> old(tail) != old(head) + slots.Length
      ensures !done ==> View(Free, w) == DropBlocked(old(View(Arrived(seqNum, payload), w)))
      ensures !done && old(slots[head % slots.Length].status) == Block ==>
        slots[..] == old(slots[..])[head % slots.Length := old(slots[head % slots.Length]).(status := Drop)]
      ensures !done && old(slots[head % slots.Length].status) != Block ==> slots[..] == old(slots[..])
      ensures done ==> View(Free, w) == Finish(Store(old(View(Arrived(seqNum, payload), w)), seqNum, payload))
    {
      hide Index, Finish;
      if head + slots.Length == tail {
        MakeRoom(seqNum, payload, w);
        return false;
      }
      done := true;
      ghost var s := View(Arrived(seqNum, payload), w);
      var headPt, tailPt, index, isWrap := head, tail, 0, false;
      if seqNum > headPt {
        index := Index(seqNum, slots.Length);
        if seqNum <= headPt {
          // The copy of the head cannot have moved, so the return that keeps the queue lock is never taken.
          assert false;
        }
        isWrap := seqNum > headPt + slots.Length;
        FillSlot(index, seqNum, payload);
      }
      if isWrap {
        head := seqNum - 1;
        tail := seqNum;
        assert View(Wrapping(seqNum, 0), w) == Store(s, seqNum, payload);
        ClearOthers(seqNum, index, w);
      } else if seqNum > tailPt {
        assert View(Clearing(seqNum, tail), w) == Store(s, seqNum, payload);
        CleanUp(seqNum, w);
      } else {
        assert View(Free, w) == Store(s, seqNum, payload);
        FinishFree(View(Free, w));
      }
    }

    // ---- the consumer -----------------------------------------------------------

    // What has become of slot i, of the head and of the caller, by what the slot held.
    ghost predicate Taken(before: seq<Slot>, headBefore: nat, i: nat, r: Outcome)
      reads this, slots
    {
      && |before| == slots.Length && i < |before| && (forall j :: 0 <= j < |before| && j != i ==> slots[j] == before[j])
      && match before[i].status
         case OccupiedNew =>
           r == Given(before[i].payload) && head == headBefore + 1
           && slots[i] == Slot(Read, before[i].seqNum, before[i].payload)
         case Read => r == NothingGiven && head == headBefore + 1 && slots[i] == Slot(Empty, 0, [])
         case Drop => r == NothingGiven && head == headBefore + 1 && slots[i] == Slot(Empty, 0, [])
         case _ => r == Waits(i) && head == headBefore && slots[i] == Slot(Block, before[i].seqNum, before[i].payload)
    }

    method TakeSlot(index: nat) returns (r: Outcome)
      requires index < slots.Length
      modifies this`head, this`taken, slots
      ensures View(Free, if r.Waits? then Some(r.index) else None) == Take(old(View(Taking(index), None)))
      ensures Taken(old(slots[..]), old(head), index, r)
      ensures taken == if r.Given? then old(taken) + [(head, r.payload)] else old(taken)
    {
      var slot := slots[index];
      match slot.status
      case Empty =>
        slots[index] := slot.(status := Block);
        r := Waits(index);
      case Block =>
        r := Waits(index);
      case OccupiedNew =>
        r := Given(slot.payload);
        slots[index] := slot.(status := Read);
        head := head + 1;
        taken := taken + [(head, slot.payload)];
      case _ =>
        slots[index] := CLEAR;
        head := head + 1;
        r := NothingGiven;
    }

    // From the call to the first wait or the return.
    method DequeuePkt() returns (r: Outcome)
      requires slots.Length > 0
      modifies this`head, this`taken, slots
      ensures r.WaitsForFill? <==> old(head) == old(tail)
      ensures r.WaitsForFill? ==> View(Free, None) == old(View(Free, None))
      ensures !r.WaitsForFill? ==>
        View(Free, if r.Waits? then Some(r.index) else None) == Take(Apply(old(View(Free, None)), Begin))
      ensures !r.WaitsForFill? ==> Taken(old(slots[..]), old(head), old(head) % slots.Length, r)
      ensures taken == if r.Given? then old(taken) + [(head, r.payload)] else old(taken)
    {
      if head == tail {
        return WaitsForFill;
      }
      r := TakeSlot(head % slots.Length);
    }

    // From a wake-up to the next wait or the return.
    method ResumeDequeue(waiting: nat) returns (r: Outcome)
      requires waiting < slots.Length
      modifies this`head, this`taken, slots
      ensures View(Free, if r.Waits? then Some(r.index) else None) == Take(Wake(old(View(Free, Some(waiting)))))
      ensures var index := if old(slots[waiting].seqNum) != old(head) + 1 then old(head) % slots.Length else waiting;
        Taken(old(slots[..]), old(head), index, r)
      ensures taken == if r.Given? then old(taken) + [(head, r.payload)] else old(taken)
    {
      var index := if slots[waiting].seqNum != head + 1 then head % slots.Length else waiting;
      r := TakeSlot(index);
    }

    // ---- the acknowledgement thread ---------------------------------------------

    ghost function Now(): (s: State)
      reads this, slots
    {
      View(Free, None)
    }

    method ScanSlot(index: nat, expired: set<nat>, nacks: seq<nat>) returns (nacks': seq<nat>)
      requires slots.Length > 0
      modifies slots
      ensures nacks' == nacks + if Hole(old(slots[..]), index + 1, expired) then [index + 1] else []
      ensures Now() ==
        if Overdue(old(slots[..]), index + 1, expired) then Mark(old(Now()), index + 1, true) else old(Now())
    {
      nacks' := nacks;
      var indexMod := index % slots.Length;
      assert indexMod == Index(index + 1, slots.Length);
      var slot := slots[indexMod];
      if slot.status == Empty || slot.status == Block {
        if slot.status == Block && index in expired {
          slots[indexMod] := slot.(status := Drop, seqNum := index + 1);
        } else {
          nacks' := nacks + [index + 1];
        }
      }
    }

    // Slots head .. end, of which the window holds no two numbers.
    method Scan(end: nat, expired: set<nat>) returns (nacks: seq<nat>)
      requires head <= end <= head + slots.Length && slots.Length > 0
      modifies slots
      ensures nacks == Holes(old(slots[..]), head, end, expired)
      ensures Now() == DropOverdue(old(Now()), head, end, expired)
    {
      hide Index, Hole, Overdue, Mark;
      nacks := [];
      ghost var s := Now();
      for index := head to end
        modifies slots
        invariant nacks == Holes(s.slots, head, index, expired)
        invariant Now() == DropOverdue(s, head, index, expired)
      {
        ScannedAsBefore(s, head, index, expired);
        nacks := ScanSlot(index, expired, nacks);
      }
    }

    method GiveUpAll(nacks: seq<nat>)
      requires slots.Length > 0 && forall i :: 0 <= i < |nacks| ==> nacks[i] > 0
      modifies slots
      ensures Now() == MarkAll(old(Now()), nacks)
    {
      hide Index;
      ghost var s := Now();
      assert nacks[..|nacks|] == nacks;
      for i := 0 to |nacks|
        modifies slots
        invariant Now() == MarkAll(s, nacks[..i])
      {
        ghost var before := Now();
        var j := Index(nacks[i], slots.Length);
        slots[j] := slots[j].(status := Drop, seqNum := nacks[i]);
        assert Now() == Mark(before, nacks[i], false);
        assert nacks[..i + 1][..i] == nacks[..i];
      }
    }

    method AppendAhead(nacks: seq<nat>, endSeq: nat) returns (r: seq<nat>)
      ensures r == nacks + Ahead(tail, endSeq)
    {
      r := nacks;
      var i := tail + 1;
      while i <= endSeq
        invariant i > tail && (i <= endSeq + 1 || i == tail + 1)
        invariant r == nacks + Ahead(tail, i - 1)
      {
        r := r + [i];
        i := i + 1;
      }
    }

    // None where the source's assertion fails. A list that has reached the maximum is not sent: its slots are given up.
    method FindNackSeqNum(expired: set<nat>, maxNumNacks: nat, highestDecodedSeq: nat, decodingDone: bool)
      returns (r: Option<(seq<nat>, nat)>)
      requires slots.Length > 0 && head <= tail <= head + slots.Length
      modifies slots
      ensures r.None? <==> tail == 0 && (decodingDone || highestDecodedSeq > 0)
      ensures r.None? ==> Now() == old(Now())
      ensures r.Some? ==> r.value.1 == (if decodingDone then Max(tail, highestDecodedSeq) else highestDecodedSeq)
      ensures r.Some? ==>
        var s := old(Now());
        var nacks := Missing(s, r.value.1, expired);
        var s' := DropOverdue(s, head, Min(r.value.1, tail), expired);
        if |nacks| < maxNumNacks then r.value.0 == nacks && Now() == s'
        else r.value.0 == [] && Now() == MarkAll(s', nacks)
    {
      hide Index, Holes, Ahead, DropOverdue, MarkAll;
      ghost var s := Now();
      var endSeq, end := highestDecodedSeq, tail;
      if !decodingDone {
        if endSeq == 0 {
          NothingListed(s, endSeq, expired);
          return Some(([], endSeq));
        }
        if highestDecodedSeq < tail {
          end := highestDecodedSeq;
          if head >= end {
            NothingListed(s, endSeq, expired);
            return Some(([], endSeq));
          }
        }
      } else {
        endSeq := if highestDecodedSeq > tail then highestDecodedSeq else tail;
      }
      if end == 0 {
        return None;
      }
      assert end == Min(endSeq, tail);
      var nacks := Scan(end, expired);
      nacks := AppendAhead(nacks, endSeq);
      if |nacks| >= maxNumNacks {
        GiveUpAll(nacks);
        nacks := [];
      }
      r := Some((nacks, endSeq));
    }
  }

  lemma FinishFree(s: State)
    requires |s.slots| > 0 && s.holder.Free?
    ensures Finish(s) == s
  {}
}
