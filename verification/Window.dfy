// The receive window as a transition system. A step is one critical section: what a thread does to one slot while it
// holds the lock of that slot, with the queue lock held or not as in the source. The threads are any number of
// producers, one consumer, and the acknowledgement thread.
module Window {
  import opened Wrappers
  import opened Gf

  datatype Status = Empty | OccupiedNew | Block | Drop | Read

  // The payload is as long as the recorded length says.
  datatype Slot = Slot(status: Status, seqNum: nat, payload: seq<gf>)

  const CLEAR := Slot(Empty, 0, [])

  // Who holds the queue lock, and how far it has come.
  datatype Holder =
    | Free
    | Arrived(seqNum: nat, payload: seq<gf>)
    | Clearing(seqNum: nat, next: nat)
    | Wrapping(seqNum: nat, next: nat)
    | Taking(index: nat)

  // The consumer waiting for a slot holds no lock; what it stored and took are kept for the record.
  datatype State = State(
    slots: seq<Slot>, head: nat, tail: nat, holder: Holder, waiting: Option<nat>,
    stored: set<(nat, seq<gf>)>, taken: seq<(nat, seq<gf>)>)

  function Index(seqNum: nat, b: nat): (i: nat)
    requires seqNum > 0 && b > 0
    ensures i < b
  {
    (seqNum - 1) % b
  }

  predicate IsFull(s: State) { s.head + |s.slots| == s.tail }

  predicate IsEmpty(s: State) { s.tail == s.head }

  function Init(b: nat): State
  {
    State(seq(b, i => CLEAR), 0, 0, Free, None, {}, [])
  }

  // ---- producers --------------------------------------------------------------

  // The queue is full: a slot the consumer is blocked on is given up, and the producer waits for room.
  function DropBlocked(s: State): State
    requires |s.slots| > 0
  {
    var i := s.head % |s.slots|;
    s.(
      slots := if s.slots[i].status == Block then s.slots[i := s.slots[i].(status := Drop)] else s.slots,
      holder := Free)
  }

  predicate IsJump(s: State, seqNum: nat)
  {
    seqNum > s.head + |s.slots|
  }

  // The slot of the packet is filled unless it holds a packet that has not been read. A jump moves the whole window.
  function Store(s: State, seqNum: nat, payload: seq<gf>): State
    requires |s.slots| > 0
  {
    if seqNum <= s.head then s.(holder := Free)
    else
      var i := Index(seqNum, |s.slots|);
      var filled :=
        if s.slots[i].status != OccupiedNew then
          s.(slots := s.slots[i := Slot(OccupiedNew, seqNum, payload)], stored := s.stored + {(seqNum, payload)})
        else s;
      if IsJump(s, seqNum) then filled.(head := seqNum - 1, tail := seqNum, holder := Wrapping(seqNum, 0))
      else filled.(holder := if seqNum > s.tail then Clearing(seqNum, s.tail) else Free)
  }

  // After a jump every other slot is cleared, without its lock.
  function Wrap(s: State): State
    requires s.holder.Wrapping? && s.holder.seqNum > 0 && |s.slots| > 0
  {
    var i := s.holder.next;
    if i < |s.slots| then
      s.(
        slots := if i != Index(s.holder.seqNum, |s.slots|) then s.slots[i := CLEAR] else s.slots,
        holder := Wrapping(s.holder.seqNum, i + 1))
    else s.(holder := Free)
  }

  // The slots the window grows over lose the packets that were read from them; then the tail moves.
  function Clean(s: State): State
    requires s.holder.Clearing? && |s.slots| > 0
  {
    var i := s.holder.next;
    if i < s.holder.seqNum then
      var j := i % |s.slots|;
      s.(
        slots := if s.slots[j].status == Read then s.slots[j := CLEAR] else s.slots,
        holder := Clearing(s.holder.seqNum, i + 1))
    else s.(tail := s.holder.seqNum, holder := Free)
  }

  // ---- the consumer -----------------------------------------------------------

  // What the consumer does with its slot: it takes the packet, gives it up, or waits.
  function Take(s: State): State
    requires s.holder.Taking? && s.holder.index < |s.slots|
  {
    var i := s.holder.index;
    var slot := s.slots[i];
    match slot.status
    case Empty => s.(slots := s.slots[i := slot.(status := Block)], holder := Free, waiting := Some(i))
    case Block => s.(holder := Free, waiting := Some(i))
    case OccupiedNew =>
      s.(slots := s.slots[i := slot.(status := Read)], head := s.head + 1, holder := Free,
        taken := s.taken + [(s.head + 1, slot.payload)])
    case Read => s.(slots := s.slots[i := CLEAR], head := s.head + 1, holder := Free)
    case Drop => s.(slots := s.slots[i := CLEAR], head := s.head + 1, holder := Free)
  }

  // Woken, with the queue lock again: the index is kept only if the slot still has the number that is due.
  function Wake(s: State): State
    requires s.waiting.Some? && s.waiting.value < |s.slots| && |s.slots| > 0
  {
    var i := s.waiting.value;
    s.(holder := Taking(if s.slots[i].seqNum != s.head + 1 then s.head % |s.slots| else i), waiting := None)
  }

  // ---- the acknowledgement thread ---------------------------------------------

  // It works on a stale snapshot, so it may mark any slot: a blocked one in the scan, any one when there are too many.
  function Mark(s: State, seqNum: nat, onlyBlocked: bool): State
    requires seqNum > 0 && |s.slots| > 0
  {
    var i := Index(seqNum, |s.slots|);
    if onlyBlocked && s.slots[i].status != Block then s
    else s.(slots := s.slots[i := s.slots[i].(status := Drop, seqNum := seqNum)])
  }

  datatype Step =
    | Enter(seqNum: nat, payload: seq<gf>)
    | WaitForRoom
    | StoreStep
    | WrapStep
    | CleanStep
    | Begin
    | TakeStep
    | WakeStep
    | MarkStep(markNum: nat, onlyBlocked: bool)

  predicate Enabled(s: State, step: Step)
  {
    match step
    case Enter(_, _) => s.holder.Free?
    case WaitForRoom => s.holder.Arrived? && IsFull(s)
    case StoreStep => s.holder.Arrived? && !IsFull(s)
    case WrapStep => s.holder.Wrapping? && s.holder.seqNum > 0
    case CleanStep => s.holder.Clearing?
    case Begin => s.holder.Free? && s.waiting.None? && !IsEmpty(s)
    case TakeStep => s.holder.Taking? && s.holder.index < |s.slots|
    case WakeStep => s.holder.Free? && s.waiting.Some? && s.waiting.value < |s.slots|
    case MarkStep(n, _) => n > 0
  }

  function Apply(s: State, step: Step): State
    requires |s.slots| > 0 && Enabled(s, step)
  {
    match step
    case Enter(n, p) => s.(holder := Arrived(n, p))
    case WaitForRoom => DropBlocked(s)
    case StoreStep => Store(s, s.holder.seqNum, s.holder.payload)
    case WrapStep => Wrap(s)
    case CleanStep => Clean(s)
    case Begin => s.(holder := Taking(s.head % |s.slots|))
    case TakeStep => Take(s)
    case WakeStep => Wake(s)
    case MarkStep(n, b) => Mark(s, n, b)
  }

  // The one step that breaks the window: a jump to a slot whose packet has not been read.
  predicate JumpsOntoPacket(s: State, step: Step)
  {
    && |s.slots| > 0 && step.StoreStep? && s.holder.Arrived? && IsJump(s, s.holder.seqNum) && !IsFull(s)
    && s.holder.seqNum > 0 && s.slots[Index(s.holder.seqNum, |s.slots|)].status == OccupiedNew
  }

  // ---- the invariant ----------------------------------------------------------

  // The sequence numbers a new packet may have: those of the window, and the one that is being stored.
  predicate Live(s: State, n: nat)
  {
    s.head < n <= s.tail || (s.holder.Clearing? && n == s.holder.seqNum)
  }

  // A slot the clearing loop of a jump has not reached yet still holds what it held before.
  predicate Stale(s: State, j: nat)
    requires |s.slots| > 0
  {
    s.holder.Wrapping? && s.holder.seqNum > 0 && j >= s.holder.next && j != Index(s.holder.seqNum, |s.slots|)
  }

  ghost predicate SlotOk(s: State, j: nat)
    requires j < |s.slots|
  {
    var slot := s.slots[j];
    && (slot.seqNum == 0 || Index(slot.seqNum, |s.slots|) == j)
    && (slot.status == OccupiedNew && !Stale(s, j) ==>
      slot.seqNum > 0 && Live(s, slot.seqNum) && (slot.seqNum, slot.payload) in s.stored)
  }

  // The numbers whose slots are known to hold no packet that was read before.
  predicate Cleaned(s: State, n: nat)
  {
    s.head < n <= s.tail || (s.holder.Clearing? && s.tail < n <= s.holder.next)
  }

  ghost predicate HolderOk(s: State)
    requires |s.slots| > 0
  {
    match s.holder
    case Free => true
    case Arrived(_, _) => true
    case Clearing(n, i) => s.tail <= i <= n && s.tail < n <= s.head + |s.slots|
    case Wrapping(n, i) => n > 0 && s.head == n - 1 && s.tail == n && i <= |s.slots|
    case Taking(i) => i == s.head % |s.slots| && s.head < s.tail && s.waiting.None?
  }

  ghost predicate Inv(s: State)
  {
    && |s.slots| > 0
    && s.head <= s.tail <= s.head + |s.slots|
    && (forall j :: 0 <= j < |s.slots| ==> SlotOk(s, j))
    && (forall n: nat :: n > 0 && Cleaned(s, n) ==> s.slots[Index(n, |s.slots|)].status != Read)
    && HolderOk(s)
    && (s.waiting.Some? ==> s.head < s.tail && s.waiting.value < |s.slots|)
    && (forall k :: 0 <= k < |s.taken| ==> s.taken[k] in s.stored && s.taken[k].0 <= s.head)
    && forall k, l :: 0 <= k < l < |s.taken| ==> s.taken[k].0 < s.taken[l].0
  }

  lemma MultipleGrows(b: nat, k: int)
    ensures k >= 1 ==> b * k >= b
    ensures k <= 0 ==> b * k <= 0
  {}

  lemma NoMultiple(b: nat, k: int, d: nat)
    requires d == b * k && d < b
    ensures d == 0
  {
    MultipleGrows(b, k);
  }

  lemma ModNear(a: nat, c: nat, b: nat)
    requires b > 0 && a <= c < a + b && a % b == c % b
    ensures a == c
  {
    var q, q', r := a / b, c / b, a % b;
    assert a == b * q + r && c == b * q' + r;
    assert b * q' - b * q == b * (q' - q);
    NoMultiple(b, q' - q, c - a);
  }

  // Two numbers of one window that share a slot are the same.
  lemma SameIndex(n: nat, m: nat, h: nat, b: nat)
    requires b > 0 && h < n <= h + b && h < m <= h + b && Index(n, b) == Index(m, b)
    ensures n == m
  {
    if n <= m {
      ModNear(n - 1, m - 1, b);
    } else {
      ModNear(m - 1, n - 1, b);
    }
  }

  lemma InitInv(b: nat)
    requires b > 0
    ensures Inv(Init(b))
  {}

  lemma EnterInv(s: State, n: nat, p: seq<gf>)
    requires Inv(s) && s.holder.Free?
    ensures Inv(Apply(s, Enter(n, p)))
  {
    hide Index;
    var s' := Apply(s, Enter(n, p));
    assert forall j :: 0 <= j < |s.slots| ==> SlotOk(s, j) ==> SlotOk(s', j);
    assert forall m: nat :: Cleaned(s', m) ==> Cleaned(s, m);
  }

  lemma WaitForRoomInv(s: State)
    requires Inv(s) && s.holder.Arrived?
    ensures Inv(DropBlocked(s))
  {
    hide Index;
    var s' := DropBlocked(s);
    forall j | 0 <= j < |s.slots|
      ensures SlotOk(s', j)
    {
      assert SlotOk(s, j);
    }
    assert forall m: nat :: Cleaned(s', m) ==> Cleaned(s, m);
  }

  lemma StoreInv(s: State, seqNum: nat, payload: seq<gf>)
    requires Inv(s) && s.holder == Arrived(seqNum, payload)
    requires IsJump(s, seqNum) && seqNum > 0 ==> s.slots[Index(seqNum, |s.slots|)].status != OccupiedNew
    ensures Inv(Store(s, seqNum, payload))
  {
    hide Index;
    var s' := Store(s, seqNum, payload);
    forall j | 0 <= j < |s.slots|
      ensures SlotOk(s', j)
    {
      assert SlotOk(s, j);
    }
    forall n: nat | n > 0 && Cleaned(s', n)
      ensures s'.slots[Index(n, |s.slots|)].status != Read
    {
      assert !IsJump(s, seqNum) || seqNum <= s.head ==> Cleaned(s, n);
    }
  }

  lemma WrapInv(s: State)
    requires Inv(s) && s.holder.Wrapping?
    ensures Inv(Wrap(s))
  {
    hide Index;
    var s' := Wrap(s);
    forall j | 0 <= j < |s.slots|
      ensures SlotOk(s', j)
    {
      assert SlotOk(s, j);
    }
    forall n: nat | n > 0 && Cleaned(s', n)
      ensures s'.slots[Index(n, |s.slots|)].status != Read
    {
      assert Cleaned(s, n) && n == s.holder.seqNum;
    }
  }

  lemma CleanInv(s: State)
    requires Inv(s) && s.holder.Clearing?
    ensures Inv(Clean(s))
  {
    var s', i := Clean(s), s.holder.next;
    assert Index(i + 1, |s.slots|) == i % |s.slots|;
    hide Index;
    forall j | 0 <= j < |s.slots|
      ensures SlotOk(s', j)
    {
      assert SlotOk(s, j);
    }
    forall n: nat | n > 0 && Cleaned(s', n)
      ensures s'.slots[Index(n, |s.slots|)].status != Read
    {
      assert Cleaned(s, n) || n == i + 1;
    }
  }

  // The number due at the consumer's slot.
  lemma DueSlot(s: State)
    requires Inv(s) && s.holder.Taking?
    ensures s.holder.index < |s.slots| && s.holder.index == Index(s.head + 1, |s.slots|)
    ensures forall n: nat :: s.head + 1 < n <= s.tail ==> Index(n, |s.slots|) != s.holder.index
    ensures s.slots[s.holder.index].status == OccupiedNew ==> s.slots[s.holder.index].seqNum == s.head + 1
    ensures s.slots[s.holder.index].status != Read
  {
    var b, i := |s.slots|, s.holder.index;
    assert i == Index(s.head + 1, b);
    hide Index;
    forall n: nat | s.head + 1 < n <= s.tail
      ensures Index(n, b) != i
    {
      if Index(n, b) == i {
        SameIndex(n, s.head + 1, s.head, b);
      }
    }
    assert SlotOk(s, i);
    if s.slots[i].status == OccupiedNew {
      SameIndex(s.slots[i].seqNum, s.head + 1, s.head, b);
    }
    assert Cleaned(s, s.head + 1);
  }

  // What the consumer leaves behind. It goes on exactly when the slot holds an unread packet or has been given up, and
  // then the slot is free for the next number; otherwise it waits, and the slot says so.
  lemma TakeLeaves(s: State)
    requires Inv(s) && s.holder.Taking?
    ensures var s', i := Take(s), s.head % |s.slots|;
      && s.holder.index == i && s'.holder.Free? && s'.tail == s.tail && s'.stored == s.stored
      && |s'.slots| == |s.slots| && (forall j :: 0 <= j < |s.slots| && j != i ==> s'.slots[j] == s.slots[j])
      && match s.slots[i].status
         case OccupiedNew =>
           && s'.head == s.head + 1 && s'.waiting.None? && s'.taken == s.taken + [(s.head + 1, s.slots[i].payload)]
           && s'.slots[i] == Slot(Read, s.head + 1, s.slots[i].payload)
         case Drop => s'.head == s.head + 1 && s'.waiting.None? && s'.taken == s.taken
           && s'.slots[i] == Slot(Empty, 0, [])
         case _ =>
           && s'.head == s.head && s'.waiting == Some(i) && s'.taken == s.taken
           && s'.slots[i] == Slot(Block, s.slots[i].seqNum, s.slots[i].payload)
  {
    hide Index;
    DueSlot(s);
  }

  lemma TakeInv(s: State)
    requires Inv(s) && s.holder.Taking?
    ensures Inv(Take(s))
  {
    hide Index;
    DueSlot(s);
    var s', i := Take(s), s.holder.index;
    assert SlotOk(s, i);
    forall j | 0 <= j < |s.slots|
      ensures SlotOk(s', j)
    {
      assert SlotOk(s, j);
    }
    forall n: nat | n > 0 && Cleaned(s', n)
      ensures s'.slots[Index(n, |s.slots|)].status != Read
    {
      assert Cleaned(s, n);
    }
  }

  lemma WakeInv(s: State)
    requires Inv(s) && s.holder.Free? && s.waiting.Some?
    ensures Inv(Wake(s)) && Wake(s).holder == Taking(s.head % |s.slots|)
  {
    var s', i := Wake(s), s.waiting.value;
    assert SlotOk(s, i);
    assert Index(s.head + 1, |s.slots|) == s.head % |s.slots|;
    hide Index;
    assert forall j :: 0 <= j < |s.slots| ==> SlotOk(s, j) ==> SlotOk(s', j);
    assert forall m: nat :: Cleaned(s', m) ==> Cleaned(s, m);
  }

  // A producer that finds the window full gives up the slot that is due if the consumer is blocked on it, and nothing
  // else. Then a consumer that waits goes on without a packet, and there is room.
  lemma FullWindowYields(s: State)
    requires Inv(s) && s.holder.Arrived? && s.tail == s.head + |s.slots|
    ensures var s', i := Apply(s, WaitForRoom), s.head % |s.slots|;
      && Enabled(s, WaitForRoom) && s' == s.(slots := s'.slots, holder := Free) && |s'.slots| == |s.slots|
      && (forall j :: 0 <= j < |s.slots| && (j != i || s.slots[j].status != Block) ==> s'.slots[j] == s.slots[j])
      && (s.slots[i].status == Block ==> s'.slots[i] == Slot(Drop, s.slots[i].seqNum, s.slots[i].payload))
    ensures s.waiting.Some? && s.slots[s.head % |s.slots|].status == Block ==>
      var s' := Apply(s, WaitForRoom);
      && Enabled(s', WakeStep) && Wake(s').holder == Taking(s.head % |s.slots|)
      && var t := Take(Wake(s'));
         t.head == s.head + 1 && t.tail == s.tail < t.head + |t.slots| && t.waiting.None? && t.taken == s.taken
  {
    hide Index;
    var s' := Apply(s, WaitForRoom);
    WaitForRoomInv(s);
    if s.waiting.Some? {
      WakeInv(s');
      hide Inv, Wake, Take;
      TakeLeaves(Wake(s'));
      WakeKeeps(s');
    }
  }

  lemma WakeKeeps(s: State)
    requires s.waiting.Some? && s.waiting.value < |s.slots|
    ensures Wake(s) == s.(holder := Wake(s).holder, waiting := None)
  {}

  lemma BeginInv(s: State)
    requires Inv(s) && Enabled(s, Begin)
    ensures Inv(Apply(s, Begin))
  {
    hide Index;
    var s' := Apply(s, Begin);
    assert forall j :: 0 <= j < |s.slots| ==> SlotOk(s, j) ==> SlotOk(s', j);
    assert forall m: nat :: Cleaned(s', m) ==> Cleaned(s, m);
  }

  lemma MarkInv(s: State, n: nat, onlyBlocked: bool)
    requires Inv(s) && n > 0
    ensures Inv(Mark(s, n, onlyBlocked))
  {
    hide Index;
    var s' := Mark(s, n, onlyBlocked);
    forall j | 0 <= j < |s.slots|
      ensures SlotOk(s', j)
    {
      assert SlotOk(s, j);
    }
    assert forall m: nat :: Cleaned(s', m) ==> Cleaned(s, m);
  }

  lemma StepInv(s: State, step: Step)
    requires Inv(s) && Enabled(s, step) && !JumpsOntoPacket(s, step)
    ensures Inv(Apply(s, step)) && |Apply(s, step).slots| == |s.slots|
  {
    hide Inv, Index;
    SlotsKept(s, step);
    match step
    case Enter(n, p) => EnterInv(s, n, p);
    case WaitForRoom => WaitForRoomInv(s);
    case StoreStep => StoreInv(s, s.holder.seqNum, s.holder.payload);
    case WrapStep => WrapInv(s);
    case CleanStep => CleanInv(s);
    case Begin => BeginInv(s);
    case TakeStep => TakeInv(s);
    case WakeStep => WakeInv(s);
    case MarkStep(n, b) => MarkInv(s, n, b);
  }

  lemma SlotsKept(s: State, step: Step)
    requires Inv(s) && Enabled(s, step)
    ensures |s.slots| > 0 && |Apply(s, step).slots| == |s.slots|
  {
    hide Index, SlotOk, HolderOk;
  }

  // ---- every run --------------------------------------------------------------

  ghost predicate Takes(s: State, step: Step, s': State)
  {
    |s.slots| > 0 && Enabled(s, step) && s' == Apply(s, step)
  }

  ghost predicate Run(states: seq<State>, steps: seq<Step>, b: nat)
  {
    && b > 0 && |states| == |steps| + 1 && states[0] == Init(b)
    && forall i :: 0 <= i < |steps| ==> Takes(states[i], steps[i], states[i + 1])
  }

  // A run in which no jump lands on a packet that has not been read.
  ghost predicate Trace(states: seq<State>, steps: seq<Step>, b: nat)
  {
    Run(states, steps, b) && forall i :: 0 <= i < |steps| ==> !JumpsOntoPacket(states[i], steps[i])
  }

  lemma {:induction false} TraceInv(states: seq<State>, steps: seq<Step>, b: nat, i: nat)
    requires Trace(states, steps, b) && i < |states|
    ensures Inv(states[i]) && |states[i].slots| == b
  {
    hide Inv, Enabled, Apply, JumpsOntoPacket;
    if i == 0 {
      InitInv(b);
      InitSize(b);
    } else {
      TraceInv(states, steps, b, i - 1);
      assert Takes(states[i - 1], steps[i - 1], states[i - 1 + 1]) && !JumpsOntoPacket(states[i - 1], steps[i - 1]);
      StepInv(states[i - 1], steps[i - 1]);
    }
  }

  lemma InitSize(b: nat)
    ensures |Init(b).slots| == b
  {}

  // What the consumer takes is what was stored under the number that is due.
  lemma FaithfulTake(s: State)
    requires Inv(s) && s.holder.Taking? && s.holder.index < |s.slots| && s.slots[s.holder.index].status == OccupiedNew
    ensures Take(s).taken == s.taken + [(s.head + 1, s.slots[s.holder.index].payload)] && Take(s).head == s.head + 1
    ensures (s.head + 1, s.slots[s.holder.index].payload) in s.stored
  {
    hide Index;
    DueSlot(s);
    assert SlotOk(s, s.holder.index);
  }

  // In every run packets are taken in strictly ascending order, so none twice, each with the content a producer
  // brought for that number in an earlier step.
  lemma InOrderDelivery(states: seq<State>, steps: seq<Step>, b: nat, i: nat)
    requires Trace(states, steps, b) && i < |states|
    ensures forall k :: 0 <= k < |states[i].taken| ==> Offered(steps, i, states[i].taken[k])
    ensures forall k, l :: 0 <= k < l < |states[i].taken| ==> states[i].taken[k].0 < states[i].taken[l].0
  {
    hide Run, Offered;
    TraceInv(states, steps, b, i);
    EveryStoredOffered(states, steps, b, i);
  }

  // ---- where the packets come from --------------------------------------------

  ghost predicate Offered(steps: seq<Step>, i: nat, p: (nat, seq<gf>))
  {
    exists j :: 0 <= j < i && j < |steps| && steps[j] == Enter(p.0, p.1)
  }

  ghost predicate StoredOffered(s: State, steps: seq<Step>, i: nat)
  {
    && (s.holder.Arrived? ==> Offered(steps, i, (s.holder.seqNum, s.holder.payload)))
    && forall p :: p in s.stored ==> Offered(steps, i, p)
  }

  // Only a store adds to what was stored, and what it adds is the packet that has arrived.
  lemma StepStored(s: State, step: Step)
    requires |s.slots| > 0 && Enabled(s, step)
    ensures var s' := Apply(s, step);
      && (forall p :: p in s'.stored ==>
        p in s.stored || (s.holder.Arrived? && p == (s.holder.seqNum, s.holder.payload)))
      && (s'.holder.Arrived? ==> step == Enter(s'.holder.seqNum, s'.holder.payload) || s'.holder == s.holder)
  {
    hide Index;
  }

  lemma {:induction false} EveryStoredOffered(states: seq<State>, steps: seq<Step>, b: nat, i: nat)
    requires Run(states, steps, b) && i < |states|
    ensures StoredOffered(states[i], steps, i)
  {
    hide Apply, Enabled;
    if i > 0 {
      EveryStoredOffered(states, steps, b, i - 1);
      assert Takes(states[i - 1], steps[i - 1], states[i - 1 + 1]);
      StepStored(states[i - 1], steps[i - 1]);
    }
  }

  // ---- nothing is lost without a reason ---------------------------------------

  // The step gives up slot j: it is marked, or the window is full and the consumer waits for it.
  predicate GivesUpSlot(s: State, step: Step, j: nat)
  {
    && j < |s.slots|
    && match step
       case MarkStep(n, onlyBlocked) => n > 0 && Index(n, |s.slots|) == j
         && (onlyBlocked ==> s.slots[j].status == Block)
       case WaitForRoom => j == s.head % |s.slots| && s.slots[j].status == Block
       case _ => false
  }

  predicate Jumps(s: State, step: Step)
  {
    step.StoreStep? && s.holder.Arrived? && IsJump(s, s.holder.seqNum)
  }

  // The steps that may give a packet up.
  predicate GivesUp(s: State, step: Step)
  {
    Jumps(s, step) || exists j :: 0 <= j < |s.slots| && GivesUpSlot(s, step, j)
  }

  ghost predicate Gapless(s: State)
  {
    && !s.holder.Wrapping?
    && (forall j :: 0 <= j < |s.slots| ==> s.slots[j].status != Drop)
    && |s.taken| == s.head && forall k :: 0 <= k < |s.taken| ==> s.taken[k].0 == k + 1
  }

  // No other step does.
  lemma TurnsToDrop(s: State, step: Step, j: nat)
    requires |s.slots| > 0 && Enabled(s, step) && j < |s.slots|
    requires s.slots[j].status != Drop && Apply(s, step).slots[j].status == Drop
    ensures GivesUpSlot(s, step, j)
  {
    hide Index;
  }

  lemma StepKeepsDrops(s: State, step: Step)
    requires |s.slots| > 0 && Enabled(s, step) && !GivesUp(s, step) && |Apply(s, step).slots| == |s.slots|
    requires forall j :: 0 <= j < |s.slots| ==> s.slots[j].status != Drop
    ensures forall j :: 0 <= j < |s.slots| ==> Apply(s, step).slots[j].status != Drop
  {
    hide Index, Apply, Enabled, GivesUpSlot;
    forall j | 0 <= j < |s.slots|
      ensures Apply(s, step).slots[j].status != Drop
    {
      if Apply(s, step).slots[j].status == Drop {
        TurnsToDrop(s, step, j);
      }
    }
  }

  // How the head moves: past a packet that is taken, past a slot that was given up, or by a jump.
  lemma HeadMoves(s: State, step: Step)
    requires Inv(s) && Enabled(s, step)
    ensures var s', i := Apply(s, step), Index(s.head + 1, |s.slots|);
      || (s'.head == s.head && s'.taken == s.taken)
      || (Jumps(s, step) && s'.head == s.holder.seqNum - 1 > s.head && s'.taken == s.taken)
      || (step.TakeStep? && s'.head == s.head + 1 &&
            if s.slots[i].status == Drop then s'.taken == s.taken
            else s'.taken == s.taken + [(s.head + 1, s.slots[i].payload)])
  {
    hide Index, SlotOk;
    if step.TakeStep? {
      DueSlot(s);
    }
  }

  lemma StepGapless(s: State, step: Step)
    requires Inv(s) && Gapless(s) && Enabled(s, step) && !GivesUp(s, step)
    ensures Gapless(Apply(s, step))
  {
    hide Index, SlotOk, Apply, Enabled, GivesUpSlot;
    SlotsKept(s, step);
    StepKeepsDrops(s, step);
    HeadMoves(s, step);
    StepWraps(s, step);
  }

  lemma StepWraps(s: State, step: Step)
    requires |s.slots| > 0 && Enabled(s, step) && !s.holder.Wrapping? && !Jumps(s, step)
    ensures !Apply(s, step).holder.Wrapping?
  {
    hide Index;
  }

  // As long as nothing is given up, the consumer has been handed 1, 2, 3, … up to the head, without a gap.
  lemma {:induction false} GaplessDelivery(states: seq<State>, steps: seq<Step>, b: nat, i: nat)
    requires Run(states, steps, b) && i < |states|
    requires forall j :: 0 <= j < i && j < |steps| ==> !GivesUp(states[j], steps[j])
    ensures Inv(states[i]) && Gapless(states[i])
  {
    hide Apply, Enabled, Inv;
    if i == 0 {
      InitInv(b);
    } else {
      GaplessDelivery(states, steps, b, i - 1);
      assert Takes(states[i - 1], steps[i - 1], states[i - 1 + 1]);
      StepGapless(states[i - 1], steps[i - 1]);
      StepInv(states[i - 1], steps[i - 1]);
    }
  }

  // ---- what became of every number -----------------------------------------------

  // Slot j was given up by an earlier step, and has been so ever since.
  ghost predicate GivenUpSince(states: seq<State>, steps: seq<Step>, k: nat, t: nat, j: nat)
    requires |states| == |steps| + 1
  {
    && k < t < |states| && GivesUpSlot(states[k], steps[k], j)
    && forall l :: k < l <= t ==> j < |states[l].slots| && states[l].slots[j].status == Drop
  }

  ghost predicate WasGivenUp(states: seq<State>, steps: seq<Step>, t: nat, j: nat)
    requires |states| == |steps| + 1
  {
    exists k :: 0 <= k < t && GivenUpSince(states, steps, k, t, j)
  }

  lemma {:induction false} DropCause(states: seq<State>, steps: seq<Step>, b: nat, t: nat, j: nat)
    requires Trace(states, steps, b) && t < |states| && j < |states[t].slots| && states[t].slots[j].status == Drop
    ensures WasGivenUp(states, steps, t, j)
  {
    hide Inv, Enabled, Apply, JumpsOntoPacket, GivesUpSlot;
    TraceInv(states, steps, b, t);
    if t > 0 {
      TraceInv(states, steps, b, t - 1);
      assert Takes(states[t - 1], steps[t - 1], states[t - 1 + 1]);
      if states[t - 1].slots[j].status == Drop {
        DropCause(states, steps, b, t - 1, j);
        var k :| 0 <= k < t - 1 && GivenUpSince(states, steps, k, t - 1, j);
        assert GivenUpSince(states, steps, k, t, j);
      } else {
        TurnsToDrop(states[t - 1], steps[t - 1], j);
        assert GivenUpSince(states, steps, t - 1, t, j);
      }
    }
  }

  // The head has not gone past a number of slot j since step k.
  ghost predicate Unspent(states: seq<State>, b: nat, k: nat, i: nat, j: nat)
    requires k < |states| && i < |states| && b > 0
  {
    forall m: nat :: states[k].head < m <= states[i].head ==> Index(m, b) != j
  }

  // Step t moves the head past n: it takes the packet n, or leaves a slot that was given up, or jumps over n. One
  // giving up costs one number: since then the head has passed no other number of the slot.
  ghost predicate PassedAt(states: seq<State>, steps: seq<Step>, b: nat, t: nat, n: nat)
    requires |states| == |steps| + 1 && t < |steps| && b > 0 && n > 0
  {
    var s, s', i := states[t], states[t + 1], Index(n, b);
    && s.head < n <= s'.head
    && if Jumps(s, steps[t]) then s'.taken == s.taken && n < s.holder.seqNum
       else
         && steps[t].TakeStep? && s'.head == n == s.head + 1 && i < |s.slots|
         && (s'.taken == if s.slots[i].status == Drop then s.taken else s.taken + [(n, s.slots[i].payload)])
         && (s.slots[i].status == Drop ==> exists k :: 0 <= k < t && CostsOne(states, steps, b, k, t, i))
  }

  ghost predicate CostsOne(states: seq<State>, steps: seq<Step>, b: nat, k: nat, t: nat, j: nat)
    requires |states| == |steps| + 1 && b > 0
  {
    GivenUpSince(states, steps, k, t, j) && Unspent(states, b, k, t, j)
  }

  // The clearing after a jump has not come to slot j yet.
  predicate WrapPending(s: State, j: nat)
  {
    s.holder.Wrapping? && s.holder.next <= j && s.holder.seqNum > 0 && |s.slots| > 0
    && j != Index(s.holder.seqNum, |s.slots|)
  }

  // As long as the slot stays given up, the head passes no number of it, but by a jump whose clearing is pending.
  lemma StepUnspent(s: State, step: Step, j: nat)
    requires Inv(s) && Enabled(s, step) && !JumpsOntoPacket(s, step)
    requires j < |s.slots| && s.slots[j].status == Drop && |Apply(s, step).slots| == |s.slots|
    requires Apply(s, step).slots[j].status == Drop
    ensures WrapPending(s, j) ==> WrapPending(Apply(s, step), j)
    ensures WrapPending(Apply(s, step), j) ||
      forall m: nat :: s.head < m <= Apply(s, step).head ==> Index(m, |s.slots|) != j
  {
    hide Index, SlotOk;
    if step.TakeStep? {
      DueSlot(s);
    }
  }

  lemma {:induction false} DropUnspent(states: seq<State>, steps: seq<Step>, b: nat, k: nat, i: nat, j: nat)
    requires Trace(states, steps, b) && k < i < |states| && GivenUpSince(states, steps, k, i, j)
    ensures Unspent(states, b, k, i, j) || WrapPending(states[i], j)
  {
    hide Inv, Enabled, Apply, JumpsOntoPacket, GivesUpSlot, Index, WrapPending;
    TraceInv(states, steps, b, i - 1);
    TraceInv(states, steps, b, i);
    assert Takes(states[i - 1], steps[i - 1], states[i - 1 + 1]) && !JumpsOntoPacket(states[i - 1], steps[i - 1]);
    if i == k + 1 {
      GivingUpStays(states[k], steps[k], j);
    } else {
      assert GivenUpSince(states, steps, k, i - 1, j);
      DropUnspent(states, steps, b, k, i - 1, j);
      StepUnspent(states[i - 1], steps[i - 1], j);
    }
  }

  lemma GivingUpStays(s: State, step: Step, j: nat)
    requires |s.slots| > 0 && Enabled(s, step) && GivesUpSlot(s, step, j)
    ensures Apply(s, step).head == s.head
  {
    hide Index;
  }

  ghost predicate Passed(states: seq<State>, steps: seq<Step>, b: nat, i: nat, n: nat)
    requires |states| == |steps| + 1 && b > 0 && n > 0
  {
    exists t :: 0 <= t < i && t < |steps| && PassedAt(states, steps, b, t, n)
  }

  lemma PassesNow(states: seq<State>, steps: seq<Step>, b: nat, t: nat, n: nat)
    requires Trace(states, steps, b) && t < |steps| && states[t].head < n <= states[t + 1].head
    ensures PassedAt(states, steps, b, t, n)
  {
    hide Inv, Enabled, Apply, JumpsOntoPacket, WasGivenUp, GivenUpSince, Unspent, Index;
    TraceInv(states, steps, b, t);
    assert Takes(states[t], steps[t], states[t + 1]);
    HeadMoves(states[t], steps[t]);
    if !Jumps(states[t], steps[t]) && states[t].slots[Index(n, b)].status == Drop {
      var k := DropCostsOne(states, steps, b, t, Index(n, b));
    }
  }

  lemma DropCostsOne(states: seq<State>, steps: seq<Step>, b: nat, t: nat, j: nat) returns (k: nat)
    requires Trace(states, steps, b) && t < |steps| && j < |states[t].slots| && states[t].slots[j].status == Drop
    requires steps[t].TakeStep?
    ensures k < t && CostsOne(states, steps, b, k, t, j)
  {
    hide Inv, Apply, JumpsOntoPacket, GivenUpSince, Unspent, Index;
    DropCause(states, steps, b, t, j);
    k :| 0 <= k < t && GivenUpSince(states, steps, k, t, j);
    DropUnspent(states, steps, b, k, t, j);
    assert Takes(states[t], steps[t], states[t + 1]);
  }

  // In every run, each number up to the head was passed by one step, and that step took the packet, or an earlier step
  // had given up its slot for good, or the window jumped over it. So nothing is lost without a cause in the run.
  lemma {:induction false} EveryNumberPassed(states: seq<State>, steps: seq<Step>, b: nat, i: nat, n: nat)
    requires Trace(states, steps, b) && i < |states| && 1 <= n <= states[i].head
    ensures Passed(states, steps, b, i, n)
  {
    hide Takes, JumpsOntoPacket, PassedAt;
    if i > 0 && n <= states[i - 1].head {
      EveryNumberPassed(states, steps, b, i - 1, n);
      var t :| 0 <= t < i - 1 && t < |steps| && PassedAt(states, steps, b, t, n);
      assert PassedAt(states, steps, b, t, n);
    } else if i > 0 {
      PassesNow(states, steps, b, i - 1, n);
    }
  }

  // The window of every reachable state.
  lemma WindowInvariant(states: seq<State>, steps: seq<Step>, b: nat, i: nat)
    requires Trace(states, steps, b) && i < |states|
    ensures var s := states[i];
      && |s.slots| == b && s.head <= s.tail <= s.head + b
      && (forall j :: 0 <= j < b ==> s.slots[j].seqNum == 0 || (s.slots[j].seqNum - 1) % b == j)
      && (s.holder.Free? ==> forall j :: 0 <= j < b && s.slots[j].status == OccupiedNew ==>
        s.head < s.slots[j].seqNum <= s.tail)
      && (forall n: nat :: s.head < n <= s.tail ==> s.slots[Index(n, b)].status != Read)
      && (s.holder.Taking? ==> s.holder.index == s.head % b)
  {
    hide Trace, Index;
    TraceInv(states, steps, b, i);
    var s := states[i];
    forall j | 0 <= j < b
      ensures s.slots[j].seqNum == 0 || (s.slots[j].seqNum - 1) % b == j
      ensures s.holder.Free? && s.slots[j].status == OccupiedNew ==> s.head < s.slots[j].seqNum <= s.tail
    {
      assert SlotOk(s, j);
      if s.slots[j].seqNum > 0 {
        IndexIs(s.slots[j].seqNum, b);
      }
    }
    forall n: nat | s.head < n <= s.tail
      ensures s.slots[Index(n, b)].status != Read
    {
      assert Cleaned(s, n);
    }
  }

  lemma IndexIs(n: nat, b: nat)
    requires n > 0 && b > 0
    ensures Index(n, b) == (n - 1) % b
  {}

  // A jump keeps the window exactly when it does not land on a packet that has not been read.
  lemma JumpExact(s: State, seqNum: nat, payload: seq<gf>)
    requires Inv(s) && s.holder == Arrived(seqNum, payload) && seqNum > s.head + |s.slots|
    ensures Inv(Store(s, seqNum, payload)) <==> s.slots[Index(seqNum, |s.slots|)].status != OccupiedNew
  {
    hide Index;
    var j, s' := Index(seqNum, |s.slots|), Store(s, seqNum, payload);
    if s.slots[j].status != OccupiedNew {
      StoreInv(s, seqNum, payload);
    } else {
      assert SlotOk(s, j);
      assert !SlotOk(s', j);
    }
  }
}
