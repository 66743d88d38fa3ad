// The order in which the threads of the receive buffer take its locks: the queue lock before the lock of a slot, and
// never two slots. Where a thread is in its code says which lock it may ask for or give back next.
module LockOrder {
  datatype Lock = Queue | Element(index: nat)

  // Asleep on a condition variable a thread holds nothing, and asks for the lock of the variable when it wakes.
  datatype Place =
    // EnqueuePkt
    | Enqueue
    | TestFull
    | GivingUp(index: nat)
    | GaveUp
    | AsleepFull
    | HasRoom
    | Storing(index: nat)
    | Stored
    | CleaningUp(index: nat)
    // DequeuePkt
    | Dequeue
    | TestEmpty
    | AsleepEmpty
    | Due
    | Looking(index: nat)
    | Blocked(index: nat)
    | AsleepBlocked(index: nat)
    | Woken(index: nat)
    | Returning
    | Taken
    // FindNackSeqNum
    | FindNack
    | TestNew
    | AsleepNew
    | Snapshot
    | Scanning
    | Marking(index: nat)

  datatype Op = Acquire(lock: Lock) | Release(lock: Lock) | Local

  // A wait on a condition variable is a release, and an acquire from the place where the thread sleeps.
  predicate Edge(p: Place, op: Op, p': Place)
  {
    match p
    case Enqueue => op == Acquire(Queue) && p' == TestFull
    case TestFull => (op.Acquire? && op.lock.Element? && p' == GivingUp(op.lock.index))
      || (op == Local && p' == HasRoom)
    case GivingUp(i) => op == Release(Element(i)) && p' == GaveUp
    case GaveUp => op == Release(Queue) && p' == AsleepFull
    case AsleepFull => op == Acquire(Queue) && p' == TestFull
    case HasRoom => (op.Acquire? && op.lock.Element? && p' == Storing(op.lock.index)) || (op == Local && p' == Stored)
    case Storing(i) => op == Release(Element(i)) && p' == Stored
    case Stored => (op.Acquire? && op.lock.Element? && p' == CleaningUp(op.lock.index))
      || (op == Release(Queue) && p' == Enqueue)
    case CleaningUp(i) => op == Release(Element(i)) && p' == Stored
    case Dequeue => op == Acquire(Queue) && p' == TestEmpty
    case TestEmpty => (op == Release(Queue) && p' == AsleepEmpty) || (op == Local && p' == Due)
    case AsleepEmpty => op == Acquire(Queue) && p' == TestEmpty
    case Due => op.Acquire? && op.lock.Element? && p' == Looking(op.lock.index)
    case Looking(i) => (op == Release(Queue) && p' == Blocked(i)) || (op == Release(Element(i)) && p' == Taken)
    case Blocked(i) => op == Release(Element(i)) && p' == AsleepBlocked(i)
    case AsleepBlocked(i) => op == Acquire(Element(i)) && p' == Woken(i)
    case Woken(i) => op == Release(Element(i)) && p' == Returning
    case Returning => op == Acquire(Queue) && p' == Due
    case Taken => op == Release(Queue) && p' == Dequeue
    case FindNack => op == Acquire(Queue) && p' == TestNew
    case TestNew => op == Release(Queue) && (p' == AsleepNew || p' == Scanning)
    case AsleepNew => op == Acquire(Queue) && p' == Snapshot
    case Snapshot => op == Release(Queue) && p' == Scanning
    case Scanning => (op.Acquire? && op.lock.Element? && p' == Marking(op.lock.index))
      || (op == Local && p' == FindNack)
    case Marking(i) => op == Release(Element(i)) && p' == Scanning
  }

  // Any number of threads; a lock that is not in the map is free.
  datatype Threads = Threads(places: seq<Place>, owner: map<Lock, nat>)

  ghost predicate Step(s: Threads, t: nat, op: Op, s': Threads)
  {
    && t < |s.places| == |s'.places| && s'.places == s.places[t := s'.places[t]]
    && Edge(s.places[t], op, s'.places[t])
    && match op
       case Acquire(l) => l !in s.owner && s'.owner == s.owner[l := t]
       case Release(l) => s'.owner == s.owner - {l}
       case Local => s'.owner == s.owner
  }

  ghost predicate Start(s: Threads)
  {
    s.owner == map[] && forall t :: 0 <= t < |s.places| ==> s.places[t] in {Enqueue, Dequeue, FindNack}
  }

  datatype Move = Move(thread: nat, op: Op)

  ghost predicate Run(states: seq<Threads>, moves: seq<Move>)
  {
    && |states| == |moves| + 1 && Start(states[0])
    && forall i :: 0 <= i < |moves| ==> Step(states[i], moves[i].thread, moves[i].op, states[i + 1])
  }

  // ---- who holds what ---------------------------------------------------------

  predicate HoldsQueue(p: Place)
  {
    p in {TestFull, GaveUp, HasRoom, Stored, TestEmpty, Due, Taken, TestNew, Snapshot}
    || p.GivingUp? || p.Storing? || p.CleaningUp? || p.Looking?
  }

  predicate HoldsElement(p: Place, i: nat)
  {
    p in {GivingUp(i), Storing(i), CleaningUp(i), Looking(i), Blocked(i), Woken(i), Marking(i)}
  }

  predicate Holds(p: Place, l: Lock)
  {
    match l
    case Queue => HoldsQueue(p)
    case Element(i) => HoldsElement(p, i)
  }

  // The locks are with the threads whose places say so.
  ghost predicate Inv(s: Threads)
  {
    && (forall l :: l in s.owner ==> s.owner[l] < |s.places|)
    && forall l, t :: 0 <= t < |s.places| ==> ((l in s.owner && s.owner[l] == t) <==> Holds(s.places[t], l))
  }

  // A move changes what its thread holds by the lock it names, which it held before giving it back.
  lemma EdgeHolds(p: Place, op: Op, p': Place, l: Lock)
    requires Edge(p, op, p')
    ensures Holds(p', l) <==> op == Acquire(l) || (Holds(p, l) && op != Release(l))
    ensures op == Release(l) ==> Holds(p, l)
    ensures op == Acquire(l) ==> !Holds(p, l)
  {
    if l.Queue? {
      EdgeHoldsQueue(p, op, p');
    } else {
      EdgeHoldsElement(p, op, p', l.index);
    }
  }

  lemma EdgeHoldsQueue(p: Place, op: Op, p': Place)
    requires Edge(p, op, p')
    ensures HoldsQueue(p') <==> op == Acquire(Queue) || (HoldsQueue(p) && op != Release(Queue))
    ensures op == Release(Queue) ==> HoldsQueue(p)
    ensures op == Acquire(Queue) ==> !HoldsQueue(p)
  {}

  lemma EdgeHoldsElement(p: Place, op: Op, p': Place, i: nat)
    requires Edge(p, op, p')
    ensures HoldsElement(p', i) <==> op == Acquire(Element(i)) || (HoldsElement(p, i) && op != Release(Element(i)))
    ensures op == Release(Element(i)) ==> HoldsElement(p, i)
    ensures op == Acquire(Element(i)) ==> !HoldsElement(p, i)
  {}

  lemma StepInv(s: Threads, t: nat, op: Op, s': Threads)
    requires Inv(s) && Step(s, t, op, s')
    ensures Inv(s')
    ensures op.Release? ==> op.lock in s.owner && s.owner[op.lock] == t
  {
    hide Edge, Holds;
    forall l, u | 0 <= u < |s'.places|
      ensures (l in s'.owner && s'.owner[l] == u) <==> Holds(s'.places[u], l)
    {
      assert (l in s.owner && s.owner[l] == u) <==> Holds(s.places[u], l);
      assert (l in s.owner && s.owner[l] == t) <==> Holds(s.places[t], l);
      EdgeHolds(s.places[t], op, s'.places[t], l);
    }
    if op.Release? {
      EdgeHolds(s.places[t], op, s'.places[t], op.lock);
    }
  }

  lemma {:induction false} RunInv(states: seq<Threads>, moves: seq<Move>, i: nat)
    requires Run(states, moves) && i < |states|
    ensures Inv(states[i])
  {
    hide Step, Inv;
    if i == 0 {
      StartInv(states[0]);
    } else {
      RunInv(states, moves, i - 1);
      StepInv(states[i - 1], moves[i - 1].thread, moves[i - 1].op, states[i - 1 + 1]);
    }
  }

  lemma StartInv(s: Threads)
    requires Start(s)
    ensures Inv(s)
  {}

  // ---- who waits for whom -----------------------------------------------------

  // A place from which the code may ask for a lock.
  ghost predicate Asks(p: Place, l: Lock)
  {
    exists p' :: Edge(p, Acquire(l), p')
  }

  ghost predicate WaitsFor(s: Threads, t: nat, u: nat)
  {
    t < |s.places| && u < |s.places| && exists l :: Asks(s.places[t], l) && l in s.owner && s.owner[l] == u
  }

  // The hierarchy: whoever asks for the queue lock holds nothing, and whoever asks for a slot holds no slot.
  lemma AskingHolds(p: Place, l: Lock, held: Lock)
    requires Asks(p, l) && Holds(p, held)
    ensures l.Element? && held == Queue
  {
    var p' :| Edge(p, Acquire(l), p');
  }

  // A chain of waits ends after two links.
  lemma WaitsEnd(s: Threads, t: nat, u: nat, v: nat, w: nat)
    requires Inv(s) && WaitsFor(s, t, u) && WaitsFor(s, u, v)
    ensures !WaitsFor(s, v, w)
  {
    hide Edge, Holds, Asks;
    var l :| Asks(s.places[t], l) && l in s.owner && s.owner[l] == u;
    var m :| Asks(s.places[u], m) && m in s.owner && s.owner[m] == v;
    AskingHolds(s.places[u], m, l);
    if WaitsFor(s, v, w) {
      var k :| Asks(s.places[v], k) && k in s.owner && s.owner[k] == w;
      AskingHolds(s.places[v], k, m);
    }
  }

  ghost predicate Link(s: Threads, c: seq<nat>, i: nat)
    requires i < |c|
  {
    WaitsFor(s, c[i], c[(i + 1) % |c|])
  }

  ghost predicate Cycle(s: Threads, c: seq<nat>)
  {
    |c| > 0 && forall i :: 0 <= i < |c| ==> Link(s, c, i)
  }

  // In every run, no state has a cycle of waits, of whatever length.
  lemma NoDeadlock(states: seq<Threads>, moves: seq<Move>, i: nat, c: seq<nat>)
    requires Run(states, moves) && i < |states|
    ensures !Cycle(states[i], c)
  {
    hide Run, WaitsFor;
    RunInv(states, moves, i);
    var s := states[i];
    if Cycle(s, c) {
      var n := |c|;
      var i1 := 1 % n;
      var i2 := (i1 + 1) % n;
      assert Link(s, c, 0) && Link(s, c, i1) && Link(s, c, i2);
      WaitsEnd(s, c[0], c[i1], c[i2], c[(i2 + 1) % n]);
    }
  }

  // If anybody waits, there is a thread that holds a lock and waits for nobody.
  lemma SomebodyRuns(states: seq<Threads>, moves: seq<Move>, i: nat, t: nat, u: nat) returns (v: nat)
    requires Run(states, moves) && i < |states| && WaitsFor(states[i], t, u)
    ensures v < |states[i].places| && (exists l :: l in states[i].owner && states[i].owner[l] == v)
    ensures forall w :: !WaitsFor(states[i], v, w)
  {
    hide Run, Asks;
    RunInv(states, moves, i);
    if w :| WaitsFor(states[i], u, w) {
      forall x
        ensures !WaitsFor(states[i], w, x)
      {
        WaitsEnd(states[i], t, u, w, x);
      }
      v := w;
    } else {
      v := u;
    }
  }

  // In every run, of two threads at places that hold one lock there is only one: the queue, and each slot, are looked
  // at and changed by one thread at a time.
  lemma Exclusive(states: seq<Threads>, moves: seq<Move>, i: nat, t: nat, u: nat, l: Lock)
    requires Run(states, moves) && i < |states| && t < |states[i].places| && u < |states[i].places|
    requires Holds(states[i].places[t], l) && Holds(states[i].places[u], l)
    ensures t == u
  {
    hide Run, Holds;
    RunInv(states, moves, i);
    var s := states[i];
    HolderOwns(s, t, l);
    HolderOwns(s, u, l);
  }

  lemma HolderOwns(s: Threads, t: nat, l: Lock)
    requires Inv(s) && t < |s.places| && Holds(s.places[t], l)
    ensures l in s.owner && s.owner[l] == t
  {
    hide Holds;
  }

  // In every run the owner alone gives a lock back, nobody asks for the queue lock with a slot in hand, and nobody
  // holds two slots.
  lemma Hierarchy(states: seq<Threads>, moves: seq<Move>, i: nat, t: nat, l: Lock, m: Lock)
    requires Run(states, moves) && i < |states| && t < |states[i].places|
    requires l in states[i].owner && states[i].owner[l] == t
    ensures m in states[i].owner && states[i].owner[m] == t && m.Element? && l.Element? ==> l == m
    ensures Asks(states[i].places[t], m) ==> m.Element? && l == Queue
    ensures i < |moves| && moves[i] == Move(t, Release(m)) ==> m in states[i].owner && states[i].owner[m] == t
  {
    hide Edge, Asks;
    RunInv(states, moves, i);
    if Asks(states[i].places[t], m) {
      AskingHolds(states[i].places[t], m, l);
    }
    if i < |moves| && moves[i] == Move(t, Release(m)) {
      StepInv(states[i], t, Release(m), states[i + 1]);
    }
  }
}
