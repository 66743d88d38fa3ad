// The acknowledging thread among the others. It copies head and tail under the queue lock, gives that lock back, and
// visits one slot after another, so producers and the consumer move the window between any two of its steps.
module AckRuns {
  import opened Window
  import opened Nacks
  import opened AckPacket

  // How far a round has come; Failed is where the assertion of the source stops the program.
  datatype Phase =
    | Idle
    | Snapshot(head: nat, tail: nat)
    | Scanning(head: nat, tail: nat, end: nat, endSeq: nat, next: nat, nacks: seq<nat>)
    | GivingUp(listed: seq<nat>, given: nat, lastSeq: nat)
    | Failed

  // The window, the thread, and the lists it has handed on, each with its end.
  datatype System = System(win: State, phase: Phase, sent: seq<(seq<nat>, nat)>)

  datatype Move =
    | Others(step: Step)
    | TakeSnapshot
    | ReadBatch(highestDecodedSeq: nat, decodingDone: bool)
    | ScanNext(expired: bool)
    | EndScan
    | GiveUpNext

  function Init(b: nat): System
  {
    System(Window.Init(b), Idle, [])
  }

  predicate Possible(c: System, m: Move)
  {
    |c.win.slots| > 0 &&
    match m
    case Others(step) => !step.MarkStep? && Enabled(c.win, step)
    case TakeSnapshot => c.phase.Idle? && c.win.holder.Free?
    case ReadBatch(_, _) => c.phase.Snapshot?
    case ScanNext(_) => c.phase.Scanning? && c.phase.next < c.phase.end
    case EndScan => c.phase.Scanning? && c.phase.next >= c.phase.end
    case GiveUpNext => c.phase.GivingUp? && (c.phase.given < |c.phase.listed| ==> c.phase.listed[c.phase.given] > 0)
  }

  function Send(c: System, nacks: seq<nat>, endSeq: nat): System
  {
    c.(phase := Idle, sent := c.sent + [(nacks, endSeq)])
  }

  // Where to stop, decided on the copies; two cases have nothing to scan.
  function Read(c: System, highest: nat, done: bool): System
    requires c.phase.Snapshot?
  {
    var head, tail := c.phase.head, c.phase.tail;
    var endSeq := if done then Max(tail, highest) else highest;
    var end := if !done && highest < tail then highest else tail;
    if !done && (highest == 0 || (highest < tail && head >= highest)) then Send(c, [], endSeq)
    else if end == 0 then c.(phase := Failed)
    else c.(phase := Scanning(head, tail, end, endSeq, head, []))
  }

  function Scan(c: System, expired: bool): System
    requires |c.win.slots| > 0 && c.phase.Scanning?
  {
    var n := c.phase.next + 1;
    var status := c.win.slots[Index(n, |c.win.slots|)].status;
    if status == Block && expired then c.(win := Mark(c.win, n, true), phase := c.phase.(next := n))
    else if status == Empty || status == Block then c.(phase := c.phase.(next := n, nacks := c.phase.nacks + [n]))
    else c.(phase := c.phase.(next := n))
  }

  function Finish(c: System, max: nat): System
    requires c.phase.Scanning?
  {
    var nacks := c.phase.nacks + Ahead(c.phase.tail, c.phase.endSeq);
    if |nacks| >= max then c.(phase := GivingUp(nacks, 0, c.phase.endSeq)) else Send(c, nacks, c.phase.endSeq)
  }

  function GiveUp(c: System): System
    requires |c.win.slots| > 0 && c.phase.GivingUp?
      && (c.phase.given < |c.phase.listed| ==> c.phase.listed[c.phase.given] > 0)
  {
    var i := c.phase.given;
    if i < |c.phase.listed| then c.(win := Mark(c.win, c.phase.listed[i], false), phase := c.phase.(given := i + 1))
    else Send(c, [], c.phase.lastSeq)
  }

  // A move that is not possible changes nothing, so every sequence of moves is a run.
  function Next(c: System, m: Move, max: nat): System
  {
    if !Possible(c, m) then c
    else
      match m
      case Others(step) => c.(win := Apply(c.win, step))
      case TakeSnapshot => c.(phase := Snapshot(c.win.head, c.win.tail))
      case ReadBatch(highest, done) => Read(c, highest, done)
      case ScanNext(expired) => Scan(c, expired)
      case EndScan => Finish(c, max)
      case GiveUpNext => GiveUp(c)
  }

  function Exec(c: System, moves: seq<Move>, max: nat): System
  {
    if moves == [] then c else Next(Exec(c, moves[..|moves| - 1], max), moves[|moves| - 1], max)
  }

  // ---- every interleaving -----------------------------------------------------

  // What holds of the window in every run, even after a jump onto an unread packet.
  ghost predicate Bounds(s: State)
  {
    && |s.slots| > 0 && s.head <= s.tail <= s.head + |s.slots|
    && (s.waiting.Some? ==> s.head < s.tail)
    && match s.holder
       case Clearing(n, _) => s.tail < n <= s.head + |s.slots|
       case Wrapping(n, _) => n > 0 && s.head == n - 1 && s.tail == n
       case Taking(_) => s.head < s.tail && s.waiting.None?
       case _ => true
  }

  lemma StepBounds(s: State, step: Step)
    requires Bounds(s) && Enabled(s, step)
    ensures Bounds(Apply(s, step)) && |Apply(s, step).slots| == |s.slots|
  {
    hide Index;
  }

  // The list so far holds numbers of the snapshot's window, ascending, none past the place of the scan.
  ghost predicate PhaseOk(p: Phase, b: nat)
  {
    match p
    case Snapshot(head, tail) => head <= tail <= head + b
    case Scanning(head, tail, end, endSeq, next, nacks) =>
      && head <= tail <= head + b && end == Min(endSeq, tail) && head <= next <= Max(head, end)
      && Ascending(nacks, head, next) && (next == head ==> nacks == [])
    case GivingUp(listed, given, _) => given <= |listed| && forall i :: 0 <= i < |listed| ==> listed[i] > 0
    case _ => true
  }

  ghost predicate SentOk(sent: seq<(seq<nat>, nat)>, max: nat)
  {
    forall k :: 0 <= k < |sent| ==> Close(sent[k].0) && (sent[k].0 == [] || |sent[k].0| < max)
  }

  ghost predicate SystemOk(c: System, b: nat, max: nat)
  {
    Bounds(c.win) && |c.win.slots| == b && PhaseOk(c.phase, b) && SentOk(c.sent, max)
  }

  lemma MarkBounds(s: State, n: nat, onlyBlocked: bool)
    requires Bounds(s) && n > 0
    ensures Bounds(Mark(s, n, onlyBlocked)) && |Mark(s, n, onlyBlocked).slots| == |s.slots|
  {
    hide Index;
  }

  lemma SendOk(c: System, nacks: seq<nat>, endSeq: nat, b: nat, max: nat)
    requires SystemOk(c, b, max) && Close(nacks) && (nacks == [] || |nacks| < max)
    ensures SystemOk(Send(c, nacks, endSeq), b, max)
  {
    hide Close, Bounds;
  }

  lemma ReadOk(c: System, highest: nat, done: bool, b: nat, max: nat)
    requires SystemOk(c, b, max) && c.phase.Snapshot?
    ensures SystemOk(Read(c, highest, done), b, max)
  {
    hide Bounds, SentOk;
    SendOk(c, [], if done then Max(c.phase.tail, highest) else highest, b, max);
  }

  lemma ScanOk(c: System, expired: bool, b: nat, max: nat)
    requires SystemOk(c, b, max) && c.phase.Scanning? && c.phase.next < c.phase.end
    ensures SystemOk(Scan(c, expired), b, max)
  {
    hide Index, Bounds, SentOk;
    BoundsSize(c.win);
    MarkBounds(c.win, c.phase.next + 1, true);
  }

  lemma BoundsSize(s: State)
    requires Bounds(s)
    ensures |s.slots| > 0 && s.head <= s.tail <= s.head + |s.slots|
  {}

  lemma FinishOk(c: System, b: nat, max: nat)
    requires SystemOk(c, b, max) && c.phase.Scanning? && c.phase.next >= c.phase.end
    requires max <= ACK_WINDOW && b + ACK_WINDOW <= UINT16
    ensures SystemOk(Finish(c, max), b, max)
  {
    hide Bounds, SentOk, Close, Ahead;
    var nacks := c.phase.nacks + Ahead(c.phase.tail, c.phase.endSeq);
    if |nacks| < max {
      StaleClose(c.phase.nacks, c.phase.head, c.phase.tail, c.phase.endSeq, b);
      SendOk(c, nacks, c.phase.endSeq, b, max);
    }
  }

  lemma GiveUpOk(c: System, b: nat, max: nat)
    requires SystemOk(c, b, max) && c.phase.GivingUp?
    ensures Possible(c, GiveUpNext) && SystemOk(GiveUp(c), b, max)
  {
    hide Index, Bounds, SentOk;
    BoundsSize(c.win);
    if c.phase.given < |c.phase.listed| {
      MarkBounds(c.win, c.phase.listed[c.phase.given], false);
    } else {
      SendOk(c, [], c.phase.lastSeq, b, max);
    }
  }

  lemma NextOk(c: System, m: Move, b: nat, max: nat)
    requires SystemOk(c, b, max) && max <= ACK_WINDOW && b + ACK_WINDOW <= UINT16
    ensures SystemOk(Next(c, m, max), b, max)
  {
    hide Bounds, SentOk, Enabled, Apply, Read, Scan, Finish, GiveUp;
    if Possible(c, m) {
      match m
      case Others(step) => StepBounds(c.win, step);
      case TakeSnapshot => BoundsSize(c.win);
      case ReadBatch(highest, done) => ReadOk(c, highest, done, b, max);
      case ScanNext(expired) => ScanOk(c, expired, b, max);
      case EndScan => FinishOk(c, b, max);
      case GiveUpNext => GiveUpOk(c, b, max);
    }
  }

  lemma {:induction false} ExecOk(b: nat, moves: seq<Move>, max: nat)
    requires b > 0 && max <= ACK_WINDOW && b + ACK_WINDOW <= UINT16
    ensures SystemOk(Exec(Init(b), moves, max), b, max)
  {
    hide SystemOk, Next;
    if moves == [] {
      InitOk(b, max);
    } else {
      ExecOk(b, moves[..|moves| - 1], max);
      NextOk(Exec(Init(b), moves[..|moves| - 1], max), moves[|moves| - 1], b, max);
    }
  }

  lemma InitOk(b: nat, max: nat)
    requires b > 0
    ensures SystemOk(Init(b), b, max)
  {}

  // In every interleaving, whatever the window does between the snapshot and the end of the scan, a list that is handed
  // on is shorter than an acknowledgement and comes back from it unchanged.
  lemma EveryListLossless(b: nat, moves: seq<Move>, max: nat, k: nat)
    requires b > 0 && max <= ACK_WINDOW && b + ACK_WINDOW <= UINT16
    requires k < |Exec(Init(b), moves, max).sent|
    ensures var nacks := Exec(Init(b), moves, max).sent[k].0;
      Close(nacks) && (nacks == [] || (|nacks| < max && Decoded(nacks[0], Encoded(nacks)) == nacks))
  {
    hide Exec;
    ExecOk(b, moves, max);
    var nacks := Exec(Init(b), moves, max).sent[k].0;
    if nacks != [] {
      CompressionExact(nacks);
    }
  }

  // ---- the window in these runs ---------------------------------------------------

  // Every move leaves the window alone or is a step of it.
  ghost predicate IsStep(s: State, s': State, m: Move)
  {
    exists step :: Takes(s, step, s') && (m.Others? ==> step == m.step) && (!m.Others? ==> step.MarkStep?)
  }

  lemma MoveIsStep(c: System, m: Move, max: nat)
    ensures Next(c, m, max).win == c.win || IsStep(c.win, Next(c, m, max).win, m)
  {
    hide Apply, Index;
    var c' := Next(c, m, max);
    if Possible(c, m) {
      match m
      case Others(step) =>
        assert Takes(c.win, step, c'.win);
      case ScanNext(_) =>
        MarkApplies(c.win, c.phase.next + 1, true);
        assert c'.win == c.win || Takes(c.win, MarkStep(c.phase.next + 1, true), c'.win);
      case GiveUpNext =>
        if c.phase.given < |c.phase.listed| {
          MarkApplies(c.win, c.phase.listed[c.phase.given], false);
          assert Takes(c.win, MarkStep(c.phase.listed[c.phase.given], false), c'.win);
        }
      case _ =>
    }
  }

  lemma MarkApplies(s: State, n: nat, onlyBlocked: bool)
    requires |s.slots| > 0 && n > 0
    ensures Enabled(s, MarkStep(n, onlyBlocked)) && Apply(s, MarkStep(n, onlyBlocked)) == Mark(s, n, onlyBlocked)
  {
    hide Mark;
  }

  // No move of the run is a jump onto an unread packet.
  ghost predicate Harmless(b: nat, moves: seq<Move>, max: nat)
  {
    forall i :: 0 <= i < |moves| && moves[i].Others? ==>
      !JumpsOntoPacket(Exec(Init(b), moves[..i], max).win, moves[i].step)
  }

  lemma HarmlessPrefix(b: nat, moves: seq<Move>, max: nat, n: nat)
    requires Harmless(b, moves, max) && n <= |moves|
    ensures Harmless(b, moves[..n], max)
  {
    hide Exec, JumpsOntoPacket;
    assert forall i :: 0 <= i < n ==> moves[..n][..i] == moves[..i];
  }

  // So the window passes through the states of a run of its own, and all that is proved of its runs holds of these.
  lemma {:induction false} WindowRuns(b: nat, moves: seq<Move>, max: nat) returns (states: seq<State>, steps: seq<Step>)
    requires b > 0 && Harmless(b, moves, max)
    ensures Trace(states, steps, b) && states[|steps|] == Exec(Init(b), moves, max).win
  {
    hide Takes, Next, JumpsOntoPacket, IsStep, Harmless;
    if moves == [] {
      states, steps := [Window.Init(b)], [];
    } else {
      var n := |moves| - 1;
      var c := Exec(Init(b), moves[..n], max);
      var c' := Next(c, moves[n], max);
      HarmlessPrefix(b, moves, max, n);
      states, steps := WindowRuns(b, moves[..n], max);
      MoveIsStep(c, moves[n], max);
      if c'.win != c.win {
        var step := TheStep(c.win, c'.win, moves[n]);
        HarmlessStep(b, moves, max, n, step);
        states, steps := states + [c'.win], steps + [step];
      }
    }
  }

  lemma TheStep(s: State, s': State, m: Move) returns (step: Step)
    requires IsStep(s, s', m)
    ensures Takes(s, step, s') && (m.Others? ==> step == m.step) && (!m.Others? ==> step.MarkStep?)
  {
    hide Takes;
    step :| Takes(s, step, s') && (m.Others? ==> step == m.step) && (!m.Others? ==> step.MarkStep?);
  }

  lemma HarmlessStep(b: nat, moves: seq<Move>, max: nat, n: nat, step: Step)
    requires Harmless(b, moves, max) && n < |moves|
    requires (moves[n].Others? ==> step == moves[n].step) && (!moves[n].Others? ==> step.MarkStep?)
    ensures !JumpsOntoPacket(Exec(Init(b), moves[..n], max).win, step)
  {
    hide Exec;
  }

  // ---- what the list says, in every interleaving --------------------------------

  // The list of a scan that began in state c, with its moves and those of the other threads in any order.
  ghost predicate Begun(c: System, moves: seq<Move>)
  {
    && |c.win.slots| > 0 && c.phase.Scanning? && c.phase.next == c.phase.head && c.phase.nacks == []
    && forall j :: 0 <= j < |moves| ==> moves[j] != EndScan
  }

  predicate Lists(s: State, n: nat, expired: bool)
  {
    n > 0 && |s.slots| > 0 &&
    var status := s.slots[Index(n, |s.slots|)].status;
    status == Empty || (status == Block && !expired)
  }

  ghost predicate ScannedBy(c: System, moves: seq<Move>, max: nat, j: nat, n: nat, listed: bool)
    requires j < |moves|
  {
    Scans(Exec(c, moves[..j], max), moves[j], n, listed)
  }

  predicate Scans(c: System, m: Move, n: nat, listed: bool)
  {
    m.ScanNext? && Possible(c, m) && c.phase.next + 1 == n && Lists(c.win, n, m.expired) == listed
  }

  // In a move that scanned n its slot was a hole whose wait was not overdue, or it was not.
  ghost predicate Seen(c: System, moves: seq<Move>, max: nat, n: nat, listed: bool)
  {
    exists j :: 0 <= j < |moves| && ScannedBy(c, moves, max, j, n, listed)
  }

  lemma SeenNext(c: System, moves: seq<Move>, m: Move, max: nat, n: nat, listed: bool)
    ensures Seen(c, moves + [m], max, n, listed) <==>
      Seen(c, moves, max, n, listed) || Scans(Exec(c, moves, max), m, n, listed)
  {
    hide Exec, Scans;
    var later := moves + [m];
    assert later[..|moves|] == moves;
    assert forall j :: 0 <= j < |moves| ==> later[..j] == moves[..j];
    assert forall j :: 0 <= j < |moves| ==>
      (ScannedBy(c, later, max, j, n, listed) <==> ScannedBy(c, moves, max, j, n, listed));
    assert ScannedBy(c, later, max, |moves|, n, listed) <==> Scans(Exec(c, moves, max), m, n, listed);
  }

  // The list holds the numbers scanned so far that were seen as holes; the other numbers scanned were seen as none.
  ghost predicate ListExact(c: System, moves: seq<Move>, max: nat)
  {
    var c' := Exec(c, moves, max);
    && |c'.win.slots| > 0 && c.phase.Scanning? && c'.phase.Scanning?
    && c'.phase.head == c.phase.head <= c'.phase.next
    && (forall n: nat :: n in c'.phase.nacks <==> Seen(c, moves, max, n, true))
    && (forall n: nat :: c'.phase.head < n <= c'.phase.next && n !in c'.phase.nacks <==> Seen(c, moves, max, n, false))
    && forall n: nat :: n in c'.phase.nacks ==> c'.phase.head < n <= c'.phase.next
  }

  lemma StepSlots(s: State, step: Step)
    requires |s.slots| > 0 && Enabled(s, step)
    ensures |Apply(s, step).slots| == |s.slots|
  {
    hide Index;
  }

  lemma OtherListExact(c: System, moves: seq<Move>, m: Move, max: nat)
    requires ListExact(c, moves, max) && !m.ScanNext? && m != EndScan
    ensures ListExact(c, moves + [m], max)
  {
    hide Exec, Enabled, Apply, Seen, Index, Read, GiveUp;
    var c' := Exec(c, moves, max);
    ExecNext(c, moves, m, max);
    if m.Others? && Possible(c', m) {
      StepSlots(c'.win, m.step);
    }
    forall n: nat, listed: bool
      ensures Seen(c, moves + [m], max, n, listed) <==> Seen(c, moves, max, n, listed)
    {
      SeenNext(c, moves, m, max, n, listed);
    }
  }

  // What one move of the scan adds.
  lemma ScanAdds(c: System, expired: bool, max: nat)
    requires |c.win.slots| > 0 && c.phase.Scanning?
    ensures var c', n, m := Next(c, ScanNext(expired), max), c.phase.next + 1, ScanNext(expired);
      && c'.phase.Scanning? && |c'.win.slots| == |c.win.slots| && c'.phase.head == c.phase.head
      && (c' == c || (c'.phase.next == n && Scans(c, m, n, Lists(c.win, n, expired))))
      && (forall k, listed :: Scans(c, m, k, listed) ==> c'.phase.next == n == k && listed == Lists(c.win, n, expired))
      && c'.phase.nacks == c.phase.nacks + if Scans(c, m, n, true) then [n] else []
  {
    hide Index;
  }

  lemma ScanListExact(c: System, moves: seq<Move>, expired: bool, max: nat)
    requires ListExact(c, moves, max)
    ensures ListExact(c, moves + [ScanNext(expired)], max)
  {
    hide Exec, Seen, Scans, Next, Lists;
    var c', m := Exec(c, moves, max), ScanNext(expired);
    ExecNext(c, moves, m, max);
    ScanAdds(c', expired, max);
    forall n: nat, listed: bool
      ensures Seen(c, moves + [m], max, n, listed) <==> Seen(c, moves, max, n, listed) || Scans(c', m, n, listed)
    {
      SeenNext(c, moves, m, max, n, listed);
    }
  }

  lemma ExecNext(c: System, moves: seq<Move>, m: Move, max: nat)
    ensures Exec(c, moves + [m], max) == Next(Exec(c, moves, max), m, max)
  {
    hide Next;
    assert (moves + [m])[..|moves|] == moves;
  }

  // Whatever the other threads do in the meantime, a number is listed exactly when its slot was a hole, and not
  // overdue, in the move that scanned it, and passed over exactly when it was not.
  lemma {:induction false} ScanExact(c: System, moves: seq<Move>, max: nat)
    requires Begun(c, moves)
    ensures ListExact(c, moves, max)
  {
    hide ListExact;
    if moves == [] {
      BegunListExact(c, max);
    } else {
      var n := |moves| - 1;
      assert moves == moves[..n] + [moves[n]];
      ScanExact(c, moves[..n], max);
      if moves[n].ScanNext? {
        ScanListExact(c, moves[..n], moves[n].expired, max);
      } else {
        OtherListExact(c, moves[..n], moves[n], max);
      }
    }
  }

  lemma BegunListExact(c: System, max: nat)
    requires Begun(c, [])
    ensures ListExact(c, [], max)
  {}

  // No number is scanned twice.
  lemma ScannedOnce(c: System, moves: seq<Move>, max: nat, j: nat, k: nat, n: nat, p: bool, q: bool)
    requires Begun(c, moves) && j <= k < |moves|
    requires ScannedBy(c, moves, max, j, n, p) && ScannedBy(c, moves, max, k, n, q)
    ensures j == k
  {
    hide Exec, ListExact, Lists;
    if j < k {
      var before := moves[..k];
      assert forall i :: 0 <= i < k ==> before[..i] == moves[..i];
      ScanExact(c, before, max);
      assert ScannedBy(c, before, max, j, n, p);
      SeenBehind(c, before, max, n, p);
    }
  }

  lemma SeenBehind(c: System, moves: seq<Move>, max: nat, n: nat, listed: bool)
    requires ListExact(c, moves, max) && Seen(c, moves, max, n, listed)
    ensures n <= Exec(c, moves, max).phase.next
  {
    hide Exec, Seen;
  }

  // ---- what is lost, in every interleaving ---------------------------------------

  // The mark of a listed number hits a packet that has come and not been read exactly when they share a slot: the
  // packet of that very number, or one whose number is at least a whole window away.
  lemma AckLosesExact(c: System, m: Move, max: nat, j: nat)
    requires Inv(c.win) && !m.Others? && Possible(c, m)
    requires j < |c.win.slots| && c.win.slots[j].status == OccupiedNew && !Stale(c.win, j)
    ensures var p := c.phase;
      Next(c, m, max).win.slots[j] != c.win.slots[j] <==>
        p.GivingUp? && p.given < |p.listed| && Index(p.listed[p.given], |c.win.slots|) == j
    ensures var p, own, b := c.phase, c.win.slots[j].seqNum, |c.win.slots|;
      p.GivingUp? && p.given < |p.listed| && Index(p.listed[p.given], b) == j ==>
        var n := p.listed[p.given]; n == own || n >= own + b || n + b <= own
  {
    hide Index;
    var p := c.phase;
    assert SlotOk(c.win, j);
    if p.GivingUp? && p.given < |p.listed| && Index(p.listed[p.given], |c.win.slots|) == j {
      Congruent(p.listed[p.given], c.win.slots[j].seqNum, |c.win.slots|);
    }
  }

  lemma Congruent(n: nat, m: nat, b: nat)
    requires n > 0 && m > 0 && b > 0 && Index(n, b) == Index(m, b)
    ensures n == m || n >= m + b || n + b <= m
  {
    hide Index;
    if m < n < m + b {
      SameIndex(n, m, m - 1, b);
    }
    if n < m < n + b {
      SameIndex(m, n, n - 1, b);
    }
  }

  // ---- when a packet came that is destroyed under its own number -------------------

  // No unread packet has a number past the tail, but for the one that is being stored.
  ghost predicate Behind(s: State)
  {
    forall j :: 0 <= j < |s.slots| && s.slots[j].status == OccupiedNew ==>
      s.slots[j].seqNum <= s.tail || (s.holder.Clearing? && s.slots[j].seqNum == s.holder.seqNum)
  }

  lemma StepBehind(s: State, step: Step)
    requires Bounds(s) && Behind(s) && Enabled(s, step)
    ensures Behind(Apply(s, step))
  {
    hide Index;
  }

  lemma {:induction false} ExecBehind(b: nat, moves: seq<Move>, max: nat)
    requires b > 0
    ensures var s := Exec(Init(b), moves, max).win; Bounds(s) && Behind(s) && |s.slots| == b
  {
    hide Next, Bounds, Behind, Apply, Enabled;
    if moves == [] {
      StartBehind(b);
    } else {
      var n := |moves| - 1;
      ExecBehind(b, moves[..n], max);
      var c := Exec(Init(b), moves[..n], max);
      var c' := Next(c, moves[n], max);
      MoveIsStep(c, moves[n], max);
      if c'.win != c.win {
        var step := TheStep(c.win, c'.win, moves[n]);
        StepBounds(c.win, step);
        StepBehind(c.win, step);
      }
    }
  }

  lemma StartBehind(b: nat)
    requires b > 0
    ensures var s := Window.Init(b); Bounds(s) && Behind(s) && |s.slots| == b
  {}

  // The packet with number n is there and has not been read.
  predicate Unread(s: State, n: nat)
  {
    n > 0 && |s.slots| > 0 && var slot := s.slots[Index(n, |s.slots|)]; slot.status == OccupiedNew && slot.seqNum == n
  }

  predicate Stores(c: System, m: Move, n: nat)
  {
    m == Others(StoreStep) && Possible(c, m) && c.win.holder.seqNum == n
  }

  // Only storing it brings a packet.
  lemma StepUnread(s: State, step: Step, n: nat)
    requires |s.slots| > 0 && Enabled(s, step) && !Unread(s, n) && Unread(Apply(s, step), n)
    ensures step == StoreStep && s.holder.seqNum == n
  {
    hide Index;
    StepSlots(s, step);
  }

  lemma MoveUnread(c: System, m: Move, max: nat, n: nat)
    requires !Unread(c.win, n) && Unread(Next(c, m, max).win, n)
    ensures Stores(c, m, n)
  {
    hide Index, Apply, Enabled, Unread;
    MoveIsStep(c, m, max);
    var step := TheStep(c.win, Next(c, m, max).win, m);
    assert Takes(c.win, step, Next(c, m, max).win);
    StepUnread(c.win, step, n);
  }

  ghost predicate StoredAt(c: System, moves: seq<Move>, max: nat, j: nat, n: nat)
    requires j < |moves|
  {
    Stores(Exec(c, moves[..j], max), moves[j], n)
  }

  lemma {:induction false} StoredBetween(c: System, moves: seq<Move>, max: nat, n: nat) returns (j: nat)
    requires !Unread(c.win, n) && Unread(Exec(c, moves, max).win, n)
    ensures j < |moves| && StoredAt(c, moves, max, j, n)
  {
    hide Unread, Next, Stores;
    var k := |moves| - 1;
    if Unread(Exec(c, moves[..k], max).win, n) {
      j := StoredBetween(c, moves[..k], max, n);
      assert moves[..k][..j] == moves[..j];
    } else {
      j := k;
      MoveUnread(Exec(c, moves[..k], max), moves[k], max, n);
    }
  }

  // Within one round, everything listed was seen as a hole or lies past the tail of the snapshot.
  ghost predicate RoundSeen(c: System, moves: seq<Move>, max: nat)
    requires c.phase.Snapshot?
  {
    var c' := Exec(c, moves, max);
    && |c'.win.slots| > 0
    && match c'.phase
       case Snapshot(_, tail) => tail == c.phase.tail
       case Scanning(_, tail, _, _, _, nacks) =>
         tail == c.phase.tail && forall n: nat :: n in nacks ==> Seen(c, moves, max, n, true)
       case GivingUp(listed, _, _) => forall n: nat :: n in listed ==> n > c.phase.tail || Seen(c, moves, max, n, true)
       case _ => true
  }

  lemma RoundSeenNext(c: System, moves: seq<Move>, m: Move, max: nat)
    requires c.phase.Snapshot? && RoundSeen(c, moves, max) && m != TakeSnapshot
    ensures RoundSeen(c, moves + [m], max)
  {
    hide Exec, Seen, Enabled, Apply, Index, Scans, Ahead, Lists;
    var c' := Exec(c, moves, max);
    ExecNext(c, moves, m, max);
    forall n: nat
      ensures Seen(c, moves + [m], max, n, true) <==> Seen(c, moves, max, n, true) || Scans(c', m, n, true)
    {
      SeenNext(c, moves, m, max, n, true);
    }
    if m.Others? && Possible(c', m) {
      StepSlots(c'.win, m.step);
    }
    if m.ScanNext? && Possible(c', m) {
      ScanAdds(c', m.expired, max);
    }
    if m.EndScan? && Possible(c', m) {
      AheadExact(c'.phase.tail, c'.phase.endSeq);
    }
  }

  lemma {:induction false} RoundSeenAll(c: System, moves: seq<Move>, max: nat)
    requires |c.win.slots| > 0 && c.phase.Snapshot? && forall i :: 0 <= i < |moves| ==> moves[i] != TakeSnapshot
    ensures RoundSeen(c, moves, max)
  {
    if moves != [] {
      hide RoundSeen;
      var n := |moves| - 1;
      assert moves == moves[..n] + [moves[n]];
      RoundSeenAll(c, moves[..n], max);
      RoundSeenNext(c, moves[..n], moves[n], max);
    }
  }

  // In every run, a packet that is unread when a round gives up its very number was stored in that round: after the
  // snapshot if the number lay past the tail then, and otherwise after the move that scanned its slot as a hole.
  lemma OwnNumberCameLate(b: nat, before: seq<Move>, round: seq<Move>, max: nat, n: nat)
    requires b > 0 && Possible(Exec(Init(b), before, max), TakeSnapshot)
    requires forall i :: 0 <= i < |round| ==> round[i] != TakeSnapshot
    requires var c' := Exec(Next(Exec(Init(b), before, max), TakeSnapshot, max), round, max);
      c'.phase.GivingUp? && n in c'.phase.listed && Unread(c'.win, n)
    ensures var c := Next(Exec(Init(b), before, max), TakeSnapshot, max);
      exists j :: 0 <= j < |round| && StoredAt(c, round, max, j, n)
        && (n > c.phase.tail || exists k :: 0 <= k < j && ScannedBy(c, round, max, k, n, true))
  {
    hide Exec, Unread, Seen, Stores, Bounds;
    var c := Next(Exec(Init(b), before, max), TakeSnapshot, max);
    RoundSeenAll(c, round, max);
    if n > c.phase.tail {
      ExecBehind(b, before, max);
      NotPastTail(c.win, n);
      var j := StoredBetween(c, round, max, n);
    } else {
      var k, j := StoredAfterScan(c, round, max, n);
    }
  }

  lemma NotPastTail(s: State, n: nat)
    requires Behind(s) && s.holder.Free? && n > s.tail
    ensures !Unread(s, n)
  {}

  lemma StoredAfterScan(c: System, round: seq<Move>, max: nat, n: nat) returns (k: nat, j: nat)
    requires Seen(c, round, max, n, true) && Unread(Exec(c, round, max).win, n)
    ensures k < j < |round| && ScannedBy(c, round, max, k, n, true) && StoredAt(c, round, max, j, n)
  {
    hide Exec;
    k :| 0 <= k < |round| && ScannedBy(c, round, max, k, n, true);
    var c1 := Exec(c, round[..k], max);
    assert round == round[..k] + round[k..];
    ExecConcat(c, round[..k], round[k..], max);
    var i := StoredBetween(c1, round[k..], max, n);
    assert round[..k + i] == round[..k] + round[k..][..i];
    ExecConcat(c, round[..k], round[k..][..i], max);
    j := k + i;
  }

  // ---- a round that is not interrupted ----------------------------------------------

  // Then the thread does what the method that searches the list does in one step.
  lemma {:induction false} ScanAtOnce(c: System, expired: set<nat>, index: nat, max: nat) returns (moves: seq<Move>)
    requires |c.win.slots| > 0 && c.phase.Scanning?
      && c.phase.next == c.phase.head <= index <= Max(c.phase.head, c.phase.end)
    requires c.phase.nacks == [] && index <= c.phase.head + |c.win.slots|
    ensures forall i :: 0 <= i < |moves| ==> !moves[i].Others?
    ensures Exec(c, moves, max) == c.(
      win := DropOverdue(c.win, c.phase.head, index, expired),
      phase := c.phase.(next := index, nacks := Holes(c.win.slots, c.phase.head, index, expired)))
    decreases index
  {
    hide Index, Holes, DropOverdue;
    if index == c.phase.head {
      moves := [];
      ScanNone(c, expired);
    } else {
      moves := ScanAtOnce(c, expired, index - 1, max);
      var m := ScanNext(index - 1 in expired);
      ExecNext(c, moves, m, max);
      ScannedAsBefore(c.win, c.phase.head, index - 1, expired);
      ScanOne(c, Exec(c, moves, max), expired, index);
      moves := moves + [m];
    }
  }

  lemma ScanNone(c: System, expired: set<nat>)
    requires |c.win.slots| > 0 && c.phase.Scanning?
    ensures Holes(c.win.slots, c.phase.head, c.phase.head, expired) == []
    ensures DropOverdue(c.win, c.phase.head, c.phase.head, expired) == c.win
  {}

  lemma ScanOne(c: System, c1: System, expired: set<nat>, index: nat)
    requires |c.win.slots| > 0 && c.phase.Scanning? && c1.phase.Scanning? && c.phase.head < index
    requires c1.win == DropOverdue(c.win, c.phase.head, index - 1, expired)
    requires c1.phase.next == index - 1 && c1.phase.nacks == Holes(c.win.slots, c.phase.head, index - 1, expired)
    requires Hole(c1.win.slots, index, expired) == Hole(c.win.slots, index, expired)
    requires Overdue(c1.win.slots, index, expired) == Overdue(c.win.slots, index, expired)
    ensures var c2 := Scan(c1, index - 1 in expired);
      && c2 == c1.(win := c2.win, phase := c1.phase.(next := index, nacks := c2.phase.nacks))
      && c2.win == DropOverdue(c.win, c.phase.head, index, expired)
      && c2.phase.nacks == Holes(c.win.slots, c.phase.head, index, expired)
  {
    hide Index, Mark;
  }

  lemma {:induction false} ExecConcat(c: System, m1: seq<Move>, m2: seq<Move>, max: nat)
    ensures Exec(c, m1 + m2, max) == Exec(Exec(c, m1, max), m2, max)
  {
    hide Next;
    if m2 == [] {
      assert m1 + m2 == m1;
    } else {
      var n := |m2| - 1;
      assert m1 + m2 == (m1 + m2[..n]) + [m2[n]] && m2 == m2[..n] + [m2[n]];
      ExecConcat(c, m1, m2[..n], max);
      ExecNext(c, m1 + m2[..n], m2[n], max);
    }
  }

  lemma {:induction false} GiveUpAtOnce(c: System, i: nat, max: nat) returns (moves: seq<Move>)
    requires |c.win.slots| > 0 && c.phase.GivingUp? && c.phase.given == 0 && i <= |c.phase.listed|
    requires forall j :: 0 <= j < |c.phase.listed| ==> c.phase.listed[j] > 0
    ensures forall j :: 0 <= j < |moves| ==> !moves[j].Others?
    ensures Exec(c, moves, max) == c.(win := MarkAll(c.win, c.phase.listed[..i]), phase := c.phase.(given := i))
  {
    hide Mark;
    if i == 0 {
      moves := [];
    } else {
      moves := GiveUpAtOnce(c, i - 1, max);
      ExecNext(c, moves, GiveUpNext, max);
      assert c.phase.listed[..i][..i - 1] == c.phase.listed[..i - 1];
      moves := moves + [GiveUpNext];
    }
  }

  lemma EndAtOnce(c: System, max: nat) returns (moves: seq<Move>)
    requires |c.win.slots| > 0 && c.phase.Scanning? && c.phase.next >= c.phase.end
    requires forall j :: 0 <= j < |c.phase.nacks| ==> c.phase.nacks[j] > 0
    ensures forall j :: 0 <= j < |moves| ==> !moves[j].Others?
    ensures var nacks := c.phase.nacks + Ahead(c.phase.tail, c.phase.endSeq);
      Exec(c, moves, max) ==
        if |nacks| < max then Send(c, nacks, c.phase.endSeq)
        else Send(c.(win := MarkAll(c.win, nacks)), [], c.phase.endSeq)
  {
    hide MarkAll, Ahead;
    var nacks := c.phase.nacks + Ahead(c.phase.tail, c.phase.endSeq);
    moves := [EndScan];
    assert moves == [] + [EndScan];
    ExecNext(c, [], EndScan, max);
    var c1 := Exec(c, moves, max);
    if |nacks| >= max {
      var more := GiveUpAtOnce(c1, |nacks|, max);
      assert nacks[..|nacks|] == nacks;
      ExecConcat(c, moves, more, max);
      ExecNext(c, moves + more, GiveUpNext, max);
      moves := moves + more + [GiveUpNext];
    }
  }

  // The system in which the search of the list has been made in one step.
  function Searched(c: System, highest: nat, done: bool, expired: set<nat>, max: nat): System
    requires |c.win.slots| > 0
  {
    var endSeq := if done then Max(c.win.tail, highest) else highest;
    var nacks := Missing(c.win, endSeq, expired);
    var s' := DropOverdue(c.win, c.win.head, Min(endSeq, c.win.tail), expired);
    if c.win.tail == 0 && (done || highest > 0) then c.(phase := Failed)
    else if |nacks| < max then Send(c.(win := s'), nacks, endSeq)
    else Send(c.(win := MarkAll(s', nacks)), [], endSeq)
  }

  lemma ReadAtOnce(c: System, highest: nat, done: bool, expired: set<nat>, max: nat)
    requires |c.win.slots| > 0 && c.phase == Snapshot(c.win.head, c.win.tail) && c.win.head <= c.win.tail
    ensures var c', endSeq := Read(c, highest, done), if done then Max(c.win.tail, highest) else highest;
      if c'.phase.Scanning? then
        && c.win.tail > 0
        && c' == c.(phase := Scanning(c.win.head, c.win.tail, Min(endSeq, c.win.tail), endSeq, c.win.head, []))
        && c.win.head <= Min(endSeq, c.win.tail)
      else c' == Searched(c, highest, done, expired, max)
  {
    hide Holes, DropOverdue, MarkAll, Ahead, Missing;
    var endSeq := if done then Max(c.win.tail, highest) else highest;
    if endSeq <= c.win.tail && endSeq <= c.win.head {
      NothingListed(c.win, endSeq, expired);
    }
  }

  lemma StartAtOnce(c: System, highest: nat, done: bool, max: nat)
    requires |c.win.slots| > 0 && c.phase.Idle? && c.win.holder.Free?
    ensures Exec(c, [TakeSnapshot, ReadBatch(highest, done)], max) ==
      Read(c.(phase := Snapshot(c.win.head, c.win.tail)), highest, done)
  {
    hide Read;
    assert [] + [TakeSnapshot] == [TakeSnapshot];
    assert [TakeSnapshot] + [ReadBatch(highest, done)] == [TakeSnapshot, ReadBatch(highest, done)];
    ExecNext(c, [], TakeSnapshot, max);
    ExecNext(c, [TakeSnapshot], ReadBatch(highest, done), max);
  }

  lemma SearchAtOnce(c: System, endSeq: nat, expired: set<nat>, max: nat) returns (moves: seq<Move>)
    requires |c.win.slots| > 0 && c.phase.Scanning? && c.phase.endSeq == endSeq && c.phase.nacks == []
    requires c.phase.head == c.phase.next == c.win.head && c.phase.tail == c.win.tail
    requires c.phase.end == Min(endSeq, c.win.tail) && c.win.head <= c.phase.end
    requires c.win.tail <= c.win.head + |c.win.slots|
    ensures forall j :: 0 <= j < |moves| ==> !moves[j].Others?
    ensures var nacks, s' := Missing(c.win, endSeq, expired), DropOverdue(c.win, c.win.head, c.phase.end, expired);
      Exec(c, moves, max) ==
        if |nacks| < max then Send(c.(win := s'), nacks, endSeq) else Send(c.(win := MarkAll(s', nacks)), [], endSeq)
  {
    hide Holes, DropOverdue, MarkAll, Ahead, Exec;
    var scans := ScanAtOnce(c, expired, c.phase.end, max);
    var c1 := Exec(c, scans, max);
    var ends := EndAtOnce(c1, max);
    ExecConcat(c, scans, ends, max);
    moves := scans + ends;
  }

  // Without interruption the round is the search made in one step.
  lemma RoundAtOnce(c: System, highest: nat, done: bool, expired: set<nat>, max: nat) returns (moves: seq<Move>)
    requires |c.win.slots| > 0 && c.phase.Idle? && c.win.holder.Free?
    requires c.win.head <= c.win.tail <= c.win.head + |c.win.slots|
    ensures forall j :: 0 <= j < |moves| ==> !moves[j].Others?
    ensures Exec(c, moves, max) == Searched(c, highest, done, expired, max)
  {
    hide Read, Missing, DropOverdue, MarkAll, Exec;
    moves := [TakeSnapshot, ReadBatch(highest, done)];
    StartAtOnce(c, highest, done, max);
    ReadAtOnce(c.(phase := Snapshot(c.win.head, c.win.tail)), highest, done, expired, max);
    var c2 := Read(c.(phase := Snapshot(c.win.head, c.win.tail)), highest, done);
    if c2.phase.Scanning? {
      var rest := SearchAtOnce(c2, c2.phase.endSeq, expired, max);
      ExecConcat(c, moves, rest, max);
      moves := moves + rest;
    }
  }
}
