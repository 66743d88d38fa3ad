// Runs in which giving up a list destroys a packet that has come and not been read: one for each way in which this can
// happen. The maximum is one number here, so every list that is not empty is given up.
module AckCases {
  import opened Wrappers
  import opened Gf
  import opened Window
  import opened Nacks
  import opened AckRuns

  // One move more.
  lemma Do(b: nat, moves: seq<Move>, c: System, m: Move, c': System) returns (moves': seq<Move>)
    requires Exec(AckRuns.Init(b), moves, 1) == c && AckRuns.Next(c, m, 1) == c'
    ensures moves' == moves + [m] && Exec(AckRuns.Init(b), moves', 1) == c'
  {
    hide AckRuns.Next;
    ExecNext(AckRuns.Init(b), moves, m, 1);
    moves' := moves + [m];
  }

  function Full(n: nat, byte: gf): Slot
  {
    Slot(OccupiedNew, n, [byte])
  }

  // A window whose queue lock is free, with nobody waiting.
  function At(slots: seq<Slot>, head: nat, tail: nat, stored: set<(nat, seq<gf>)>, taken: seq<(nat, seq<gf>)>): State
  {
    State(slots, head, tail, Free, None, stored, taken)
  }

  // The next packet comes, and the window grows by it.
  lemma Grows(b: nat, moves: seq<Move>, c: System, byte: gf) returns (moves': seq<Move>)
    requires Exec(AckRuns.Init(b), moves, 1) == c && c.win.holder.Free?
    requires |c.win.slots| > 0 && c.win.head <= c.win.tail < c.win.head + |c.win.slots|
    requires c.win.slots[Index(c.win.tail + 1, |c.win.slots|)].status != OccupiedNew
    ensures var n := c.win.tail + 1;
      Exec(AckRuns.Init(b), moves', 1) == c.(win := c.win.(
        slots := c.win.slots[Index(n, |c.win.slots|) := Full(n, byte)],
        stored := c.win.stored + {(n, [byte])}, tail := n))
  {
    hide Exec;
    var n := c.win.tail + 1;
    var c1 := c.(win := c.win.(holder := Arrived(n, [byte])));
    var c2 := c.(win := Store(c1.win, n, [byte]));
    var c3 := c2.(win := c2.win.(holder := Clearing(n, n)));
    var c4 := c2.(win := c2.win.(holder := Free, tail := n));
    moves' := Do(b, moves, c, Others(Enter(n, [byte])), c1);
    moves' := Do(b, moves', c1, Others(StoreStep), c2);
    moves' := Do(b, moves', c2, Others(CleanStep), c3);
    moves' := Do(b, moves', c3, Others(CleanStep), c4);
  }

  // The unread packet of slot j is destroyed by the next move of the acknowledging thread, which gives up number n.
  ghost predicate Destroys(b: nat, moves: seq<Move>, n: nat, own: nat)
  {
    var c := Exec(AckRuns.Init(b), moves, 1);
    && c.phase.GivingUp? && c.phase.given < |c.phase.listed| && c.phase.listed[c.phase.given] == n > 0 && own > 0
    && |c.win.slots| == b > 0 && c.win.head < own <= c.win.tail
    && c.win.slots[Index(own, b)].status == OccupiedNew && c.win.slots[Index(own, b)].seqNum == own
    && AckRuns.Next(c, GiveUpNext, 1).win.slots[Index(own, b)].status == Drop
  }

  // The window holds packet 1 and the batch ends with number 2 or 3, so the numbers from 2 on are listed.
  lemma FirstRound(endSeq: nat) returns (moves: seq<Move>)
    requires endSeq == 2 || endSeq == 3
    ensures Exec(AckRuns.Init(2), moves, 1) == System(
      At([Full(1, 7), CLEAR], 0, 1, {(1, [7])}, []), GivingUp(if endSeq == 2 then [2] else [2, 3], 0, endSeq), [])
  {
    hide Exec, Index;
    var c0 := System(At([CLEAR, CLEAR], 0, 0, {}, []), Idle, []);
    assert AckRuns.Init(2) == c0 by { assert seq(2, i => CLEAR) == [CLEAR, CLEAR]; }
    StartHere(2);
    SmallIndices();
    moves := Grows(2, [], c0, 7);
    var c1 := System(At([Full(1, 7), CLEAR], 0, 1, {(1, [7])}, []), Idle, []);
    assert c1.win.slots == c0.win.slots[0 := Full(1, 7)];
    moves := FirstScan(moves, c1, endSeq);
  }

  lemma FirstScan(before: seq<Move>, c: System, endSeq: nat) returns (moves: seq<Move>)
    requires endSeq == 2 || endSeq == 3
    requires c == System(At([Full(1, 7), CLEAR], 0, 1, {(1, [7])}, []), Idle, [])
    requires Exec(AckRuns.Init(2), before, 1) == c
    ensures Exec(AckRuns.Init(2), moves, 1) == c.(phase := GivingUp(if endSeq == 2 then [2] else [2, 3], 0, endSeq))
  {
    hide Exec, Index;
    SmallIndices();
    var c1 := c.(phase := Snapshot(0, 1));
    var c2 := c.(phase := Scanning(0, 1, 1, endSeq, 0, []));
    var c3 := c.(phase := Scanning(0, 1, 1, endSeq, 1, []));
    AheadTwo();
    assert [] + Ahead(1, endSeq) == if endSeq == 2 then [2] else [2, 3];
    var c4 := c.(phase := GivingUp(if endSeq == 2 then [2] else [2, 3], 0, endSeq));
    moves := Do(2, before, c, TakeSnapshot, c1);
    moves := Do(2, moves, c1, ReadBatch(endSeq, true), c2);
    moves := Do(2, moves, c2, ScanNext(false), c3);
    moves := Do(2, moves, c3, EndScan, c4);
  }

  lemma AheadTwo()
    ensures Ahead(1, 2) == [2] && Ahead(1, 3) == [2, 3]
  {
    assert Ahead(1, 1) == [];
  }

  lemma SmallIndices()
    ensures Index(1, 2) == 0 && Index(2, 2) == 1 && Index(3, 2) == 0
    ensures Index(1, 1) == 0 && Index(2, 1) == 0 && Index(3, 1) == 0
  {}

  lemma StartHere(b: nat)
    ensures Exec(AckRuns.Init(b), [], 1) == AckRuns.Init(b)
  {}

  // Packet 2 comes after it has been listed, and is destroyed under its own number.
  lemma LateArrivalLost() returns (moves: seq<Move>)
    ensures Destroys(2, moves, 2, 2)
  {
    hide Exec, Index;
    SmallIndices();
    moves := FirstRound(2);
    var c := System(At([Full(1, 7), CLEAR], 0, 1, {(1, [7])}, []), GivingUp([2], 0, 2), []);
    moves := Grows(2, moves, c, 8);
  }

  // Packet 2 comes during the scan, before it is listed, and is destroyed all the same: it came after the snapshot.
  lemma EarlyArrivalLost() returns (moves: seq<Move>)
    ensures Destroys(2, moves, 2, 2)
  {
    hide Exec, Index;
    SmallIndices();
    StartHere(2);
    AheadTwo();
    var c0 := System(At([CLEAR, CLEAR], 0, 0, {}, []), Idle, []);
    assert AckRuns.Init(2) == c0 by { assert seq(2, i => CLEAR) == [CLEAR, CLEAR]; }
    moves := Grows(2, [], c0, 7);
    var c1 := System(At([Full(1, 7), CLEAR], 0, 1, {(1, [7])}, []), Idle, []);
    moves := Do(2, moves, c1, TakeSnapshot, c1.(phase := Snapshot(0, 1)));
    var c2 := c1.(phase := Scanning(0, 1, 1, 2, 0, []));
    moves := Do(2, moves, c1.(phase := Snapshot(0, 1)), ReadBatch(2, true), c2);
    moves := Grows(2, moves, c2, 8);
    moves := EarlyArrivalListed(moves);
  }

  lemma EarlyArrivalListed(before: seq<Move>) returns (moves: seq<Move>)
    requires Exec(AckRuns.Init(2), before, 1) == System(
      At([Full(1, 7), Full(2, 8)], 0, 2, {(1, [7]), (2, [8])}, []), Scanning(0, 1, 1, 2, 0, []), [])
    ensures Exec(AckRuns.Init(2), moves, 1) == System(
      At([Full(1, 7), Full(2, 8)], 0, 2, {(1, [7]), (2, [8])}, []), GivingUp([2], 0, 2), [])
  {
    hide Exec, Index;
    SmallIndices();
    AheadTwo();
    var c := System(
      At([Full(1, 7), Full(2, 8)], 0, 2, {(1, [7]), (2, [8])}, []), Scanning(0, 1, 1, 2, 0, []), []);
    var c1 := c.(phase := Scanning(0, 1, 1, 2, 1, []));
    moves := Do(2, before, c, ScanNext(false), c1);
    moves := Do(2, moves, c1, EndScan, c.(phase := GivingUp([2], 0, 2)));
  }

  // Number 3 lies beyond the window and is given up in the slot of packet 1.
  lemma FarNumberDestroys() returns (moves: seq<Move>)
    ensures Destroys(2, moves, 3, 1)
  {
    hide Exec, Index;
    SmallIndices();
    moves := FirstRound(3);
    var c := System(At([Full(1, 7), CLEAR], 0, 1, {(1, [7])}, []), GivingUp([2, 3], 0, 3), []);
    var c1 := c.(win := c.win.(slots := [Full(1, 7), Slot(Drop, 2, [])]), phase := GivingUp([2, 3], 1, 3));
    moves := Do(2, moves, c, GiveUpNext, c1);
  }

  // With one slot: number 2 is listed, packet 2 comes and is read, packet 3 takes its slot, and is destroyed as number
  // 2.
  lemma OldNumberDestroys() returns (moves: seq<Move>)
    ensures Destroys(1, moves, 2, 3)
  {
    hide Exec, Index;
    SmallIndices();
    moves := OldNumberListed();
    var c := System(At([Full(1, 7).(status := Read)], 1, 1, {(1, [7])}, [(1, [7])]), GivingUp([2], 0, 2), []);
    moves := Grows(1, moves, c, 8);
    var c1 := c.(win := At([Full(2, 8)], 1, 2, {(1, [7]), (2, [8])}, [(1, [7])]));
    moves := ReadsOnly(moves, c1, 2, 8);
    var c2 := c.(win := At([Full(2, 8).(status := Read)], 2, 2, {(1, [7]), (2, [8])}, [(1, [7]), (2, [8])]));
    moves := Grows(1, moves, c2, 9);
  }

  // The consumer reads the only packet of a window of one slot.
  lemma ReadsOnly(before: seq<Move>, c: System, n: nat, byte: gf) returns (moves: seq<Move>)
    requires Exec(AckRuns.Init(1), before, 1) == c && n > 0
    requires c.win.slots == [Full(n, byte)] && c.win.head == n - 1 && c.win.tail == n
    requires c.win.holder.Free? && c.win.waiting.None?
    ensures Exec(AckRuns.Init(1), moves, 1) == c.(win := c.win.(
      slots := [Full(n, byte).(status := Read)], head := n, taken := c.win.taken + [(n, [byte])]))
  {
    hide Exec, Index;
    var c1 := c.(win := c.win.(holder := Taking(0)));
    var c2 := c.(win := c.win.(
      slots := [Full(n, byte).(status := Read)], head := n, taken := c.win.taken + [(n, [byte])]));
    moves := Do(1, before, c, Others(Begin), c1);
    moves := Do(1, moves, c1, Others(TakeStep), c2);
  }

  lemma OldNumberListed() returns (moves: seq<Move>)
    ensures Exec(AckRuns.Init(1), moves, 1) == System(
      At([Full(1, 7).(status := Read)], 1, 1, {(1, [7])}, [(1, [7])]), GivingUp([2], 0, 2), [])
  {
    hide Exec, Index;
    SmallIndices();
    StartHere(1);
    var c0 := System(At([CLEAR], 0, 0, {}, []), Idle, []);
    assert AckRuns.Init(1) == c0 by { assert seq(1, i => CLEAR) == [CLEAR]; }
    moves := Grows(1, [], c0, 7);
    var c1 := c0.(win := At([Full(1, 7)], 0, 1, {(1, [7])}, []));
    moves := ReadsOnly(moves, c1, 1, 7);
    var c2 := c0.(win := At([Full(1, 7).(status := Read)], 1, 1, {(1, [7])}, [(1, [7])]));
    var c3 := c2.(phase := Snapshot(1, 1));
    var c4 := c2.(phase := Scanning(1, 1, 1, 2, 1, []));
    AheadTwo();
    moves := Do(1, moves, c2, TakeSnapshot, c3);
    moves := Do(1, moves, c3, ReadBatch(2, true), c4);
    moves := Do(1, moves, c4, EndScan, c2.(phase := GivingUp([2], 0, 2)));
  }
}
