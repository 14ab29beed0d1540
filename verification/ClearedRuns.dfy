/** Which packets the packet buffer turns away unseen over a run: those behind what has been cleared explicitly. */
module ClearedRuns {
  import opened SequenceNumbers
  import opened Options
  import opened RingArithmetic
  import opened MissingPackets
  import opened PacketRing
  import opened PacketBufferModel
  import opened PacketBufferRuns

  /** An operation, and whether it reported that the buffer was cleared. */
  datatype Event = Event(op: Op, bufferCleared: bool)

  type Trail = seq<Event>

  predicate Empties(e: Event) {
    e.op.Clear? || e.bufferCleared
  }

  /** A packet has come since the buffer was last emptied. */
  predicate Received(trail: Trail) {
    trail != [] &&
    var k := |trail| - 1;
    !Empties(trail[k]) && (trail[k].op.Insert? || Received(trail[..k]))
  }

  /** The number that everything behind has been cleared of since the buffer was last emptied: that after the one given to the
      last call, of those that came after a packet and were not overtaken by an earlier one. */
  function ClearedTo(trail: Trail): Option<SeqNum> {
    if trail == [] then None
    else
      var k := |trail| - 1;
      var before := ClearedTo(trail[..k]);
      if Empties(trail[k]) then None
      else if trail[k].op.ClearUpTo? && Received(trail[..k]) && (before.None? || !AheadOf(before.value, trail[k].op.seqNum))
      then Some(Plus(trail[k].op.seqNum, 1))
      else before
  }

  /** The buffer's marks say what has been cleared. */
  ghost predicate Marks(st: State, trail: Trail) {
    && (st.received <==> Received(trail))
    && (st.cleared <==> ClearedTo(trail).Some?)
    && (st.cleared ==> st.received && st.first == ClearedTo(trail).value)
  }

  lemma TrailStep(trail: Trail, e: Event)
    ensures var more := trail + [e];
            && (Received(more) <==> !Empties(e) && (e.op.Insert? || Received(trail)))
            && ClearedTo(more) ==
               if Empties(e) then None
               else if && e.op.ClearUpTo? && Received(trail)
                       && (ClearedTo(trail).None? || !AheadOf(ClearedTo(trail).value, e.op.seqNum))
               then Some(Plus(e.op.seqNum, 1))
               else ClearedTo(trail)
  {
    assert (trail + [e])[..|trail|] == trail;
  }

  lemma SearchKeepsMarks(st: State, s: SeqNum)
    requires 0 < st.size <= 65536
    ensures var (st', out) := Search(st, s);
            (st'.received, st'.cleared, st'.first) == (st.received, st.cleared, st.first) && !out.bufferCleared
  {
    hide RingOf, StoredIn, RingSearch.Search;
  }

  lemma InsertionMarks(st: State, p: Packet)
    requires Placed(st)
    ensures var (st', out) := InsertPacket(st, p);
            if out.bufferCleared then !st'.received && !st'.cleared
            else if Ignored(st, p.seqNum) then st' == st
            else st'.received && st'.cleared == st.cleared && st'.first == NewFirst(st, p.seqNum)
  {
    hide Search, Spaced, Keyed, NewSize, Occupied;
    InsertPacketCases(st, p);
    if Stores(st, p.seqNum) {
      InsertionSearches(st, p);
      SearchKeepsMarks(Stored(st, p).(first := NewFirst(st, p.seqNum), received := true), p.seqNum);
    }
    hide InsertPacket;
  }

  lemma StepMarks(st: State, op: Op, trail: Trail)
    requires Placed(st) && Marks(st, trail)
    ensures var (st', out) := Step(st, op); Marks(st', trail + [Event(op, out.bufferCleared)])
  {
    var (st', out) := Step(st, op);
    TrailStep(trail, Event(op, out.bufferCleared));
    hide InsertPacket, Search, Received, ClearedTo, Placed;
    match op
    case Insert(p) => InsertionMarks(st, p);
    case Padding(s) =>
      PaddingKeepsMarks(st, s);
    case Clear =>
    case ClearUpTo(s) =>
  }

  lemma PaddingKeepsMarks(st: State, s: SeqNum)
    requires Placed(st)
    ensures var (st', out) := InsertPadding(st, s);
            (st'.received, st'.cleared, st'.first) == (st.received, st.cleared, st.first) && !out.bufferCleared
  {
    PowerOfTwoBounds(st.size);
    hide Search, UpdateMissing, Spaced, Keyed;
    SearchKeepsMarks(st.(window := UpdateMissing(st.window, s)), Plus(s, 1));
  }

  /** What the operations of a run and their reports come to. */
  ghost function TrailOf(st: State, ops: seq<Op>): Trail
    requires Placed(st)
    decreases |ops|
  {
    if ops == [] then []
    else
      StepKeepsPlaced(st, ops[0]);
      [Event(ops[0], Step(st, ops[0]).1.bufferCleared)] + TrailOf(Step(st, ops[0]).0, ops[1..])
  }

  lemma {:induction false} RunMarks(st: State, ops: seq<Op>, trail: Trail)
    requires Placed(st) && Marks(st, trail)
    ensures Marks(Execute(st, ops).state, trail + TrailOf(st, ops))
    decreases |ops|
  {
    hide Marks, Step, Placed;
    if ops == [] {
      assert trail + [] == trail;
    } else {
      var (st', out) := Step(st, ops[0]);
      var e := Event(ops[0], out.bufferCleared);
      StepKeepsPlaced(st, ops[0]);
      StepMarks(st, ops[0], trail);
      RunMarks(st', ops[1..], trail + [e]);
      assert (trail + [e]) + TrailOf(st', ops[1..]) == trail + ([e] + TrailOf(st', ops[1..]));
    }
  }

  /** After every run, of packets of any codecs, a packet is turned away unseen exactly if its number is behind what has been
      cleared explicitly. */
  lemma RunTurnsAwayIff(size: nat, maxSize: nat, ops: seq<Op>, s: SeqNum)
    requires ValidSizes(size, maxSize)
    ensures Placed(Init(size, maxSize))
    ensures var st, to := Execute(Init(size, maxSize), ops).state, ClearedTo(TrailOf(Init(size, maxSize), ops));
            Ignored(st, s) <==> to.Some? && AheadOf(to.value, s)
  {
    hide Execute, TrailOf, Received, ClearedTo;
    var st := Init(size, maxSize);
    InitIsPlaced(size, maxSize);
    NothingMarked(size, maxSize);
    RunMarks(st, ops, []);
    assert [] + TrailOf(st, ops) == TrailOf(st, ops);
  }

  lemma NothingMarked(size: nat, maxSize: nat)
    ensures Marks(Init(size, maxSize), [])
  {
  }

  lemma InitIsPlaced(size: nat, maxSize: nat)
    requires ValidSizes(size, maxSize)
    ensures Placed(Init(size, maxSize))
  {
  }
}
