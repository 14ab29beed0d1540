/** `first_seq_num_` of packet_buffer.cpp, from which `ClearTo` counts the slots it visits: when it lies
    behind everything stored, over whole runs, and what `ClearTo` leaves behind when it does not. */
module FirstSeqNum {
  import opened SequenceNumbers
  import opened RingArithmetic
  import opened PacketRing
  import opened PacketBufferModel
  import opened PacketBufferRuns

  /** `first_seq_num_` is at or behind every stored packet. */
  ghost predicate FirstBehind(st: State) {
    forall e | e in st.slots :: AheadOrAt(e, st.first)
  }

  // ----- what ClearTo removes

  /** A stored packet behind `s + 1` that ClearTo(s) does not reach: behind `first_seq_num_`, in a slot
      further on than the slots visited. */
  predicate Missed(st: State, s: SeqNum, e: SeqNum)
    requires st.size > 0
  {
    var next := Plus(s, 1);
    && e in st.slots && AheadOf(next, e) && AheadOf(st.first, e)
    && ForwardDiff(st.first, next) <= StepsToSlot(st.first, e, st.size)
  }

  /** ClearTo(s) removes the stored packets behind `s + 1` but for those it misses. */
  lemma ClearToRemoves(st: State, s: SeqNum, e: SeqNum)
    requires Placed(st) && !ClearToIgnored(st, s) && e in st.slots
    ensures e in ClearTo(st, s).slots <==> !AheadOf(Plus(s, 1), e) || Missed(st, s, e)
  {
    var next := Plus(s, 1);
    if AheadOf(next, e) && !AheadOf(st.first, e) {
      if e != st.first {
        AheadOfIsTotal(65536, st.first, e);
      }
      BehindNextIsBetween(st.first, e, next);
      if ForwardDiff(st.first, e) < st.size {
        StepsToSlotNear(st.first, e, st.size);
      }
    }
  }

  lemma BehindNextIsBetween(first: SeqNum, e: SeqNum, next: SeqNum)
    requires AheadOrAt(e, first) && AheadOf(next, e)
    ensures ForwardDiff(first, e) < ForwardDiff(first, next)
  {
  }

  /** ClearTo(s) leaves no stored packet behind `s + 1`. */
  ghost predicate Exact(st: State, s: SeqNum)
    requires st.size > 0
  {
    ClearToIgnored(st, s) || forall e | e in ClearTo(st, s).slots :: AheadOrAt(e, Plus(s, 1))
  }

  /** It leaves none exactly when it misses none, and then `first_seq_num_` is behind everything again.
      It misses none when `first_seq_num_` was behind everything before, or when it visits every slot. */
  lemma ClearToExact(st: State, s: SeqNum)
    requires Placed(st) && !ClearToIgnored(st, s)
    ensures Exact(st, s) <==> forall e | e in st.slots :: !Missed(st, s, e)
    ensures Exact(st, s) <==> FirstBehind(ClearTo(st, s))
    ensures FirstBehind(st) || ForwardDiff(st.first, Plus(s, 1)) >= st.size ==> Exact(st, s)
  {
    var next := Plus(s, 1);
    forall e | e in st.slots
      ensures e in ClearTo(st, s).slots <==> !AheadOf(next, e) || Missed(st, s, e)
      ensures AheadOf(next, e) <==> !AheadOrAt(e, next)
      ensures FirstBehind(st) ==> !Missed(st, s, e)
    {
      ClearToRemoves(st, s, e);
      TotalOrAt(next, e);
      TotalOrAt(st.first, e);
    }
  }

  lemma TotalOrAt(a: SeqNum, b: SeqNum)
    ensures AheadOf(a, b) <==> !AheadOrAt(b, a)
  {
    if a != b {
      AheadOfIsTotal(65536, a, b);
    }
  }

  // ----- which frames ClearTo splits

  /** A continuous packet inside a frame, in the slot of `s + 1`, where the scan stops, that ClearTo(s)
      keeps while it removes the packet before it. */
  ghost predicate AtRisk(st: State, s: SeqNum, t: SeqNum)
    requires st.size > 0
  {
    var next := Plus(s, 1);
    && t in st.slots && st.slots[t].continuous && !st.slots[t].isFirst && Plus(t, -1) in st.slots
    && Slot(t, st.size) == Slot(next, st.size)
    && AheadOf(next, Plus(t, -1))
    && 0 < ForwardDiff(st.first, next)
    && (t == next || ForwardDiff(st.first, next) < st.size)
  }

  /** ClearTo(s) splits a frame exactly at the packet in the slot of `s + 1`. */
  lemma ClearToSplits(st: State, s: SeqNum)
    requires Placed(st) && !ClearToIgnored(st, s)
    ensures SplitsFrame(st.slots, ClearedKeys(st, s)) <==> exists t :: AtRisk(st, s, t)
  {
    var m, removed := st.slots, ClearedKeys(st, s);
    forall t | t in m && m[t].continuous && !m[t].isFirst
      ensures t !in removed && Plus(t, -1) in removed <==> AtRisk(st, s, t)
    {
      SplitAt(st, s, t);
    }
    if SplitsFrame(m, removed) {
      var t :| t in m && t !in removed && m[t].continuous && !m[t].isFirst && Plus(t, -1) in removed;
      assert AtRisk(st, s, t);
    }
    if t :| AtRisk(st, s, t) {
      assert t !in removed && Plus(t, -1) in removed;
    }
  }

  lemma SplitAt(st: State, s: SeqNum, t: SeqNum)
    requires Placed(st) && t in st.slots && st.slots[t].continuous && !st.slots[t].isFirst
    ensures t !in ClearedKeys(st, s) && Plus(t, -1) in ClearedKeys(st, s) <==> AtRisk(st, s, t)
  {
    var next, d := Plus(s, 1), ForwardDiff(st.first, Plus(s, 1));
    var p := Plus(t, -1);
    LeavingTheBehindHalf(t, next);
    StepsBefore(st.first, t, st.size);
    SameSlotSameSteps(st.first, t, next, st.size);
    if d < st.size {
      StepsToSlotNear(st.first, next, st.size);
    }
  }

  lemma LeavingTheBehindHalf(t: SeqNum, next: SeqNum)
    ensures AheadOf(next, Plus(t, -1)) && !AheadOf(next, t) ==> t == next
    ensures t == next ==> AheadOf(next, Plus(t, -1)) && !AheadOf(next, t)
  {
  }

  /** The previous number uses the previous slot. */
  lemma StepsBefore(first: SeqNum, t: SeqNum, n: nat)
    requires PowerOfTwo(n)
    ensures StepsToSlot(first, Plus(t, -1), n)
         == if StepsToSlot(first, t, n) > 0 then StepsToSlot(first, t, n) - 1 else n - 1
  {
    PreviousSlot(t, n);
  }

  lemma SameSlotSameSteps(first: SeqNum, t: SeqNum, q: SeqNum, n: nat)
    requires n > 0
    ensures Slot(t, n) == Slot(q, n) <==> StepsToSlot(first, t, n) == StepsToSlot(first, q, n)
  {
  }

  lemma ExactClears(st: State, s: SeqNum)
    requires Placed(st) && !ClearToIgnored(st, s) && Exact(st, s)
    ensures forall e | e in st.slots :: e in ClearedKeys(st, s) <==> AheadOf(Plus(s, 1), e)
  {
    forall e | e in st.slots ensures e in ClearedKeys(st, s) <==> AheadOf(Plus(s, 1), e) {
      TotalOrAt(Plus(s, 1), e);
    }
  }

  /** Where ClearTo(s) is exact the partly received frame at risk is the one `s + 1` belongs to. */
  lemma ClearToSplitsOnlyAtBoundary(st: State, s: SeqNum)
    requires Placed(st) && !ClearToIgnored(st, s) && Exact(st, s)
    ensures var next := Plus(s, 1);
            SplitsFrame(st.slots, ClearedKeys(st, s))
            <==> next in st.slots && st.slots[next].continuous && !st.slots[next].isFirst && s in st.slots
  {
    var m, next := st.slots, Plus(s, 1);
    var removed := ClearedKeys(st, s);
    ExactClears(st, s);
    NextIsNotCleared(s);
    hide Exact, ClearedKeys, Placed, AheadOf, Plus;
    if SplitsFrame(m, removed) {
      var t :| t in m && t !in removed && m[t].continuous && !m[t].isFirst && Plus(t, -1) in removed;
      ClearedAreStored(st, s);
      LeavingTheBehindHalf(t, next);
    }
    if next in m && m[next].continuous && !m[next].isFirst && s in m {
      assert next !in removed && Plus(next, -1) in removed;
    }
  }

  lemma NextIsNotCleared(s: SeqNum)
    ensures var next := Plus(s, 1); Plus(next, -1) == s && AheadOf(next, s) && !AheadOf(next, next)
  {
  }

  lemma ClearedAreStored(st: State, s: SeqNum)
    requires st.size > 0
    ensures ClearedKeys(st, s) <= st.slots.Keys
  {
  }

  // ----- which insertions keep it

  /** The packet is taken for the oldest although one behind it is stored afterwards. */
  ghost predicate TakenAsOldestWrongly(st: State, p: Packet)
    requires Placed(st)
  {
    && st.received && !st.cleared && AheadOf(st.first, p.seqNum)
    && exists e :: e in InsertPacket(st, p).0.slots && AheadOf(p.seqNum, e)
  }

  /** Insertion keeps `first_seq_num_` behind everything unless it takes a packet for the oldest wrongly. */
  lemma InsertPacketKeepsFirstBehind(st: State, p: Packet)
    requires Placed(st) && FirstBehind(st)
    ensures FirstBehind(InsertPacket(st, p).0) <==> !TakenAsOldestWrongly(st, p)
  {
    var s := p.seqNum;
    InsertPacketCases(st, p);
    InsertPacketKeepsPlaced(st, p);
    var st' := InsertPacket(st, p).0;
    TotalOrAt(st.first, s);
    forall e | e in st'.slots ensures AheadOf(s, e) <==> !AheadOrAt(e, s) {
      TotalOrAt(s, e);
    }
  }

  // ----- over every run

  /** No insertion of the run takes a packet for the oldest wrongly. */
  ghost predicate TakesOldestRightly(st: State, ops: seq<Op>)
    requires Placed(st)
    decreases |ops|
  {
    ops == [] ||
    (StepKeepsPlaced(st, ops[0]);
     && (ops[0].Insert? ==> !TakenAsOldestWrongly(st, ops[0].packet))
     && TakesOldestRightly(Step(st, ops[0]).0, ops[1..]))
  }

  /** `first_seq_num_` is behind everything at every step of the run. */
  ghost predicate AlwaysFirstBehind(st: State, ops: seq<Op>)
    requires Placed(st)
    decreases |ops|
  {
    FirstBehind(st) && (ops == [] || (StepKeepsPlaced(st, ops[0]); AlwaysFirstBehind(Step(st, ops[0]).0, ops[1..])))
  }

  /** Every ClearTo of the run leaves no packet behind the one it clears to. */
  ghost predicate AlwaysExact(st: State, ops: seq<Op>)
    requires Placed(st)
    decreases |ops|
  {
    ops == [] ||
    (StepKeepsPlaced(st, ops[0]);
     && (ops[0].ClearUpTo? ==> Exact(st, ops[0].seqNum))
     && AlwaysExact(Step(st, ops[0]).0, ops[1..]))
  }

  lemma StepKeepsFirstBehind(st: State, op: Op)
    requires Placed(st) && FirstBehind(st)
    ensures FirstBehind(Step(st, op).0) <==> !(op.Insert? && TakenAsOldestWrongly(st, op.packet))
    ensures op.ClearUpTo? ==> Exact(st, op.seqNum)
  {
    match op
    case Insert(p) => InsertPacketKeepsFirstBehind(st, p);
    case Padding(s) => InsertPaddingKeepsPlaced(st, s);
    case Clear =>
    case ClearUpTo(s) =>
      if !ClearToIgnored(st, s) {
        ClearToExact(st, s);
      }
  }

  /** `first_seq_num_` stays behind everything stored over exactly the runs that never take a packet for
      the oldest wrongly, and over these every ClearTo is exact. */
  lemma {:induction false} RunKeepsFirstBehind(st: State, ops: seq<Op>)
    requires Placed(st) && FirstBehind(st)
    ensures AlwaysFirstBehind(st, ops) <==> TakesOldestRightly(st, ops)
    ensures TakesOldestRightly(st, ops) ==> AlwaysExact(st, ops)
    decreases |ops|
  {
    if ops != [] {
      StepKeepsPlaced(st, ops[0]);
      StepKeepsFirstBehind(st, ops[0]);
      var st' := Step(st, ops[0]).0;
      if FirstBehind(st') {
        RunKeepsFirstBehind(st', ops[1..]);
      } else {
        assert !AlwaysFirstBehind(st', ops[1..]);
      }
    }
  }

  // ----- a condition on the numbers inserted

  /** All the numbers lie within half the number space. */
  ghost predicate InHalfSpace(numbers: set<SeqNum>) {
    exists lo: SeqNum {:trigger WithinHalf(numbers, lo)} :: WithinHalf(numbers, lo)
  }

  ghost predicate WithinHalf(numbers: set<SeqNum>, lo: SeqNum) {
    forall x | x in numbers :: ForwardDiff(lo, x) < 32768
  }

  /** The numbers inserted since the buffer was last empty. */
  ghost function Seen(st: State, op: Op, numbers: set<SeqNum>): set<SeqNum>
    requires Placed(st)
  {
    match op
    case Insert(p) => if InsertPacket(st, p).1.bufferCleared then {} else numbers + {p.seqNum}
    case Clear => {}
    case _ => numbers
  }

  /** Until ClearTo is called, all numbers inserted since the buffer was last emptied lie within half the
      number space; from then on any number may come. */
  ghost predicate NarrowRun(st: State, ops: seq<Op>, numbers: set<SeqNum>)
    requires Placed(st)
    decreases |ops|
  {
    ops == [] ||
    (StepKeepsPlaced(st, ops[0]);
     && (ops[0].Insert? && !st.cleared ==> InHalfSpace(numbers + {ops[0].packet.seqNum}))
     && NarrowRun(Step(st, ops[0]).0, ops[1..], Seen(st, ops[0], numbers)))
  }

  /** `first_seq_num_` is the oldest of the numbers seen. */
  ghost predicate FirstIsOldest(st: State, numbers: set<SeqNum>) {
    && st.slots.Keys <= numbers
    && (st.received && !st.cleared ==> st.first in numbers && forall x | x in numbers :: AheadOrAt(x, st.first))
    && (!st.received ==> numbers == {} && !st.cleared)
  }

  /** Within half the space being ahead is an order. */
  lemma HalfSpaceIsOrdered(lo: SeqNum, x: SeqNum, y: SeqNum)
    requires ForwardDiff(lo, x) < 32768 && ForwardDiff(lo, y) < 32768
    ensures AheadOrAt(x, y) <==> ForwardDiff(lo, y) <= ForwardDiff(lo, x)
  {
  }

  lemma OldestOfMore(numbers: set<SeqNum>, first: SeqNum, s: SeqNum)
    requires InHalfSpace(numbers + {s}) && first in numbers
    requires forall x | x in numbers :: AheadOrAt(x, first)
    ensures var oldest := if AheadOf(first, s) then s else first;
            forall x | x in numbers + {s} :: AheadOrAt(x, oldest)
  {
    var lo: SeqNum :| WithinHalf(numbers + {s}, lo);
    var oldest := if AheadOf(first, s) then s else first;
    TotalOrAt(first, s);
    forall x | x in numbers + {s} ensures AheadOrAt(x, oldest) {
      HalfSpaceIsOrdered(lo, x, first);
      HalfSpaceIsOrdered(lo, x, s);
      HalfSpaceIsOrdered(lo, first, s);
    }
  }

  lemma NarrowInsertion(st: State, p: Packet, numbers: set<SeqNum>)
    requires Placed(st) && FirstBehind(st) && FirstIsOldest(st, numbers)
    requires !st.cleared ==> InHalfSpace(numbers + {p.seqNum})
    ensures !TakenAsOldestWrongly(st, p)
    ensures FirstIsOldest(InsertPacket(st, p).0, Seen(st, Insert(p), numbers))
  {
    var s := p.seqNum;
    InsertPacketKeepsPlaced(st, p);
    InsertPacketCases(st, p);
    if st.received && !st.cleared {
      OldestOfMore(numbers, st.first, s);
    }
    var st' := InsertPacket(st, p).0;
    if st.received && !st.cleared && AheadOf(st.first, s) {
      forall e | e in st'.slots ensures !AheadOf(s, e) {
        assert e in numbers + {s};
        TotalOrAt(s, e);
      }
    }
  }

  /** A run whose numbers keep within half the space between clears never takes a packet for the oldest
      wrongly: every ClearTo of it is exact. */
  lemma {:induction false} NarrowRunIsExact(st: State, ops: seq<Op>, numbers: set<SeqNum>)
    requires Placed(st) && FirstBehind(st) && FirstIsOldest(st, numbers)
    requires NarrowRun(st, ops, numbers)
    ensures TakesOldestRightly(st, ops) && AlwaysExact(st, ops)
    decreases |ops|
  {
    if ops != [] {
      StepKeepsPlaced(st, ops[0]);
      StepKeepsFirstBehind(st, ops[0]);
      var st' := Step(st, ops[0]).0;
      match ops[0] {
        case Insert(p) => NarrowInsertion(st, p, numbers);
        case Padding(s) => InsertPaddingKeepsPlaced(st, s);
        case Clear =>
        case ClearUpTo(s) =>
      }
      NarrowRunIsExact(st', ops[1..], Seen(st, ops[0], numbers));
    }
  }

  /** In particular a run from an empty buffer all of whose numbers lie within half the space. */
  lemma {:induction false} HalfSpaceIsNarrow(st: State, ops: seq<Op>, numbers: set<SeqNum>, lo: SeqNum)
    requires Placed(st) && WithinHalf(numbers, lo)
    requires forall op | op in ops && op.Insert? :: ForwardDiff(lo, op.packet.seqNum) < 32768
    ensures NarrowRun(st, ops, numbers)
    decreases |ops|
  {
    if ops != [] {
      StepKeepsPlaced(st, ops[0]);
      if ops[0].Insert? {
        assert ops[0] in ops;
        assert WithinHalf(numbers + {ops[0].packet.seqNum}, lo);
      }
      HalfSpaceIsNarrow(Step(st, ops[0]).0, ops[1..], Seen(st, ops[0], numbers), lo);
    }
  }

  lemma HalfSpaceRunIsExact(size: nat, maxSize: nat, ops: seq<Op>, lo: SeqNum)
    requires ValidSizes(size, maxSize)
    requires forall op | op in ops && op.Insert? :: ForwardDiff(lo, op.packet.seqNum) < 32768
    ensures Placed(Init(size, maxSize)) && AlwaysExact(Init(size, maxSize), ops)
  {
    HalfSpaceIsNarrow(Init(size, maxSize), ops, {}, lo);
    NarrowRunIsExact(Init(size, maxSize), ops, {});
  }
}
