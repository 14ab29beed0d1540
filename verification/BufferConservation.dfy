/** Packets of any codec over any run of the packet buffer: none is lost or repeated, and none is altered but for the flags
    and the resolution that the search writes. */
module BufferConservation {
  import opened SequenceNumbers
  import opened RingArithmetic
  import opened MissingPackets
  import opened Options
  import opened PacketRing
  import opened RingSearch
  import Model = PacketBufferModel
  import opened PacketBufferRuns

  type State = Model.State

  ghost function Idents(m: Slots): set<Packet> {
    set s | s in m :: Ident(m[s])
  }

  /** The stored packets, but for what the search writes on them. */
  ghost function Held(m: Slots): multiset<Packet> {
    multiset(Idents(m))
  }

  lemma HeldSplits(m: Slots, taken: set<SeqNum>)
    requires Keyed(m)
    ensures Held(m) == Held(m - taken) + Held(map s | s in m && s in taken :: m[s])
  {
    var rest, part := m - taken, map s | s in m && s in taken :: m[s];
    assert Idents(m) == Idents(rest) + Idents(part) by {
      forall p | p in Idents(m) ensures p in Idents(rest) + Idents(part) {
        var s :| s in m && p == Ident(m[s]);
        assert s in rest || s in part;
      }
    }
    forall p | p in Idents(rest) ensures p !in Idents(part) {
      var s :| s in rest && p == Ident(rest[s]);
      assert p.seqNum == s;
    }
  }

  lemma HeldAndOne(m: Slots, s: SeqNum)
    requires Keyed(m) && s in m
    ensures Held(m) == Held(m - {s}) + multiset{Ident(m[s])}
  {
    HeldSplits(m, {s});
    var part := map t | t in m && t in {s} :: m[t];
    assert s in part && Idents(part) == {Ident(m[s])};
  }

  lemma {:induction false} EmptySlots(slots: seq<Option<Packet>>)
    requires forall i | 0 <= i < |slots| :: slots[i].None?
    ensures Bag(slots) == multiset{}
  {
    if slots != [] {
      EmptySlots(slots[..|slots| - 1]);
    }
  }

  lemma OneFewer(m: Slots, e: SeqNum)
    requires e in m
    ensures |m - {e}| < |m|
  {
    assert (m - {e}).Keys == m.Keys - {e};
    assert |m.Keys - {e}| < |m.Keys|;
  }

  lemma SlotIsStored(ring: Ring, i: nat)
    requires Addressed(ring) && i < |ring| && ring[i].Some?
    ensures var e := ring[i].value.seqNum; e in StoredIn(ring) && StoredIn(ring)[e] == ring[i].value
  {
    assert InPlace(ring, ring[i].value.seqNum);
  }

  lemma NothingStored(ring: Ring)
    requires forall i | 0 <= i < |ring| :: ring[i].None?
    ensures StoredIn(ring) == map[]
  {
  }

  /** A ring holds the packets that are stored in it. */
  lemma {:induction false} RingHolds(ring: Ring)
    requires Addressed(ring)
    ensures Bag(ring) == Held(StoredIn(ring))
    decreases |StoredIn(ring)|
  {
    hide StoredIn, Addressed, Bag, Held;
    var m := StoredIn(ring);
    if i: nat :| i < |ring| && ring[i].Some? {
      var e := ring[i].value.seqNum;
      SlotIsStored(ring, i);
      TakeFromRing(ring, i);
      OneFewer(m, e);
      RingHolds(ring[i := None]);
      BagUpdate(ring, i, None);
      NothingIsEmpty();
      StoredIsAddressed(ring);
      HeldAndOne(m, e);
    } else {
      EmptySlots(ring);
      NothingStored(ring);
      NothingHeld();
    }
  }

  lemma NothingHeld()
    ensures Held(map[]) == multiset{}
  {
  }

  // ----- one operation

  lemma SearchKeepsHeld(st: State, s: SeqNum)
    requires PowerOfTwo(st.size) && st.size <= 65536 && Spaced(st.slots, st.size) && Keyed(st.slots)
    ensures var (st', out) := Model.Search(st, s); Held(st.slots) == Held(st'.slots) + FramesBag(out.frames)
  {
    hide RingOf, Search, Slot, PowerOfTwo, StoredIn, Addressed, Shrunk, Bag, Held, FramesBag;
    PowerOfTwoBounds(st.size);
    var ring := RingOf(st.slots, st.size);
    RingOfIsRing(st.slots, st.size);
    var r := Search(ring, st.window.missing, s, st.size, st.needsParameterSets);
    SearchConserves(ring, st.window.missing, s, st.size, st.needsParameterSets);
    SearchShrinks(ring, st.window.missing, s, st.size, st.needsParameterSets);
    ShrunkStores(ring, r.ring);
    RingHolds(ring);
    RingHolds(r.ring);
  }

  /** What the operation takes into the buffer. */
  ghost function TakenIn(st: State, op: Op): multiset<Packet>
    requires Model.Placed(st)
  {
    if op.Insert? && Model.Stores(st, op.packet.seqNum) then multiset{Ident(op.packet)} else multiset{}
  }

  /** What it throws away. */
  ghost function ThrownOut(st: State, op: Op): multiset<Packet>
    requires Model.Placed(st)
  {
    match op
    case Insert(p) => if Model.InsertPacket(st, p).1.bufferCleared then Held(st.slots) else multiset{}
    case Padding(_) => multiset{}
    case Clear => Held(st.slots)
    case ClearUpTo(s) =>
      if Model.ClearToIgnored(st, s) then multiset{}
      else Held(map e | e in st.slots && e in Model.ClearedKeys(st, s) :: st.slots[e])
  }

  lemma StoringKeepsHeld(st: State, p: Packet)
    requires Model.Placed(st) && Model.Stores(st, p.seqNum)
    ensures var (st', out) := Model.InsertPacket(st, p);
            Held(st.slots) + multiset{Ident(p)} == Held(st'.slots) + FramesBag(out.frames)
  {
    hide Model.InsertPacket, Model.Search, Held, FramesBag, Spaced, Model.Occupied, Model.Grow, Model.NewSize, UpdateMissing, PowerOfTwo;
    Model.InsertionSearches(st, p);
    Model.StoredIsPlaced(st, p);
    var st1 := Model.Stored(st, p).(first := Model.NewFirst(st, p.seqNum), received := true);
    SearchKeepsHeld(st1, p.seqNum);
    HeldAndOne(st1.slots, p.seqNum);
    assert st1.slots - {p.seqNum} == st.slots;
  }

  lemma InsertionKeepsHeld(st: State, p: Packet)
    requires Model.Placed(st)
    ensures var (st', out) := Model.InsertPacket(st, p);
            Held(st.slots) + TakenIn(st, Insert(p)) == Held(st'.slots) + FramesBag(out.frames) + ThrownOut(st, Insert(p))
  {
    hide Model.InsertPacket, Held, FramesBag, Spaced, Keyed, Model.Stores;
    NothingHeld();
    NoFrames();
    WhatIsAccepted(st, p);
    if Model.Stores(st, p.seqNum) {
      StoringKeepsHeld(st, p);
    }
  }

  lemma NoFrames()
    ensures FramesBag([]) == multiset{}
  {
  }

  /** Whatever is called, every packet is stored, handed out or thrown away. */
  lemma AnyStepConserves(st: State, op: Op)
    requires Model.Placed(st)
    ensures var (st', out) := Step(st, op);
            Held(st.slots) + TakenIn(st, op) == Held(st'.slots) + FramesBag(out.frames) + ThrownOut(st, op)
  {
    hide Model.InsertPacket, Model.Search, Held, FramesBag, Spaced, UpdateMissing, PowerOfTwo, Model.ClearedKeys;
    NothingHeld();
    NoFrames();
    PowerOfTwoBounds(st.size);
    match op
    case Insert(p) =>
      InsertionKeepsHeld(st, p);
    case Padding(s) =>
      SearchKeepsHeld(st.(window := UpdateMissing(st.window, s)), Plus(s, 1));
    case Clear =>
    case ClearUpTo(s) =>
      if !Model.ClearToIgnored(st, s) {
        HeldSplits(st.slots, Model.ClearedKeys(st, s));
      }
  }

  // ----- every run

  ghost function AllTakenIn(st: State, ops: seq<Op>): multiset<Packet>
    requires Model.Placed(st)
    decreases |ops|
  {
    if ops == [] then multiset{}
    else
      StepKeepsPlaced(st, ops[0]);
      TakenIn(st, ops[0]) + AllTakenIn(Step(st, ops[0]).0, ops[1..])
  }

  ghost function AllThrownOut(st: State, ops: seq<Op>): multiset<Packet>
    requires Model.Placed(st)
    decreases |ops|
  {
    if ops == [] then multiset{}
    else
      StepKeepsPlaced(st, ops[0]);
      ThrownOut(st, ops[0]) + AllThrownOut(Step(st, ops[0]).0, ops[1..])
  }

  lemma FirstFrame(f: Frame, frames: seq<Frame>)
    ensures FramesBag([f] + frames) == FrameBag(f) + FramesBag(frames)
  {
    assert ([f] + frames)[1..] == frames;
  }

  lemma {:induction false} FramesBagOf(a: seq<Frame>, b: seq<Frame>)
    ensures FramesBag(a + b) == FramesBag(a) + FramesBag(b)
  {
    hide FramesBag, FrameBag;
    if a == [] {
      NoFrames();
      assert a + b == b;
    } else {
      FramesBagOf(a[1..], b);
      FirstFrame(a[0], a[1..]);
      FirstFrame(a[0], a[1..] + b);
      assert a == [a[0]] + a[1..] && a + b == [a[0]] + (a[1..] + b);
    }
  }

  /** Over every run of operations, on packets of any codecs, each packet taken in is still stored, was handed out, or was
      thrown away, as often as it was taken in. */
  lemma {:induction false} AnyRunConserves(st: State, ops: seq<Op>)
    requires Model.Placed(st)
    ensures var h := Execute(st, ops);
            Held(st.slots) + AllTakenIn(st, ops) == Held(h.state.slots) + FramesBag(h.frames) + AllThrownOut(st, ops)
    decreases |ops|
  {
    hide Model.Placed, Step, Held, FramesBag, TakenIn, ThrownOut, Accepted, Discarded;
    if ops == [] {
      NoFrames();
    } else {
      StepKeepsPlaced(st, ops[0]);
      AnyStepConserves(st, ops[0]);
      var (st', out) := Step(st, ops[0]);
      AnyRunConserves(st', ops[1..]);
      var h := Execute(st', ops[1..]);
      FramesBagOf(out.frames, h.frames);
      BagsCompose(Held(st.slots), TakenIn(st, ops[0]), Held(st'.slots), FramesBag(out.frames), ThrownOut(st, ops[0]),
                  AllTakenIn(st', ops[1..]), Held(h.state.slots), FramesBag(h.frames), AllThrownOut(st', ops[1..]));
    }
  }
}
