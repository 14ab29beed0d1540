/** The packet buffer as a state machine: what each public operation of `PacketBuffer` does to the
    stored packets, the ring size and the bookkeeping, and what it keeps. */
module PacketBufferModel {
  import opened SequenceNumbers
  import opened RingArithmetic
  import opened MissingPackets
  import opened Options
  import opened PacketRing
  import RingSearch
  import opened FrameAssembly
  import opened SearchAgrees
  import opened CutFrames

  /** `needsParameterSets` is whether H.264 keyframes need parameter sets, `sps_pps_idr_is_h264_keyframe_`. */
  datatype State = State(
    size: nat, maxSize: nat, slots: Slots, first: SeqNum, received: bool, cleared: bool, window: Window,
    needsParameterSets: bool)

  /** `broken` if the search read an empty slot. */
  datatype Outcome = Outcome(frames: seq<Frame>, bufferCleared: bool, broken: bool)

  const NOTHING := Outcome([], false, false)

  ghost predicate ValidSizes(size: nat, maxSize: nat) {
    PowerOfTwo(size) && PowerOfTwo(maxSize) && size <= maxSize
  }

  /** What holds after any operations on packets of any codec: the packets fit the ring, each under its own number. */
  ghost predicate Placed(st: State) {
    && ValidSizes(st.size, st.maxSize)
    && Spaced(st.slots, st.size)
    && Keyed(st.slots)
    && (!st.received ==> st.slots == map[])
  }

  ghost predicate NoneH264(m: Slots) {
    forall s | s in m :: !m[s].h264
  }

  /** What holds for codecs other than H.264 as long as no frame is completed whose first packets are gone. */
  ghost predicate Valid(st: State) {
    Placed(st) && Plain(st.slots) && Closed(st.slots) && NoneH264(st.slots)
  }

  /** And as long as `ClearTo` has cut no partly received frame. */
  ghost predicate Uncut(st: State) {
    Valid(st) && Sound(st.slots)
  }

  function Init(size: nat, maxSize: nat): State {
    State(size, maxSize, map[], 0, false, false, Window(None, []), false)
  }

  // ----- operations

  /** The slot of `s` is taken by another packet. */
  predicate Occupied(m: Slots, s: SeqNum, size: nat)
    requires size > 0
  {
    exists e :: e in m && Slot(e, size) == Slot(s, size)
  }

  function NextSize(size: nat, maxSize: nat): nat {
    if 2 * size < maxSize then 2 * size else maxSize
  }

  /** The size after expanding until the slot of `s` is free or the maximum is reached. */
  function Grow(m: Slots, s: SeqNum, size: nat, maxSize: nat): (r: nat)
    requires ValidSizes(size, maxSize)
    ensures ValidSizes(r, maxSize) && size <= r
    ensures r < maxSize ==> r > size && !Occupied(m, s, r)
    decreases maxSize - size
  {
    if size == maxSize then size
    else
      PowerOfTwoDoubles(size, maxSize);
      var next := NextSize(size, maxSize);
      if Occupied(m, s, next) then Grow(m, s, next, maxSize) else next
  }

  function ClearInternal(st: State): State {
    st.(slots := map[], received := false, cleared := false, window := Window(None, []))
  }

  /** The search for frames from number `s` on. */
  ghost function Search(st: State, s: SeqNum): (State, Outcome)
    requires 0 < st.size <= 65536
  {
    var r := RingSearch.Search(RingOf(st.slots, st.size), st.window.missing, s, st.size, st.needsParameterSets);
    (st.(slots := StoredIn(r.ring), window := st.window.(missing := r.missing)), Outcome(r.frames, false, r.broken))
  }

  /** For codecs other than H.264 it finds what the search over the stored packets does. */
  lemma SearchIsFindFrames(st: State, s: SeqNum)
    requires PowerOfTwo(st.size) && Spaced(st.slots, st.size) && Plain(st.slots) && NoneH264(st.slots)
    requires !CompletesCut(st.slots, s, st.size)
    ensures 0 < st.size <= 65536
    ensures var (m, frames) := FindFrames(st.slots, s, st.size);
            Search(st, s) == (st.(slots := m, window := st.window.(missing := EraseFrames(st.window.missing, frames))),
                              Outcome(frames, false, false))
  {
    hide FindFrames, CompletesCut, Plain, Spaced, RingOf, StoredIn, PowerOfTwo, RingSearch.Search, Addressed, EraseFrames;
    PowerOfTwoBounds(st.size);
    KeyedOfPlain(st.slots);
    RingOfIsRing(st.slots, st.size);
    RingIsGeneric(st.slots, st.size);
    SearchAgreesWithMap(RingOf(st.slots, st.size), st.window.missing, s, st.size, st.needsParameterSets);
  }

  lemma RingIsGeneric(m: Slots, size: nat)
    requires size > 0 && NoneH264(m)
    ensures Generic(RingOf(m, size))
  {
    var ring := RingOf(m, size);
    forall i | 0 <= i < size && ring[i].Some? ensures !ring[i].value.h264 {
      var e :| HomeOf(m, size, i, e);
    }
  }

  lemma StoredIsPlain(m: Slots, p: Packet)
    requires Plain(m) && p.seqNum !in m
    ensures Plain(m[p.seqNum := p.(continuous := false)])
    ensures Closed(m) ==> ClosedExcept(m[p.seqNum := p.(continuous := false)], p.seqNum)
  {
    var m' := m[p.seqNum := p.(continuous := false)];
    forall s | s in m' && PotentialNewFrame(m', s) && s != p.seqNum ensures PotentialNewFrame(m, s) {
    }
  }

  lemma StoredIsSound(m: Slots, p: Packet)
    requires Sound(m) && p.seqNum !in m
    ensures Sound(m[p.seqNum := p.(continuous := false)])
  {
    var m' := m[p.seqNum := p.(continuous := false)];
    forall s | s in m' && m'[s].continuous ensures HasRun(m', s) {
      var (b, n) := RunTo(m, s);
      assert forall j: nat | j < n :: RunPacket(m, b, j) ==> RunPacket(m', b, j);
      assert Run(m', b, n);
    }
  }

  /** The packet is older than everything explicitly cleared. */
  predicate Ignored(st: State, s: SeqNum) {
    st.received && AheadOf(st.first, s) && st.cleared
  }

  function NewFirst(st: State, s: SeqNum): SeqNum {
    if !st.received || AheadOf(st.first, s) then s else st.first
  }

  function NewSize(st: State, s: SeqNum): (size: nat)
    requires ValidSizes(st.size, st.maxSize)
    ensures ValidSizes(size, st.maxSize)
  {
    if Occupied(st.slots, s, st.size) then Grow(st.slots, s, st.size, st.maxSize) else st.size
  }

  /** The state with the packet stored, before the search for frames. */
  function Stored(st: State, p: Packet): State
    requires ValidSizes(st.size, st.maxSize)
  {
    st.(size := NewSize(st, p.seqNum), slots := st.slots[p.seqNum := p.(continuous := false)],
        window := UpdateMissing(st.window, p.seqNum))
  }

  /** Gives the packet its slot, growing or clearing the ring if it must, and searches for frames. */
  ghost function Place(st: State, p: Packet): (State, Outcome)
    requires ValidSizes(st.size, st.maxSize)
  {
    var s := p.seqNum;
    PowerOfTwoBounds(NewSize(st, s));
    if s in st.slots then (st, NOTHING)
    else if Occupied(st.slots, s, NewSize(st, s)) then
      (ClearInternal(st.(size := NewSize(st, s))), Outcome([], true, false))
    else Search(Stored(st, p), s)
  }

  ghost function InsertPacket(st: State, p: Packet): (State, Outcome)
    requires Placed(st)
  {
    if Ignored(st, p.seqNum) then (st, NOTHING)
    else Place(st.(first := NewFirst(st, p.seqNum), received := true), p)
  }

  /** The packet finds its place in the ring. */
  predicate Stores(st: State, s: SeqNum)
    requires ValidSizes(st.size, st.maxSize)
  {
    !Ignored(st, s) && s !in st.slots && !Occupied(st.slots, s, NewSize(st, s))
  }

  /** Which packets an insertion turns away, and when it clears the buffer instead. */
  lemma InsertPacketCases(st: State, p: Packet)
    requires Placed(st)
    ensures var (st', out) := InsertPacket(st, p);
            && (Ignored(st, p.seqNum) ==> st' == st && out == NOTHING)
            && (!Ignored(st, p.seqNum) && p.seqNum in st.slots ==>
                  st' == st.(first := NewFirst(st, p.seqNum), received := true) && out == NOTHING)
            && (out.bufferCleared <==>
                  !Ignored(st, p.seqNum) && p.seqNum !in st.slots && !Stores(st, p.seqNum))
            && (out.bufferCleared ==>
                  st' == ClearInternal(st.(size := NewSize(st, p.seqNum), first := NewFirst(st, p.seqNum)))
                  && out == Outcome([], true, false))
  {
    hide Occupied, Spaced;
    PowerOfTwoBounds(NewSize(st, p.seqNum));
  }

  /** An insertion that finds its place, in terms of the search. */
  lemma InsertionSearches(st: State, p: Packet)
    requires Placed(st) && Stores(st, p.seqNum)
    ensures 0 < NewSize(st, p.seqNum) <= 65536
    ensures InsertPacket(st, p) == Search(Stored(st, p).(first := NewFirst(st, p.seqNum), received := true), p.seqNum)
  {
    hide Occupied, Spaced;
    PowerOfTwoBounds(NewSize(st, p.seqNum));
  }

  ghost function InsertPadding(st: State, s: SeqNum): (State, Outcome)
    requires Placed(st)
  {
    PowerOfTwoBounds(st.size);
    Search(st.(window := UpdateMissing(st.window, s)), Plus(s, 1))
  }

  /** ClearTo(s) has been overtaken by an earlier call, or there is nothing to clear. */
  predicate ClearToIgnored(st: State, s: SeqNum) {
    (st.cleared && AheadOf(st.first, s)) || !st.received
  }

  /** The packets ClearTo(s) removes: behind `s + 1` and in one of the visited slots. */
  function ClearedKeys(st: State, s: SeqNum): set<SeqNum>
    requires st.size > 0
  {
    var next := Plus(s, 1);
    set e | e in st.slots && AheadOf(next, e) && StepsToSlot(st.first, e, st.size) < ForwardDiff(st.first, next)
  }

  function ClearTo(st: State, s: SeqNum): State
    requires st.size > 0
  {
    if ClearToIgnored(st, s) then st
    else
      st.(slots := st.slots - ClearedKeys(st, s), first := Plus(s, 1), cleared := true,
          window := st.window.(missing := EraseCleared(st.window.missing, Plus(s, 1))))
  }

  lemma ClearToKeepsPlaced(st: State, s: SeqNum)
    requires Placed(st)
    ensures Placed(ClearTo(st, s))
  {
  }

  // ----- the invariant is kept

  lemma {:induction false} GrowKeepsSpaced(m: Slots, s: SeqNum, size: nat, maxSize: nat)
    requires ValidSizes(size, maxSize) && Spaced(m, size)
    ensures Spaced(m, Grow(m, s, size, maxSize))
    decreases maxSize - size
  {
    if size != maxSize {
      PowerOfTwoDoubles(size, maxSize);
      forall p, q | p in m && q in m && p != q ensures Slot(p, 2 * size) != Slot(q, 2 * size) {
        if Slot(p, 2 * size) == Slot(q, 2 * size) {
          DoublingSeparates(p, q, size);
        }
      }
      var next := NextSize(size, maxSize);
      if Occupied(m, s, next) {
        GrowKeepsSpaced(m, s, next, maxSize);
      }
    }
  }

  /** Growing stops at the first size that frees the slot, and gives up only at the maximum. */
  lemma {:induction false} GrowFindsRoom(m: Slots, s: SeqNum, size: nat, maxSize: nat)
    requires ValidSizes(size, maxSize) && Occupied(m, s, size)
    ensures var r := Grow(m, s, size, maxSize);
            Occupied(m, s, r) <==> Occupied(m, s, maxSize)
    decreases maxSize - size
  {
    if size != maxSize {
      PowerOfTwoDoubles(size, maxSize);
      var next := NextSize(size, maxSize);
      if Occupied(m, s, next) {
        GrowFindsRoom(m, s, next, maxSize);
      } else {
        FreeStaysFree(m, s, next, maxSize);
      }
    }
  }

  lemma {:induction false} FreeStaysFree(m: Slots, s: SeqNum, size: nat, maxSize: nat)
    requires ValidSizes(size, maxSize) && !Occupied(m, s, size)
    ensures !Occupied(m, s, maxSize)
    decreases maxSize - size
  {
    if size != maxSize {
      PowerOfTwoDoubles(size, maxSize);
      forall e | e in m ensures Slot(e, 2 * size) != Slot(s, 2 * size) {
        if Slot(e, 2 * size) == Slot(s, 2 * size) {
          DoublingSeparates(e, s, size);
        }
      }
      FreeStaysFree(m, s, 2 * size, maxSize);
    }
  }

  /** The search leaves no packet that was not there. */
  lemma SearchKeepsPlaced(st: State, s: SeqNum)
    requires PowerOfTwo(st.size) && st.size <= 65536 && Spaced(st.slots, st.size) && Keyed(st.slots)
    ensures var st' := Search(st, s).0;
            && st'.slots.Keys <= st.slots.Keys && Spaced(st'.slots, st'.size) && Keyed(st'.slots)
            && st' == st.(slots := st'.slots, window := st'.window) && st'.window.newest == st.window.newest
            && forall t | t in st'.slots :: st'.slots[t].timestamp == st.slots[t].timestamp && st'.slots[t].h264 == st.slots[t].h264
  {
    var ring := RingOf(st.slots, st.size);
    RingOfIsRing(st.slots, st.size);
    hide RingOf, RingSearch.Search, Slot, PowerOfTwo, StoredIn, Addressed;
    RingSearch.SearchShrinks(ring, st.window.missing, s, st.size, st.needsParameterSets);
    var r := RingSearch.Search(ring, st.window.missing, s, st.size, st.needsParameterSets);
    ShrunkStores(ring, r.ring);
    StoredIsAddressed(r.ring);
  }

  lemma SearchKeepsValid(st: State, s: SeqNum)
    requires Placed(st) && Plain(st.slots) && NoneH264(st.slots) && ClosedExcept(st.slots, s) && st.received
    requires !CompletesCut(st.slots, s, st.size)
    ensures 0 < st.size <= 65536
    ensures var (st', out) := Search(st, s);
            && Valid(st') && !out.broken
            && (forall f | f in out.frames :: IsWholeFrame(f))
            && Bag(st.slots) == Bag(st'.slots) + FramesBag(out.frames)
  {
    PowerOfTwoBounds(st.size);
    SlotAfterLap(s, st.size);
    hide FindFrames, CompletesCut, Plain, PowerOfTwo, Closed, ClosedExcept, Bag, FramesBag, Search, IsWholeFrame;
    SearchIsFindFrames(st, s);
    SearchKeepsPlaced(st, s);
    FindFramesClosesRing(st.slots, s, st.size);
    FindFramesSound(st.slots, s, st.size);
    FindFramesConserves(st.slots, s, st.size);
  }

  lemma StoredIsPlaced(st: State, p: Packet)
    requires Placed(st) && Stores(st, p.seqNum)
    ensures Placed(Stored(st, p).(first := NewFirst(st, p.seqNum), received := true))
  {
    GrowKeepsSpaced(st.slots, p.seqNum, st.size, st.maxSize);
  }

  lemma ClearedIsValid(st: State)
    requires ValidSizes(st.size, st.maxSize)
    ensures Uncut(ClearInternal(st))
  {
  }

  /** Whatever arrives, the packets stay placed, and only the packet inserted is new. */
  lemma InsertPacketKeepsPlaced(st: State, p: Packet)
    requires Placed(st)
    ensures var (st', out) := InsertPacket(st, p);
            && Placed(st') && st'.slots.Keys <= st.slots.Keys + {p.seqNum}
            && (!out.bufferCleared ==> st'.cleared == st.cleared)
            && (!out.bufferCleared ==> st'.first == if Ignored(st, p.seqNum) then st.first else NewFirst(st, p.seqNum))
            && st'.received == !out.bufferCleared
            && forall t | t in st'.slots ::
                 || (t in st.slots && st'.slots[t].timestamp == st.slots[t].timestamp && st'.slots[t].h264 == st.slots[t].h264)
                 || (t == p.seqNum && st'.slots[t].timestamp == p.timestamp && st'.slots[t].h264 == p.h264)
  {
    hide InsertPacket, Spaced, Keyed, Occupied, Grow, Search;
    InsertPacketCases(st, p);
    ClearedIsValid(st.(size := NewSize(st, p.seqNum), first := NewFirst(st, p.seqNum)));
    if Stores(st, p.seqNum) {
      InsertionSearches(st, p);
      StoredIsPlaced(st, p);
      SearchKeepsPlaced(Stored(st, p).(first := NewFirst(st, p.seqNum), received := true), p.seqNum);
    }
  }

  /** The packet completes a frame whose first packets are gone. */
  ghost predicate CompletesCutFrame(st: State, p: Packet)
    requires Placed(st)
  {
    Stores(st, p.seqNum) && CompletesCut(Stored(st, p).slots, p.seqNum, NewSize(st, p.seqNum))
  }

  /** That is so exactly if it is continuous, hangs on a packet that has lost the one before it, and the rest of its frame
      is stored up to the last packet. */
  lemma CompletesCutFrameIff(st: State, p: Packet)
    requires Placed(st) && Stores(st, p.seqNum)
    ensures var m, s := Stored(st, p).slots, p.seqNum;
            CompletesCutFrame(st, p) <==>
              PotentialNewFrame(m, s) && HangsOnOrphan(Marked(m, s), s) && HasTail(m, s, NewSize(st, s))
  {
    var m, s, size := Stored(st, p).slots, p.seqNum, NewSize(st, p.seqNum);
    CompletesCutIff(m, s, size);
    StoredIsPlaced(st, p);
    RunIffNoOrphan(Marked(m, s), size, s);
    hide Placed, CompletesCut, HasRun, HangsOnOrphan, HasTail, PotentialNewFrame;
  }

  /** What goes wrong with an insertion: the search reads an empty slot, or hands out something that is no whole frame
      beginning with a frame start. */
  ghost predicate GoesWrong(st: State, p: Packet)
    requires Placed(st)
  {
    var out := InsertPacket(st, p).1;
    out.broken || exists f :: f in out.frames && !Genuine(Stored(st, p).slots, f)
  }

  /** An insertion that completes no frame whose first packets are gone keeps the invariant and hands out whole frames
      only; any other one goes wrong. */
  lemma InsertPacketKeepsValid(st: State, p: Packet)
    requires Valid(st) && !p.h264
    ensures var (st', out) := InsertPacket(st, p);
            && (GoesWrong(st, p) <==> CompletesCutFrame(st, p))
            && (!CompletesCutFrame(st, p) ==> Valid(st') && !out.broken && forall f | f in out.frames :: IsWholeFrame(f))
  {
    hide InsertPacket, Plain, Closed, Placed, CompletesCut, Genuine, IsWholeFrame, Search, Stored, UpdateMissing, Grow;
    InsertPacketCases(st, p);
    ValidIsPlaced(st);
    if Stores(st, p.seqNum) {
      InsertionSearches(st, p);
      StoredIsReady(st, p);
      var st1 := Stored(st, p).(first := NewFirst(st, p.seqNum), received := true);
      SearchGoesWrongIff(st1, p.seqNum);
      if !CompletesCut(st1.slots, p.seqNum, st1.size) {
        SearchKeepsValid(st1, p.seqNum);
      }
    } else {
      ClearedIsValid(st.(size := NewSize(st, p.seqNum), first := NewFirst(st, p.seqNum)));
      FlagsKeepValid(st, NewFirst(st, p.seqNum));
    }
  }

  lemma ValidIsPlaced(st: State)
    requires Valid(st)
    ensures ValidSizes(st.size, st.maxSize)
  {
  }

  lemma FlagsKeepValid(st: State, first: SeqNum)
    requires Valid(st)
    ensures Valid(st.(first := first, received := true))
  {
  }

  lemma StoredIsReady(st: State, p: Packet)
    requires Valid(st) && Stores(st, p.seqNum) && !p.h264
    ensures var st1 := Stored(st, p).(first := NewFirst(st, p.seqNum), received := true);
            && Placed(st1) && Plain(st1.slots) && NoneH264(st1.slots) && ClosedExcept(st1.slots, p.seqNum)
            && st1.slots == Stored(st, p).slots && st1.size == NewSize(st, p.seqNum) && st1.received
  {
    hide Plain, Closed, ClosedExcept, Placed, UpdateMissing, Grow;
    StoredIsPlain(st.slots, p);
    StoredIsPlaced(st, p);
  }

  lemma SearchGoesWrongIff(st: State, s: SeqNum)
    requires Placed(st) && Plain(st.slots) && NoneH264(st.slots) && ClosedExcept(st.slots, s)
    ensures 0 < st.size <= 65536
    ensures var out := Search(st, s).1;
            out.broken || (exists f :: f in out.frames && !Genuine(st.slots, f)) <==> CompletesCut(st.slots, s, st.size)
  {
    PowerOfTwoBounds(st.size);
    hide RingOf, RingSearch.Search, PowerOfTwo, CompletesCut, Genuine, Addressed, StoredIn, ClosedExcept, Plain;
    RingOfIsRing(st.slots, st.size);
    RingIsGeneric(st.slots, st.size);
    GoesWrongIff(RingOf(st.slots, st.size), st.window.missing, s, st.size, st.needsParameterSets);
  }

  /** Where no frame has been cut, an insertion completes no cut frame and cuts none. */
  lemma InsertPacketKeepsUncut(st: State, p: Packet)
    requires Uncut(st) && !p.h264
    ensures !CompletesCutFrame(st, p) && Uncut(InsertPacket(st, p).0)
  {
    hide InsertPacket, Sound, Plain, Closed, Placed, CompletesCut, Search, Stored, UpdateMissing, Grow, FindFrames;
    InsertPacketKeepsValid(st, p);
    InsertPacketCases(st, p);
    ValidIsPlaced(st);
    if Stores(st, p.seqNum) {
      UncutSearch(st, p);
    } else {
      ClearedIsValid(st.(size := NewSize(st, p.seqNum), first := NewFirst(st, p.seqNum)));
    }
  }

  lemma UncutSearch(st: State, p: Packet)
    requires Uncut(st) && !p.h264 && Stores(st, p.seqNum)
    ensures !CompletesCutFrame(st, p) && Sound(InsertPacket(st, p).0.slots)
  {
    hide InsertPacket, Sound, Plain, Closed, CompletesCut, Search, UpdateMissing, Grow, FindFrames, RunTo, HasRun;
    StoredIsSound(st.slots, p);
    SoundStaysSound(Stored(st, p).slots, p.seqNum, NewSize(st, p.seqNum));
    InsertPacketStores(st, p);
  }

  /** What an insertion that finds its place and completes no cut frame does to each part of the state. */
  lemma InsertPacketStores(st: State, p: Packet)
    requires Valid(st) && Stores(st, p.seqNum) && !p.h264 && !CompletesCutFrame(st, p)
    ensures Plain(Stored(st, p).slots)
    ensures var r := FindFrames(Stored(st, p).slots, p.seqNum, NewSize(st, p.seqNum));
            var w := UpdateMissing(st.window, p.seqNum);
            InsertPacket(st, p) ==
            (st.(size := NewSize(st, p.seqNum), slots := r.0, first := NewFirst(st, p.seqNum), received := true,
                 window := w.(missing := EraseFrames(w.missing, r.1))),
             Outcome(r.1, false, false))
  {
    hide InsertPacket, Plain, Closed, CompletesCut, Search, UpdateMissing, Grow, FindFrames, Placed, EraseFrames;
    ValidIsPlaced(st);
    StoredIsReady(st, p);
    InsertionSearches(st, p);
    var st1 := Stored(st, p).(first := NewFirst(st, p.seqNum), received := true);
    PlacedIsSpaced(st1);
    SearchIsFindFrames(st1, p.seqNum);
  }

  lemma PlacedIsSpaced(st: State)
    requires Placed(st)
    ensures PowerOfTwo(st.size) && Spaced(st.slots, st.size)
  {
  }

  /** The buffer is cleared exactly when even the largest ring has no room for the packet. */
  lemma InsertPacketOverflow(st: State, p: Packet)
    requires Placed(st)
    ensures InsertPacket(st, p).1.bufferCleared <==>
              !Ignored(st, p.seqNum) && p.seqNum !in st.slots && Occupied(st.slots, p.seqNum, st.maxSize)
  {
    var s := p.seqNum;
    InsertPacketCases(st, p);
    hide InsertPacket;
    if Occupied(st.slots, s, st.size) {
      GrowFindsRoom(st.slots, s, st.size, st.maxSize);
    } else {
      FreeStaysFree(st.slots, s, st.size, st.maxSize);
    }
  }

  /** Padding never completes a frame: every stored packet that could be marked is marked already. */
  lemma InsertPaddingHandsOutNothing(st: State, s: SeqNum)
    requires Valid(st)
    ensures InsertPadding(st, s) == (st.(window := UpdateMissing(st.window, s)), NOTHING)
  {
    FindFramesIdle(st.slots, Plus(s, 1), st.size);
    SearchIsFindFrames(st.(window := UpdateMissing(st.window, s)), Plus(s, 1));
    hide FindFrames, Search, UpdateMissing, Plain, Closed;
  }

  lemma InsertPaddingKeepsPlaced(st: State, s: SeqNum)
    requires Placed(st)
    ensures var st' := InsertPadding(st, s).0;
            Placed(st') && st'.slots.Keys <= st.slots.Keys && st' == st.(slots := st'.slots, window := st'.window)
  {
    PowerOfTwoBounds(st.size);
    hide Search, UpdateMissing, Spaced, Keyed;
    SearchKeepsPlaced(st.(window := UpdateMissing(st.window, s)), Plus(s, 1));
  }
}
