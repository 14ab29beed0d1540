/** The packet buffer of packet_buffer.cpp: a ring of slots updated in place, proved to do what the
    state machine of PacketBufferModel says, whatever packets it holds. */
module PacketBuffer {
  import opened SequenceNumbers
  import opened RingArithmetic
  import opened MissingPackets
  import opened OrderedNumbers
  import opened Options
  import opened PacketRing
  import opened RingSearch
  import Model = PacketBufferModel

  function Flatten(frames: seq<Frame>): seq<Packet> {
    if frames == [] then [] else frames[0] + Flatten(frames[1..])
  }

  lemma FlattenNothing()
    ensures Flatten([]) == []
  {
  }

  lemma {:induction false} FlattenAppend(frames: seq<Frame>, f: Frame)
    ensures Flatten(frames + [f]) == Flatten(frames) + f
  {
    if frames == [] {
      assert [f][1..] == [];
    } else {
      FlattenAppend(frames[1..], f);
      assert (frames + [f])[1..] == frames[1..] + [f];
    }
  }

  /** How an iteration of the search ends: reading an empty slot, ending the search, or going on with a frame or without. */
  datatype Progress = Broke | Ended | Going(frame: Option<Frame>)

  /** `done` has been handed out; what is to come is the search from here on. */
  ghost predicate Searching(target: Outcome, ring: Ring, missing: seq<SeqNum>, s: SeqNum, n: nat, needsParameterSets: bool, done: seq<Frame>)
    requires |ring| <= 65536
  {
    var rest := Search(ring, missing, s, n, needsParameterSets);
    target == Outcome(rest.ring, rest.missing, done + rest.frames, rest.broken)
  }

  lemma SearchBegins(ring: Ring, missing: seq<SeqNum>, s: SeqNum, n: nat, needsParameterSets: bool)
    requires |ring| <= 65536
    ensures Searching(Search(ring, missing, s, n, needsParameterSets), ring, missing, s, n, needsParameterSets, [])
  {
  }

  lemma SearchEnds(target: Outcome, ring: Ring, missing: seq<SeqNum>, s: SeqNum, n: nat, needsParameterSets: bool, done: seq<Frame>)
    requires |ring| <= 65536 && Searching(target, ring, missing, s, n, needsParameterSets, done)
    requires n == 0 || !Potential(ring, s)
    ensures target == Outcome(ring, missing, done, false)
  {
    assert done + [] == done;
  }

  lemma SearchStep(target: Outcome, ring: Ring, missing: seq<SeqNum>, s: SeqNum, n: nat, needsParameterSets: bool, done: seq<Frame>)
    requires |ring| <= 65536 && Searching(target, ring, missing, s, n, needsParameterSets, done)
    requires n > 0 && Potential(ring, s)
    ensures match Iterate(ring, missing, s, needsParameterSets)
            case Breaks(r) => target == Outcome(r, missing, done, true)
            case Stops(r) => target == Outcome(r, missing, done, false)
            case GoesOn(r) => Searching(target, r, missing, Plus(s, 1), n - 1, needsParameterSets, done)
            case Hands(r, f) => Searching(target, r, EraseCompleted(missing, s), Plus(s, 1), n - 1, needsParameterSets, done + [f])
  {
    hide Iterate, Potential, EraseCompleted;
    assert done + [] == done;
    var r := Iterate(ring, missing, s, needsParameterSets);
    if r.Hands? {
      var rest := Search(r.ring, EraseCompleted(missing, s), Plus(s, 1), n - 1, needsParameterSets);
      assert done + ([r.frame] + rest.frames) == (done + [r.frame]) + rest.frames;
    }
  }

  lemma NotTheEnd(start: SeqNum, k: nat, n: nat)
    requires k <= n < 65536
    ensures Plus(start, k) == Plus(start, n) <==> k == n
  {
    PlusInjective(start, k, n);
  }

  /** Growing, one size at a time. */
  lemma GrowOnce(m: Slots, s: SeqNum, size: nat, maxSize: nat)
    requires Model.ValidSizes(size, maxSize)
    ensures size == maxSize ==> Model.Grow(m, s, size, maxSize) == size
    ensures size != maxSize ==>
              var next := Model.NextSize(size, maxSize);
              && size < next && Model.ValidSizes(next, maxSize)
              && Model.Grow(m, s, size, maxSize) == if Model.Occupied(m, s, next) then Model.Grow(m, s, next, maxSize) else next
  {
    hide Model.Occupied, PowerOfTwo;
    if size != maxSize {
      PowerOfTwoDoubles(size, maxSize);
      PowerOfTwoBounds(size);
    }
  }

  /** Looks through the units of one packet. */
  method AbsorbUnits(seen: Seen, p: Packet, nalus: seq<Nalu>, needsParameterSets: bool) returns (r: Seen)
    ensures r == Absorb(seen, p, nalus, needsParameterSets)
  {
    r := seen;
    var j := 0;
    while j < |nalus|
      invariant 0 <= j <= |nalus|
      invariant r == seen.(sps := seen.sps || Sps in nalus[..j], pps := seen.pps || Pps in nalus[..j],
                           idr := seen.idr || Idr in nalus[..j])
    {
      assert nalus[..j + 1] == nalus[..j] + [nalus[j]];
      match nalus[j] {
        case Sps => r := r.(sps := true);
        case Pps => r := r.(pps := true);
        case Idr => r := r.(idr := true);
        case OtherNalu =>
      }
      j := j + 1;
    }
    assert nalus[..j] == nalus;
    if (needsParameterSets && r.idr && r.sps && r.pps) || (!needsParameterSets && r.idr) {
      r := r.(key := true);
      if p.width > 0 && p.height > 0 {
        r := r.(width := p.width, height := p.height);
      }
    }
  }

  class PacketBuffer {
    const maxSize: nat
    var buffer: array<Option<Packet>>
    var firstSeqNum: SeqNum
    var firstPacketReceived: bool
    var isClearedToFirstSeqNum: bool
    var newestInsertedSeqNum: Option<SeqNum>
    var missingPackets: seq<SeqNum>
    var spsPpsIdrIsH264Keyframe: bool

    ghost predicate RingValid()
      reads this, buffer
    {
      Model.ValidSizes(buffer.Length, maxSize) && 0 < buffer.Length <= 65536 && Addressed(buffer[..])
    }

    ghost function Contents(): Slots
      requires RingValid()
      reads this, buffer
    {
      StoredIn(buffer[..])
    }

    ghost function View(): Model.State
      requires RingValid()
      reads this, buffer
    {
      Model.State(buffer.Length, maxSize, Contents(), firstSeqNum, firstPacketReceived, isClearedToFirstSeqNum,
                  Window(newestInsertedSeqNum, missingPackets), spsPpsIdrIsH264Keyframe)
    }

    ghost predicate Valid()
      reads this, buffer
    {
      RingValid() && Model.Placed(View())
    }

    constructor (startBufferSize: nat, maxBufferSize: nat)
      requires Model.ValidSizes(startBufferSize, maxBufferSize)
      ensures Valid() && fresh(buffer)
      ensures View() == Model.Init(startBufferSize, maxBufferSize)
    {
      PowerOfTwoBounds(startBufferSize);
      maxSize := maxBufferSize;
      buffer := new Option<Packet>[startBufferSize](_ => None);
      firstSeqNum := 0;
      firstPacketReceived, isClearedToFirstSeqNum := false, false;
      newestInsertedSeqNum, missingPackets := None, [];
      spsPpsIdrIsH264Keyframe := false;
    }

    method ForceSpsPpsIdrIsH264Keyframe()
      requires Valid()
      modifies this`spsPpsIdrIsH264Keyframe
      ensures Valid() && View() == old(View()).(needsParameterSets := true)
    {
      spsPpsIdrIsH264Keyframe := true;
    }

    /** The test for a potential new frame, on the slots before and at `seqNum`. */
    function PotentialNewFrame(seqNum: SeqNum): (r: bool)
      requires RingValid()
      reads this, buffer
      ensures r == Potential(buffer[..], seqNum)
    {
      var index := Slot(seqNum, buffer.Length);
      var prevIndex := if index > 0 then index - 1 else buffer.Length - 1;
      PreviousSlot(seqNum, buffer.Length);
      var entry, prevEntry := buffer[index], buffer[prevIndex];
      if entry.None? || entry.value.seqNum != seqNum then false
      else if entry.value.isFirst then true
      else if prevEntry.None? || prevEntry.value.seqNum != Plus(seqNum, -1) then false
      else if prevEntry.value.timestamp != entry.value.timestamp then false
      else prevEntry.value.continuous
    }

    /** Walks back from the last packet of a frame to its first one, if no slot on the way is empty. */
    method FindFrameStart(seqNum: SeqNum) returns (w: Found)
      requires RingValid() && At(buffer[..], seqNum).Some?
      ensures w == FirstFrom(buffer[..], seqNum)
    {
      hide WalkToFirst, Slot, PowerOfTwo, Addressed;
      var startSeqNum := seqNum;
      var startIndex := Slot(seqNum, buffer.Length);
      var testedPackets := 0;
      ghost var target := WalkToFirst(buffer[..], seqNum, 0);
      while true
        invariant testedPackets < buffer.Length && startIndex == Slot(startSeqNum, buffer.Length)
        invariant buffer[startIndex].Some?
        invariant WalkToFirst(buffer[..], startSeqNum, testedPackets) == target
        decreases buffer.Length - testedPackets
      {
        ToFirstOnce(buffer[..], startSeqNum, testedPackets);
        PreviousSlot(startSeqNum, buffer.Length);
        testedPackets := testedPackets + 1;
        if buffer[startIndex].value.isFirst {
          break;
        }
        if testedPackets == buffer.Length {
          break;
        }
        startIndex := if startIndex > 0 then startIndex - 1 else buffer.Length - 1;
        if buffer[startIndex].None? {
          return MeetsEmpty;
        }
        startSeqNum := Plus(startSeqNum, -1);
      }
      w := Begins(startSeqNum);
    }

    /** Walks back from the last packet of an H.264 frame as long as the slots hold packets of its time. */
    method FindH264FrameStart(seqNum: SeqNum) returns (w: Walk)
      requires RingValid() && At(buffer[..], seqNum).Some?
      ensures w == WalkFrom(buffer[..], seqNum, spsPpsIdrIsH264Keyframe)
    {
      hide WalkBack, Absorb, Slot, PowerOfTwo, Addressed;
      var startSeqNum := seqNum;
      var startIndex := Slot(seqNum, buffer.Length);
      var testedPackets := 0;
      var frameTimestamp := buffer[startIndex].value.timestamp;
      var seen := NOTHING_SEEN;
      ghost var target := WalkBack(buffer[..], seqNum, frameTimestamp, 0, seen, spsPpsIdrIsH264Keyframe);
      while true
        invariant testedPackets < buffer.Length && startIndex == Slot(startSeqNum, buffer.Length)
        invariant buffer[startIndex].Some?
        invariant WalkBack(buffer[..], startSeqNum, frameTimestamp, testedPackets, seen, spsPpsIdrIsH264Keyframe) == target
        decreases buffer.Length - testedPackets
      {
        WalkOnce(buffer[..], startSeqNum, frameTimestamp, testedPackets, seen, spsPpsIdrIsH264Keyframe);
        PreviousSlot(startSeqNum, buffer.Length);
        testedPackets := testedPackets + 1;
        var p := buffer[startIndex].value;
        if p.nalus.None? {
          return GivesUp;
        }
        seen := AbsorbUnits(seen, p, p.nalus.value, spsPpsIdrIsH264Keyframe);
        if testedPackets == buffer.Length {
          break;
        }
        startIndex := if startIndex > 0 then startIndex - 1 else buffer.Length - 1;
        if buffer[startIndex].None? || buffer[startIndex].value.timestamp != frameTimestamp {
          break;
        }
        startSeqNum := Plus(startSeqNum, -1);
      }
      w := Start(startSeqNum, seen);
    }

    /** Moves the packets from `startSeqNum` to `seqNum` out of the ring. */
    method TakeFrame(startSeqNum: SeqNum, seqNum: SeqNum) returns (frame: Frame)
      requires 0 < buffer.Length && PowerOfTwo(buffer.Length) && ForwardDiff(startSeqNum, seqNum) < buffer.Length
      requires forall j: nat | j <= ForwardDiff(startSeqNum, seqNum) :: At(buffer[..], Plus(startSeqNum, j)).Some?
      modifies buffer
      ensures var n := ForwardDiff(startSeqNum, seqNum) + 1;
              frame == Taken(old(buffer[..]), startSeqNum, seqNum, n) && buffer[..] == Without(old(buffer[..]), startSeqNum, n)
    {
      hide Slot, PowerOfTwo, Plus, ForwardDiff;
      ghost var ring: Ring := buffer[..];
      ghost var n := ForwardDiff(startSeqNum, seqNum) + 1;
      PlusForwardDiff(startSeqNum, seqNum);
      PlusPlus(startSeqNum, n - 1, 1);
      NoSteps(startSeqNum);
      PowerOfTwoBounds(buffer.Length);
      var endSeqNum := Plus(seqNum, 1);
      var i := startSeqNum;
      frame := [];
      ghost var k := 0;
      while i != endSeqNum
        invariant 0 <= k <= n && i == Plus(startSeqNum, k)
        invariant buffer[..] == Without(ring, startSeqNum, k)
        invariant |frame| == k && forall j: nat | j < k :: frame[j] == Taken(ring, startSeqNum, seqNum, n)[j]
        decreases n - k
      {
        NotTheEnd(startSeqNum, k, n);
        WithoutElsewhere(ring, startSeqNum, k, k);
        var packet := buffer[Slot(i, buffer.Length)].value;
        packet := packet.(isFirst := i == startSeqNum, isLast := i == seqNum);
        frame := frame + [packet];
        buffer[Slot(i, buffer.Length)] := None;
        PlusPlus(startSeqNum, k, 1);
        k := k + 1;
        i := Plus(i, 1);
      }
      NotTheEnd(startSeqNum, k, n);
    }

    /** Judges the H.264 frame that ends in `seqNum` and hands it out, unless it has to wait. */
    method HandOutH264(start: SeqNum, seqNum: SeqNum, seen: Seen) returns (frame: Option<Frame>)
      requires 0 < buffer.Length && PowerOfTwo(buffer.Length) && ForwardDiff(start, seqNum) < buffer.Length
      requires forall j: nat | j <= ForwardDiff(start, seqNum) :: At(buffer[..], Plus(start, j)).Some?
      modifies buffer
      ensures var r := Decide(old(buffer[..]), missingPackets, start, seqNum, seen);
              buffer[..] == r.ring && r == if frame.Some? then Hands(r.ring, frame.value) else Stops(r.ring)
    {
      hide Slot, PowerOfTwo, Plus, ForwardDiff, Taken, Without, UpperBound;
      NoSteps(start);
      ghost var ring: Ring := buffer[..];
      SlotsStaySome(ring, start, seen, ForwardDiff(start, seqNum) + 1);
      var index := Slot(start, buffer.Length);
      var first := buffer[index].value.(isKey := seen.key);
      if seen.key && seen.width > 0 && seen.height > 0 {
        first := first.(width := seen.width, height := seen.height);
      }
      buffer[index] := Some(first);
      assert buffer[..] == Judged(ring, start, seen);
      if !seen.key && UpperBound(65536, missingPackets, start) != 0 {
        return None;
      }
      var f := TakeFrame(start, seqNum);
      return Some(f);
    }

    method MarkContinuous(seqNum: SeqNum)
      requires RingValid() && InPlace(buffer[..], seqNum)
      modifies buffer
      ensures RingValid() && buffer[..] == Marked(old(buffer[..]), seqNum)
    {
      var index := Slot(seqNum, buffer.Length);
      var marked := buffer[index].value.(continuous := true);
      PutInRing(buffer[..], marked);
      buffer[index] := Some(marked);
    }

    /** One iteration of the search. */
    method FindFrameAt(seqNum: SeqNum) returns (progress: Progress)
      requires RingValid() && Potential(buffer[..], seqNum)
      modifies buffer
      ensures RingValid()
      ensures var r := Iterate(old(buffer[..]), missingPackets, seqNum, spsPpsIdrIsH264Keyframe);
              buffer[..] == r.ring
              && r == match progress
                      case Broke => Breaks(r.ring)
                      case Ended => Stops(r.ring)
                      case Going(None) => GoesOn(r.ring)
                      case Going(Some(f)) => Hands(r.ring, f)
    {
      hide WalkFrom, FirstFrom, Decide, Slot, PowerOfTwo, Marked, Addressed, Taken, Without, Shrunk;
      ghost var ring: Ring := buffer[..];
      IterateShrinks(ring, missingPackets, seqNum, spsPpsIdrIsH264Keyframe);
      ShrunkStores(ring, Iterate(ring, missingPackets, seqNum, spsPpsIdrIsH264Keyframe).ring);
      MarkShrinks(ring, seqNum);
      MarkContinuous(seqNum);
      var packet := buffer[Slot(seqNum, buffer.Length)].value;
      if !packet.isLast {
        return Going(None);
      }
      if packet.h264 {
        var w := FindH264FrameStart(seqNum);
        if w.GivesUp? {
          return Ended;
        }
        var frame := HandOutH264(w.seqNum, seqNum, w.seen);
        if frame.None? {
          return Ended;
        }
        return Going(frame);
      }
      var w := FindFrameStart(seqNum);
      if w.MeetsEmpty? {
        return Broke;
      }
      var frame := TakeFrame(w.seqNum, seqNum);
      return Going(Some(frame));
    }

    /** Marks the packets that have become continuous from `seqNum` on and takes out every frame completed. `broken` if an
        empty slot was read on the way. */
    method FindFrames(seqNum: SeqNum) returns (foundFrames: seq<Packet>, broken: bool, ghost frames: seq<Frame>)
      requires RingValid()
      modifies buffer, this`missingPackets
      ensures RingValid() && foundFrames == Flatten(frames)
      ensures Outcome(buffer[..], missingPackets, frames, broken)
              == Search(old(buffer[..]), old(missingPackets), seqNum, buffer.Length, spsPpsIdrIsH264Keyframe)
    {
      hide Search, Searching, Iterate, Potential, EraseCompleted, PowerOfTwo, Addressed, Flatten;
      foundFrames, frames := [], [];
      var s, i := seqNum, 0;
      ghost var target := Search(buffer[..], missingPackets, seqNum, buffer.Length, spsPpsIdrIsH264Keyframe);
      SearchBegins(buffer[..], missingPackets, seqNum, buffer.Length, spsPpsIdrIsH264Keyframe);
      FlattenNothing();
      while i < buffer.Length && PotentialNewFrame(s)
        invariant 0 <= i <= buffer.Length && RingValid() && foundFrames == Flatten(frames)
        invariant Searching(target, buffer[..], missingPackets, s, buffer.Length - i, spsPpsIdrIsH264Keyframe, frames)
      {
        SearchStep(target, buffer[..], missingPackets, s, buffer.Length - i, spsPpsIdrIsH264Keyframe, frames);
        var progress := FindFrameAt(s);
        match progress {
          case Broke => return foundFrames, true, frames;
          case Ended => return foundFrames, false, frames;
          case Going(None) =>
          case Going(Some(frame)) =>
            FlattenAppend(frames, frame);
            foundFrames, frames := foundFrames + frame, frames + [frame];
            missingPackets := EraseCompleted(missingPackets, s);
        }
        s := Plus(s, 1);
        i := i + 1;
      }
      SearchEnds(target, buffer[..], missingPackets, s, buffer.Length - i, spsPpsIdrIsH264Keyframe, frames);
      broken := false;
    }

    method Rehash(newSize: nat) returns (newBuffer: array<Option<Packet>>)
      requires RingValid() && newSize == 2 * buffer.Length
      ensures fresh(newBuffer) && newBuffer.Length == newSize
      ensures Addressed(newBuffer[..]) && StoredIn(newBuffer[..]) == Contents()
    {
      newBuffer := new Option<Packet>[newSize](_ => None);
      var i := 0;
      while i < buffer.Length
        invariant 0 <= i <= buffer.Length
        invariant forall j | 0 <= j < i && buffer[j].Some? :: newBuffer[Slot(buffer[j].value.seqNum, newSize)] == buffer[j]
        invariant forall t | 0 <= t < newSize && newBuffer[t].Some? ::
                    && Slot(newBuffer[t].value.seqNum, newSize) == t
                    && buffer[Slot(newBuffer[t].value.seqNum, buffer.Length)] == newBuffer[t]
      {
        var entry := buffer[i];
        if entry.Some? {
          forall j | 0 <= j < i && buffer[j].Some?
            ensures Slot(buffer[j].value.seqNum, newSize) != Slot(entry.value.seqNum, newSize)
          {
            if Slot(buffer[j].value.seqNum, newSize) == Slot(entry.value.seqNum, newSize) {
              DoublingSeparates(buffer[j].value.seqNum, entry.value.seqNum, buffer.Length);
            }
          }
          newBuffer[Slot(entry.value.seqNum, newSize)] := entry;
        }
        i := i + 1;
      }
      RehashKeepsContents(buffer[..], newBuffer[..]);
    }

    /** Doubles the ring, moving every packet to its new slot; fails at the maximum size. */
    method ExpandBufferSize() returns (expanded: bool)
      requires RingValid()
      modifies this`buffer
      ensures RingValid()
      ensures expanded == (old(buffer.Length) != maxSize)
      ensures !expanded ==> buffer == old(buffer)
      ensures expanded ==> fresh(buffer) && buffer.Length == Model.NextSize(old(buffer.Length), maxSize)
      ensures Contents() == old(Contents())
    {
      if buffer.Length == maxSize {
        return false;
      }
      PowerOfTwoDoubles(buffer.Length, maxSize);
      var newSize := if 2 * buffer.Length < maxSize then 2 * buffer.Length else maxSize;
      PowerOfTwoBounds(newSize);
      buffer := Rehash(newSize);
      return true;
    }

    /** Erases what has become too old and records every number between the newest one and `seqNum`. */
    method UpdateMissingPackets(seqNum: SeqNum)
      modifies this`newestInsertedSeqNum, this`missingPackets
      ensures Window(newestInsertedSeqNum, missingPackets)
              == UpdateMissing(old(Window(newestInsertedSeqNum, missingPackets)), seqNum)
    {
      hide LowerBound;
      if newestInsertedSeqNum.None? {
        newestInsertedSeqNum := Some(seqNum);
      }
      if AheadOf(seqNum, newestInsertedSeqNum.value) {
        var oldSeqNum := Plus(seqNum, -MAX_PADDING_AGE);
        missingPackets := missingPackets[LowerBound(65536, missingPackets, oldSeqNum)..];
        if AheadOf(oldSeqNum, newestInsertedSeqNum.value) {
          newestInsertedSeqNum := Some(oldSeqNum);
        }
        newestInsertedSeqNum := Some(Plus(newestInsertedSeqNum.value, 1));
        ghost var filled := Fill(missingPackets, newestInsertedSeqNum.value, seqNum);
        while AheadOf(seqNum, newestInsertedSeqNum.value)
          invariant newestInsertedSeqNum.Some?
          invariant Fill(missingPackets, newestInsertedSeqNum.value, seqNum) == filled
          decreases ForwardDiff(newestInsertedSeqNum.value, seqNum)
        {
          DiffStep(newestInsertedSeqNum.value, seqNum);
          missingPackets := Insert(65536, missingPackets, newestInsertedSeqNum.value);
          newestInsertedSeqNum := Some(Plus(newestInsertedSeqNum.value, 1));
        }
      } else {
        missingPackets := Erase(65536, missingPackets, seqNum);
      }
    }

    method ClearInternal()
      requires RingValid()
      modifies this, buffer
      ensures RingValid() && buffer == old(buffer)
      ensures View() == Model.ClearInternal(old(View()))
    {
      forall i | 0 <= i < buffer.Length {
        buffer[i] := None;
      }
      firstPacketReceived, isClearedToFirstSeqNum := false, false;
      newestInsertedSeqNum, missingPackets := None, [];
    }

    method Clear()
      requires Valid()
      modifies this, buffer
      ensures Valid() && buffer == old(buffer)
      ensures View() == Model.ClearInternal(old(View()))
    {
      ClearInternal();
    }

    /** Expands until the slot of `seqNum` is free or the ring cannot grow. */
    method MakeRoom(seqNum: SeqNum)
      requires RingValid() && Model.Occupied(Contents(), seqNum, buffer.Length)
      modifies this`buffer
      ensures RingValid() && (buffer == old(buffer) || fresh(buffer))
      ensures Contents() == old(Contents())
      ensures buffer.Length == Model.Grow(old(Contents()), seqNum, old(buffer.Length), maxSize)
    {
      hide StoredIn, Addressed, Model.Occupied, Model.Grow, Slot;
      ghost var m := Contents();
      ghost var target := Model.Grow(m, seqNum, buffer.Length, maxSize);
      GrowOnce(m, seqNum, buffer.Length, maxSize);
      var expanded := ExpandBufferSize();
      while expanded && buffer[Slot(seqNum, buffer.Length)].Some?
        invariant RingValid() && Contents() == m && (buffer == old(buffer) || fresh(buffer))
        invariant if !expanded || !Model.Occupied(m, seqNum, buffer.Length)
                  then target == buffer.Length && (expanded || buffer.Length == maxSize)
                  else target == Model.Grow(m, seqNum, buffer.Length, maxSize)
        decreases maxSize - buffer.Length, expanded
      {
        SlotOccupied(buffer[..], seqNum);
        GrowOnce(m, seqNum, buffer.Length, maxSize);
        expanded := ExpandBufferSize();
      }
      SlotOccupied(buffer[..], seqNum);
    }

    /** Searches for the frames completed from `seqNum` on. */
    method SearchFrom(seqNum: SeqNum) returns (packets: seq<Packet>, broken: bool, ghost frames: seq<Frame>)
      requires RingValid()
      modifies buffer, this`missingPackets
      ensures RingValid() && packets == Flatten(frames)
      ensures (View(), Model.Outcome(frames, false, broken)) == Model.Search(old(View()), seqNum)
    {
      hide StoredIn, Addressed, RingOf, Search, Flatten, PowerOfTwo;
      RingOfStored(buffer[..]);
      packets, broken, frames := FindFrames(seqNum);
    }

    /** Stores `packet`, which has a free slot, and searches for the frames it completes. */
    method StoreAndSearch(packet: Packet) returns (packets: seq<Packet>, broken: bool, ghost frames: seq<Frame>)
      requires RingValid() && buffer[Slot(packet.seqNum, buffer.Length)].None?
      modifies this, buffer
      ensures RingValid() && buffer == old(buffer) && packets == Flatten(frames)
      ensures var st := old(View());
              var st1 := st.(slots := st.slots[packet.seqNum := packet.(continuous := false)],
                             window := UpdateMissing(st.window, packet.seqNum));
              (View(), Model.Outcome(frames, false, broken)) == Model.Search(st1, packet.seqNum)
    {
      hide StoredIn, Addressed, Model.Occupied, Model.Search, UpdateMissing, Flatten, PowerOfTwo;
      PutInRing(buffer[..], packet.(continuous := false));
      buffer[Slot(packet.seqNum, buffer.Length)] := Some(packet.(continuous := false));
      UpdateMissingPackets(packet.seqNum);
      packets, broken, frames := SearchFrom(packet.seqNum);
    }

    /** Gives `packet` its slot, growing or clearing the ring if it must. */
    method PlacePacket(packet: Packet)
      returns (packets: seq<Packet>, bufferCleared: bool, broken: bool, ghost frames: seq<Frame>)
      requires RingValid()
      modifies this, buffer
      ensures RingValid() && (buffer == old(buffer) || fresh(buffer)) && packets == Flatten(frames)
      ensures (View(), Model.Outcome(frames, bufferCleared, broken)) == Model.Place(old(View()), packet)
    {
      hide StoredIn, Addressed, Model.Occupied, Model.Grow, Slot, Model.Search, UpdateMissing, PowerOfTwo;
      packets, bufferCleared, broken, frames := [], false, false, [];
      var seqNum := packet.seqNum;
      SlotOccupied(buffer[..], seqNum);
      if buffer[Slot(seqNum, buffer.Length)].Some? {
        if buffer[Slot(seqNum, buffer.Length)].value.seqNum == seqNum {
          return;
        }
        MakeRoom(seqNum);
        SlotOccupied(buffer[..], seqNum);
        if buffer[Slot(seqNum, buffer.Length)].Some? {
          ClearInternal();
          bufferCleared := true;
          return;
        }
      }
      packets, broken, frames := StoreAndSearch(packet);
    }

    /** Inserts a packet; returns the packets of the frames it completes, in order. `broken` if an empty slot was read on
        the way, which the original does not notice. */
    method InsertPacket(packet: Packet)
      returns (packets: seq<Packet>, bufferCleared: bool, broken: bool, ghost frames: seq<Frame>)
      requires Valid()
      modifies this, buffer
      ensures Valid() && (buffer == old(buffer) || fresh(buffer)) && packets == Flatten(frames)
      ensures (View(), Model.Outcome(frames, bufferCleared, broken)) == Model.InsertPacket(old(View()), packet)
    {
      hide Spaced, Keyed, Addressed, StoredIn, Model.Place, PowerOfTwo;
      Model.InsertPacketKeepsPlaced(View(), packet);
      var seqNum := packet.seqNum;
      if !firstPacketReceived {
        firstSeqNum := seqNum;
        firstPacketReceived := true;
      } else if AheadOf(firstSeqNum, seqNum) {
        if isClearedToFirstSeqNum {
          return [], false, false, [];
        }
        firstSeqNum := seqNum;
      }
      packets, bufferCleared, broken, frames := PlacePacket(packet);
    }

    /** Moves the record of missing packets and looks for frames behind the padding. */
    method InsertPadding(seqNum: SeqNum) returns (packets: seq<Packet>, broken: bool, ghost frames: seq<Frame>)
      requires Valid()
      modifies this, buffer
      ensures Valid() && buffer == old(buffer) && packets == Flatten(frames)
      ensures (View(), Model.Outcome(frames, false, broken)) == Model.InsertPadding(old(View()), seqNum)
    {
      hide Spaced, Keyed, Addressed, StoredIn, Model.Search, PowerOfTwo, UpdateMissing;
      Model.InsertPaddingKeepsPlaced(View(), seqNum);
      UpdateMissingPackets(seqNum);
      packets, broken, frames := SearchFrom(Plus(seqNum, 1));
    }

    /** Drops the stored packets up to and including `seqNum`, visiting each slot at most once. */
    method ClearTo(seqNum: SeqNum)
      requires Valid()
      modifies this`firstSeqNum, this`isClearedToFirstSeqNum, this`missingPackets, buffer
      ensures Valid() && buffer == old(buffer)
      ensures View() == Model.ClearTo(old(View()), seqNum)
    {
      Model.ClearToKeepsPlaced(View(), seqNum);
      hide Model.Placed, StoredIn, Addressed, AheadOf, Plus, EraseCleared, PowerOfTwo, Model.ClearedKeys;
      if isClearedToFirstSeqNum && AheadOf(firstSeqNum, seqNum) {
        return;
      }
      if !firstPacketReceived {
        return;
      }
      ClearPast(seqNum);
    }

    /** Empties the slots up to `seqNum` and moves the first number behind it. */
    method ClearPast(seqNum: SeqNum)
      requires RingValid()
      modifies this`firstSeqNum, this`isClearedToFirstSeqNum, this`missingPackets, buffer
      ensures RingValid() && buffer == old(buffer)
      ensures var st, next := old(View()), Plus(seqNum, 1);
              View() == st.(slots := st.slots - Model.ClearedKeys(st, seqNum), first := next, cleared := true,
                            window := st.window.(missing := EraseCleared(st.window.missing, next)))
    {
      hide StoredIn, Addressed, StepsToSlot, AheadOf, Plus, ForwardDiff, UpperBound, EraseCleared, PowerOfTwo, VisitedBehind, Model.ClearedKeys;
      var next := Plus(seqNum, 1);
      var diff := ForwardDiff(firstSeqNum, next);
      var iterations := if diff < buffer.Length then diff else buffer.Length;
      VisitsWhatIsCleared(View(), seqNum, iterations);
      ClearSlots(next, iterations);
      firstSeqNum := next;
      isClearedToFirstSeqNum := true;
      missingPackets := EraseCleared(missingPackets, next);
    }

    method ClearSlots(next: SeqNum, iterations: nat)
      requires RingValid() && iterations <= buffer.Length
      modifies this`firstSeqNum, buffer
      ensures RingValid()
      ensures Contents() == old(Contents()) - VisitedBehind(old(Contents()), old(firstSeqNum), next, buffer.Length, iterations)
    {
      hide StoredIn, Addressed, VisitedBehind, Spaced, Plus;
      ghost var m := Contents();
      ghost var start := firstSeqNum;
      NothingVisited(m, start, next, buffer.Length);
      StartsAt(start);
      StoredIsAddressed(buffer[..]);
      var i := 0;
      while i < iterations
        invariant 0 <= i <= iterations
        invariant RingValid() && firstSeqNum == Plus(start, i)
        invariant Contents() == m - VisitedBehind(m, start, next, buffer.Length, i)
      {
        ClearSlot(next, m, start, i);
        i := i + 1;
      }
    }

    /** Empties the slot of `firstSeqNum` if its packet lies behind `next`, and moves on. */
    method ClearSlot(next: SeqNum, ghost m: Slots, ghost start: SeqNum, ghost i: nat)
      requires RingValid() && i < buffer.Length && firstSeqNum == Plus(start, i) && Spaced(m, buffer.Length)
      requires Contents() == m - VisitedBehind(m, start, next, buffer.Length, i)
      modifies this`firstSeqNum, buffer
      ensures RingValid() && firstSeqNum == Plus(start, i + 1)
      ensures Contents() == m - VisitedBehind(m, start, next, buffer.Length, i + 1)
    {
      VisitSlot(buffer[..], m, start, next, i);
      var index := Slot(firstSeqNum, buffer.Length);
      if buffer[index].Some? && AheadOf(next, buffer[index].value.seqNum) {
        buffer[index] := None;
      }
      PlusPlus(start, i, 1);
      firstSeqNum := Plus(firstSeqNum, 1);
    }
  }

  /** The packets behind `next` whose slot is among the first `n` visited from `first` on. */
  ghost function VisitedBehind(m: Slots, first: SeqNum, next: SeqNum, size: nat, n: nat): set<SeqNum>
    requires size > 0
  {
    set e | e in m && AheadOf(next, e) && StepsToSlot(first, e, size) < n
  }

  lemma VisitsWhatIsCleared(st: Model.State, s: SeqNum, iterations: nat)
    requires st.size > 0 && iterations == if ForwardDiff(st.first, Plus(s, 1)) < st.size then ForwardDiff(st.first, Plus(s, 1)) else st.size
    ensures VisitedBehind(st.slots, st.first, Plus(s, 1), st.size, iterations) == Model.ClearedKeys(st, s)
  {
  }

  lemma NothingVisited(m: Slots, first: SeqNum, next: SeqNum, size: nat)
    requires size > 0
    ensures m - VisitedBehind(m, first, next, size, 0) == m
  {
  }

  lemma StartsAt(s: SeqNum)
    ensures Plus(s, 0) == s
  {
  }

  lemma VisitedNext(m: Slots, first: SeqNum, next: SeqNum, size: nat, n: nat)
    requires PowerOfTwo(size) && n < size
    ensures VisitedBehind(m, first, next, size, n + 1) == VisitedBehind(m, first, next, size, n)
            + set e | e in m && AheadOf(next, e) && Slot(e, size) == Slot(Plus(first, n), size)
  {
    forall e | e in m ensures StepsToSlot(first, e, size) == n <==> Slot(e, size) == Slot(Plus(first, n), size) {
      StepsToSlotExact(first, e, size, n);
    }
  }

  /** Visiting a slot removes its packet if that lies behind `next`. */
  lemma VisitSlot(ring: seq<Option<Packet>>, m: Slots, first: SeqNum, next: SeqNum, n: nat)
    requires |ring| > 0 && PowerOfTwo(|ring|) && Addressed(ring) && n < |ring|
    requires Spaced(m, |ring|)
    requires StoredIn(ring) == m - VisitedBehind(m, first, next, |ring|, n)
    ensures var i := Slot(Plus(first, n), |ring|);
            var ring' := if ring[i].Some? && AheadOf(next, ring[i].value.seqNum) then ring[i := None] else ring;
            Addressed(ring') && StoredIn(ring') == m - VisitedBehind(m, first, next, |ring|, n + 1)
  {
    hide StoredIn, Addressed, Spaced, PowerOfTwo, Slot, StepsToSlot, AheadOf, Plus;
    var i := Slot(Plus(first, n), |ring|);
    var visited := VisitedBehind(m, first, next, |ring|, n);
    VisitedNext(m, first, next, |ring|, n);
    var here := set e | e in m && AheadOf(next, e) && Slot(e, |ring|) == i;
    assert visited !! here by {
      forall e | e in here ensures e !in visited {
        StepsToSlotExact(first, e, |ring|, n);
      }
    }
    TakeHere(ring, m, visited, here, next, i);
  }

  lemma TakeHere(ring: seq<Option<Packet>>, m: Slots, gone: set<SeqNum>, here: set<SeqNum>, next: SeqNum, i: nat)
    requires |ring| > 0 && Addressed(ring) && i < |ring| && Spaced(m, |ring|)
    requires StoredIn(ring) == m - gone && gone !! here
    requires here == set e | e in m && AheadOf(next, e) && Slot(e, |ring|) == i
    ensures var ring' := if ring[i].Some? && AheadOf(next, ring[i].value.seqNum) then ring[i := None] else ring;
            Addressed(ring') && StoredIn(ring') == m - (gone + here)
  {
    hide *;
    HereIsInSlot(ring, m, gone, here, next, i);
    TakeFromRing(ring, i);
    MinusBoth(m, gone, here);
    MinusNothing(m - gone);
  }

  lemma MinusBoth(m: Slots, a: set<SeqNum>, b: set<SeqNum>)
    ensures m - (a + b) == (m - a) - b
  {
  }

  lemma MinusNothing(m: Slots)
    ensures m - {} == m
  {
  }

  lemma HereIsInSlot(ring: seq<Option<Packet>>, m: Slots, gone: set<SeqNum>, here: set<SeqNum>, next: SeqNum, i: nat)
    requires |ring| > 0 && Addressed(ring) && i < |ring|
    requires StoredIn(ring) == m - gone && gone !! here
    requires here == set e | e in m && AheadOf(next, e) && Slot(e, |ring|) == i
    ensures here == if ring[i].Some? && AheadOf(next, ring[i].value.seqNum) then {ring[i].value.seqNum} else {}
  {
    hide Slot, AheadOf, Plus;
    forall e | e in here ensures ring[i].Some? && ring[i].value.seqNum == e {
      assert e in StoredIn(ring);
    }
    if ring[i].Some? {
      assert ring[i].value.seqNum in StoredIn(ring);
    }
  }

  /** A slot holds a packet exactly when some stored packet is at home there. */
  lemma SlotOccupied(ring: seq<Option<Packet>>, s: SeqNum)
    requires |ring| > 0 && Addressed(ring)
    ensures Model.Occupied(StoredIn(ring), s, |ring|) <==> ring[Slot(s, |ring|)].Some?
    ensures s in StoredIn(ring) <==> ring[Slot(s, |ring|)].Some? && ring[Slot(s, |ring|)].value.seqNum == s
  {
    var e := ring[Slot(s, |ring|)];
    if e.Some? {
      assert e.value.seqNum in StoredIn(ring);
    }
  }

  /** Rings that hold the same packets, each in its slot, store the same. */
  lemma RehashKeepsContents(small: seq<Option<Packet>>, large: seq<Option<Packet>>)
    requires |small| > 0 && |large| > 0 && Addressed(small)
    requires forall j | 0 <= j < |small| && small[j].Some? :: large[Slot(small[j].value.seqNum, |large|)] == small[j]
    requires forall t | 0 <= t < |large| && large[t].Some? ::
               && Slot(large[t].value.seqNum, |large|) == t
               && small[Slot(large[t].value.seqNum, |small|)] == large[t]
    ensures Addressed(large) && StoredIn(large) == StoredIn(small)
  {
  }
}
