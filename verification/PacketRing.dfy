/** The ring of slots of `PacketBuffer` (packet_buffer.h): a packet sits in the slot `seq_num % size`. */
module PacketRing {
  import opened SequenceNumbers
  import opened RingArithmetic
  import opened Options

  /** The kinds of H.264 units the buffer tells apart. */
  datatype Nalu = Sps | Pps | Idr | OtherNalu

  /** A received RTP packet. `h264` tells whether its codec is H.264; `nalus` is None if there is no H.264 header or it
      lists more units than it has room for. `payload` stands for everything the buffer carries along unread. */
  datatype Packet = Packet(
    seqNum: SeqNum, timestamp: nat, isFirst: bool, isLast: bool, continuous: bool, h264: bool, nalus: Option<seq<Nalu>>,
    isKey: bool, width: int, height: int, payload: seq<nat>)

  type Frame = seq<Packet>

  ghost predicate FramePacket(f: Frame, i: nat)
    requires i < |f|
  {
    && f[i].seqNum == Plus(f[0].seqNum, i)
    && f[i].timestamp == f[0].timestamp
    && (f[i].isFirst <==> i == 0)
    && (f[i].isLast <==> i == |f| - 1)
  }

  /** Consecutive sequence numbers, one timestamp, begin flag only first, end flag only last. */
  ghost predicate IsWholeFrame(f: Frame) {
    0 < |f| <= 65536 && forall i: nat | i < |f| :: FramePacket(f, i)
  }

  /** Stored packets by sequence number, wherever the ring keeps them. */
  type Slots = map<SeqNum, Packet>

  type Ring = ring: seq<Option<Packet>> | |ring| > 0 witness [None]

  /** What the slot of a number holds. */
  function At(ring: Ring, s: SeqNum): Option<Packet> {
    ring[Slot(s, |ring|)]
  }

  /** The slot of the number holds its own packet. */
  predicate InPlace(ring: Ring, s: SeqNum) {
    At(ring, s).Some? && At(ring, s).value.seqNum == s
  }

  /** Every packet sits in the slot of its sequence number. */
  ghost predicate Addressed(ring: Ring) {
    forall i | 0 <= i < |ring| && ring[i].Some? :: Slot(ring[i].value.seqNum, |ring|) == i
  }

  ghost predicate ValidRing(ring: Ring) {
    PowerOfTwo(|ring|) && |ring| <= 65536 && Addressed(ring)
  }

  /** What a ring holds, by sequence number. */
  function StoredIn(ring: Ring): (m: Slots) {
    map s: SeqNum | 0 <= s < 65536 && InPlace(ring, s) :: At(ring, s).value
  }

  ghost predicate Keyed(m: Slots) {
    forall s | s in m :: m[s].seqNum == s
  }

  /** Distinct stored packets have distinct slots, so the ring holds them all. */
  ghost predicate Spaced(m: Slots, size: nat)
    requires size > 0
  {
    forall p, q | p in m && q in m && p != q :: Slot(p, size) != Slot(q, size)
  }

  /** A stored packet at home in slot `i`. */
  ghost predicate HomeOf(m: Slots, size: nat, i: nat, e: SeqNum)
    requires size > 0
  {
    e in m && Slot(e, size) == i
  }

  /** The ring of that size with each packet in its slot. */
  ghost function RingOf(m: Slots, size: nat): (ring: Ring)
    requires size > 0
    ensures |ring| == size
  {
    seq(size, (i: nat) =>
      if exists e :: HomeOf(m, size, i, e) then
        var e :| HomeOf(m, size, i, e);
        Some(m[e])
      else None)
  }

  lemma StoredIsAddressed(ring: Ring)
    ensures Spaced(StoredIn(ring), |ring|) && Keyed(StoredIn(ring))
  {
  }

  /** Map and ring are two views of the same packets. */
  lemma RingOfIsRing(m: Slots, size: nat)
    requires size > 0 && Keyed(m) && Spaced(m, size)
    ensures Addressed(RingOf(m, size)) && StoredIn(RingOf(m, size)) == m
    ensures forall s :: InPlace(RingOf(m, size), s) <==> s in m
    ensures forall s | s in m :: At(RingOf(m, size), s) == Some(m[s])
  {
    HomesInRing(m, size);
    hide RingOf, Slot, Spaced;
  }

  lemma HomesInRing(m: Slots, size: nat)
    requires size > 0 && Keyed(m) && Spaced(m, size)
    ensures forall s | s in m :: At(RingOf(m, size), s) == Some(m[s])
    ensures forall i | 0 <= i < size && RingOf(m, size)[i].Some? ::
              RingOf(m, size)[i].value.seqNum in m && Slot(RingOf(m, size)[i].value.seqNum, size) == i
  {
    var ring := RingOf(m, size);
    hide Slot;
    forall s | s in m ensures At(ring, s) == Some(m[s]) {
      assert HomeOf(m, size, Slot(s, size), s);
    }
    forall i | 0 <= i < size && ring[i].Some? ensures ring[i].value.seqNum in m && Slot(ring[i].value.seqNum, size) == i {
      var e :| HomeOf(m, size, i, e);
    }
  }

  lemma RingOfStored(ring: Ring)
    requires Addressed(ring)
    ensures RingOf(StoredIn(ring), |ring|) == ring
  {
    var m := StoredIn(ring);
    StoredIsAddressed(ring);
    RingOfIsRing(m, |ring|);
    hide Slot, RingOf;
    var ring' := RingOf(m, |ring|);
    forall i | 0 <= i < |ring| && ring'[i].Some? ensures ring'[i] == ring[i] {
      var e := ring'[i].value.seqNum;
      assert InPlace(ring', e) && e in m && InPlace(ring, e);
    }
    forall i | 0 <= i < |ring| && ring[i].Some? ensures ring'[i] == ring[i] {
      var e := ring[i].value.seqNum;
      assert InPlace(ring, e) && e in m;
      assert At(ring', e) == Some(m[e]);
    }
  }

  /** Writing a packet to its slot adds it, in place of what was there. */
  lemma PutInRing(ring: Ring, p: Packet)
    requires Addressed(ring)
    requires var old' := At(ring, p.seqNum); old'.None? || old'.value.seqNum == p.seqNum
    ensures var ring' := ring[Slot(p.seqNum, |ring|) := Some(p)];
            Addressed(ring') && StoredIn(ring') == StoredIn(ring)[p.seqNum := p]
  {
  }

  lemma TakeFromRing(ring: Ring, i: nat)
    requires Addressed(ring) && i < |ring|
    ensures var ring' := ring[i := None];
            && Addressed(ring')
            && StoredIn(ring') == StoredIn(ring) - (if ring[i].Some? then {ring[i].value.seqNum} else {})
  {
  }

  /** The same packets in the same slots, or fewer. */
  ghost predicate Shrunk(ring: Ring, ring': Ring) {
    && |ring'| == |ring|
    && forall i | 0 <= i < |ring| && ring'[i].Some? ::
         ring[i].Some? && ring'[i].value.seqNum == ring[i].value.seqNum && ring'[i].value.timestamp == ring[i].value.timestamp
         && ring'[i].value.h264 == ring[i].value.h264
  }

  lemma ShrinkingComposes(a: Ring, b: Ring, c: Ring)
    requires Shrunk(a, b) && Shrunk(b, c)
    ensures Shrunk(a, c)
  {
  }

  lemma ShrunkStores(ring: Ring, ring': Ring)
    requires Shrunk(ring, ring') && Addressed(ring)
    ensures Addressed(ring') && StoredIn(ring').Keys <= StoredIn(ring).Keys
    ensures forall s | s in StoredIn(ring') ::
              StoredIn(ring')[s].timestamp == StoredIn(ring)[s].timestamp && StoredIn(ring')[s].h264 == StoredIn(ring)[s].h264
  {
    hide Slot;
  }
}
