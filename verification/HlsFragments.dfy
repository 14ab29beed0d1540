/** Which packets of a stream make up which fragment, stated on the packets. */
module HlsFragments {
  import opened HlsWindow
  import opened HlsMuxerModel
  import opened Options

  type Batch = b: seq<Packet> | b != [] witness [Packet(false, None, 0)]

  /** The earliest time stamp of the packets, or -1 if there is none yet. */
  function Earliest(b: seq<Packet>): int {
    if b == [] then -1
    else
      var before, stamp := Earliest(b[..|b| - 1]), b[|b| - 1].stamp;
      if stamp.Some? && (before == -1 || stamp.value < before) then stamp.value else before
  }

  /** From the earliest time stamp to the latest one that was given. */
  function Lasts(b: seq<Packet>): int {
    if b == [] then 0
    else if b[|b| - 1].stamp.Some? then b[|b| - 1].stamp.value - Earliest(b)
    else Lasts(b[..|b| - 1])
  }

  /** Where no time stamp is negative the earliest one is the least. */
  lemma {:induction false} EarliestIsLeast(b: seq<Packet>)
    requires forall p | p in b && p.stamp.Some? :: p.stamp.value >= 0
    ensures forall p | p in b && p.stamp.Some? :: 0 <= Earliest(b) <= p.stamp.value
    ensures Earliest(b) != -1 ==> exists p :: p in b && p.stamp == Some(Earliest(b))
    ensures Earliest(b) == -1 ==> forall p | p in b :: p.stamp.None?
  {
    if b != [] {
      var k := |b| - 1;
      EarliestIsLeast(b[..k]);
      assert b == b[..k] + [b[k]];
      assert b[k] in b;
    }
  }

  /** The fragment ends before the packet: it has lasted 3 s and the packet is a keyframe, or it has lasted 12 s. */
  predicate EndsBefore(b: Batch, p: Packet) {
    (p.isKey && Lasts(b) >= 3000) || Lasts(b) >= 12000
  }

  /** The stream in fragments: each packet belongs to the fragment of the one before, or starts the next one. */
  function InFragments(packets: seq<Packet>): seq<Batch> {
    if packets == [] then []
    else WithPacket(InFragments(packets[..|packets| - 1]), packets[|packets| - 1])
  }

  function WithPacket(batches: seq<Batch>, p: Packet): (r: seq<Batch>)
    ensures r != []
  {
    if batches == [] || EndsBefore(batches[|batches| - 1], p) then batches + [[p]]
    else batches[..|batches| - 1] + [batches[|batches| - 1] + [p]]
  }

  function Flat(batches: seq<Batch>): seq<Packet> {
    if batches == [] then [] else Flat(batches[..|batches| - 1]) + batches[|batches| - 1]
  }

  /** No packet inside a fragment ends it. */
  ghost predicate InOnePiece(b: Batch) {
    forall k | 0 < k < |b| :: !EndsBefore(b[..k], b[k])
  }

  lemma JoinedInOnePiece(b: Batch, p: Packet)
    requires InOnePiece(b) && !EndsBefore(b, p)
    ensures InOnePiece(b + [p])
  {
    hide EndsBefore;
    var b' := b + [p];
    forall k | 0 < k < |b'| ensures !EndsBefore(b'[..k], b'[k]) {
      assert b'[..k] == if k < |b| then b[..k] else b;
      assert b'[k] == if k < |b| then b[k] else p;
    }
  }

  lemma FlatOfMore(batches: seq<Batch>, b: Batch)
    ensures Flat(batches + [b]) == Flat(batches) + b
  {
    assert (batches + [b])[..|batches|] == batches;
  }

  /** Each fragment ends exactly where it should. */
  ghost predicate CutRightly(batches: seq<Batch>) {
    && (forall b | b in batches :: InOnePiece(b))
    && forall i | 0 < i < |batches| :: EndsBefore(batches[i - 1], batches[i][0])
  }

  lemma StaysCutRightly(batches: seq<Batch>, p: Packet)
    requires CutRightly(batches)
    ensures CutRightly(WithPacket(batches, p))
  {
    hide EndsBefore, InOnePiece;
    if batches == [] || EndsBefore(batches[|batches| - 1], p) {
      LoneInOnePiece(p);
    } else {
      var n := |batches| - 1;
      JoinedInOnePiece(batches[n], p);
      var more := batches[..n] + [batches[n] + [p]];
      assert more[n][0] == batches[n][0];
      assert forall i | 0 <= i < n :: more[i] == batches[i];
    }
  }

  lemma FlatWithPacket(batches: seq<Batch>, p: Packet)
    ensures Flat(WithPacket(batches, p)) == Flat(batches) + [p]
  {
    hide EndsBefore, Flat;
    if batches == [] || EndsBefore(batches[|batches| - 1], p) {
      FlatOfMore(batches, [p]);
    } else {
      var n := |batches| - 1;
      FlatOfMore(batches[..n], batches[n]);
      FlatOfMore(batches[..n], batches[n] + [p]);
      assert batches[..n] + [batches[n]] == batches;
    }
  }

  /** The fragments are the stream, cut exactly where one ends. */
  lemma {:induction false} FragmentsAreTheStream(packets: seq<Packet>)
    ensures var batches := InFragments(packets);
            Flat(batches) == packets && CutRightly(batches) && (packets != [] ==> batches != [])
  {
    hide WithPacket, CutRightly;
    if packets == [] {
      NothingIsCut();
    } else {
      var k := |packets| - 1;
      FragmentsAreTheStream(packets[..k]);
      StaysCutRightly(InFragments(packets[..k]), packets[k]);
      FlatWithPacket(InFragments(packets[..k]), packets[k]);
      assert packets == packets[..k] + [packets[k]];
    }
  }

  lemma NothingIsCut()
    ensures CutRightly([]) && Flat([]) == []
  {
  }

  lemma LoneInOnePiece(p: Packet)
    ensures InOnePiece([p])
  {
  }

  // ----- the muxer

  /** The fragment number `i`, named after the time of its first packet. */
  function FragmentOf(streamName: string, b: Batch, i: nat): Current {
    Current(i, FileName(streamName, b[0].now), Earliest(b), if Lasts(b) >= 0 then Lasts(b) else 0)
  }

  /** The fragments of a stream but the last one, as they are handed to the window. */
  function Segments(streamName: string, batches: seq<Batch>): (r: seq<Segment>)
    ensures |r| == |batches| && forall i | 0 <= i < |r| :: r[i] == SegmentOf(FragmentOf(streamName, batches[i], i))
  {
    seq(|batches|, (i: nat) requires i < |batches| => SegmentOf(FragmentOf(streamName, batches[i], i)))
  }

  lemma LastsIsPositive(b: seq<Packet>)
    ensures Lasts(b) >= 0
  {
    if b != [] && b[|b| - 1].stamp.None? {
      LastsIsPositive(b[..|b| - 1]);
    }
  }

  lemma FragmentGrows(streamName: string, b: Batch, i: nat, p: Packet)
    ensures FragmentOf(streamName, b + [p], i) ==
            if p.stamp.Some? then Stamped(FragmentOf(streamName, b, i), p.stamp.value) else FragmentOf(streamName, b, i)
  {
    LastsIsPositive(b);
    assert (b + [p])[..|b|] == b && (b + [p])[0] == b[0];
    hide FileName;
  }

  lemma FragmentStarts(streamName: string, i: nat, p: Packet)
    ensures var begun := Current(i, FileName(streamName, p.now), -1, 0);
            FragmentOf(streamName, [p], i) == if p.stamp.Some? then Stamped(begun, p.stamp.value) else begun
  {
    assert [p][..0] == [];
    assert Earliest([p][..0]) == -1 && Lasts([p][..0]) == 0;
    hide FileName;
  }

  lemma FullIffEnds(streamName: string, b: Batch, i: nat, p: Packet)
    ensures Full(FragmentOf(streamName, b, i), p.isKey) <==> EndsBefore(b, p)
  {
    LastsIsPositive(b);
    hide FileName, Earliest, Lasts;
  }

  /** One packet, the first one or a later one. */
  lemma FirstPacket(m: Muxer, p: Packet)
    requires m.current.None? && m.nextSequenceNo == 0
    ensures var m' := OnPacket(m, p);
            && m'.current == Some(FragmentOf(m.streamName, [p], 0)) && m'.nextSequenceNo == 1 && m'.streamName == m.streamName
  {
    FragmentStarts(m.streamName, 0, p);
    hide AppendFragment, FileName, Stamped, FragmentOf;
  }

  lemma NextPacket(m: Muxer, b: Batch, i: nat, p: Packet)
    requires m.current == Some(FragmentOf(m.streamName, b, i)) && m.nextSequenceNo == i + 1
    ensures var m' := OnPacket(m, p);
            && m'.streamName == m.streamName
            && if EndsBefore(b, p) then m'.current == Some(FragmentOf(m.streamName, [p], i + 1)) && m'.nextSequenceNo == i + 2
               else m'.current == Some(FragmentOf(m.streamName, b + [p], i)) && m'.nextSequenceNo == i + 1
  {
    FullIffEnds(m.streamName, b, i, p);
    FragmentStarts(m.streamName, i + 1, p);
    FragmentGrows(m.streamName, b, i, p);
    hide AppendFragment, FileName, Stamped, FragmentOf, Full, EndsBefore;
  }

  lemma SegmentsGrow(streamName: string, batches: seq<Batch>)
    requires batches != []
    ensures var n := |batches| - 1;
            Segments(streamName, batches) == Segments(streamName, batches[..n]) + [SegmentOf(FragmentOf(streamName, batches[n], n))]
  {
    hide FragmentOf;
  }

  /** The muxer is filling the last of the fragments and has handed the others to the window. */
  ghost predicate Fills(m: Muxer, finished: seq<Segment>, streamName: string, batches: seq<Batch>) {
    var n := |batches|;
    && m.nextSequenceNo == n && m.streamName == streamName
    && m.current == (if n == 0 then None else Some(FragmentOf(streamName, batches[n - 1], n - 1)))
    && finished == Segments(streamName, if n == 0 then [] else batches[..n - 1])
  }

  lemma PacketFills(m: Muxer, finished: seq<Segment>, streamName: string, batches: seq<Batch>, p: Packet)
    requires Fills(m, finished, streamName, batches)
    ensures var more := finished + if m.current.Some? && Full(m.current.value, p.isKey) then [SegmentOf(m.current.value)] else [];
            Fills(OnPacket(m, p), more, streamName, WithPacket(batches, p))
  {
    hide OnPacket, Full, EndsBefore, FragmentOf, SegmentOf, Segments;
    if batches == [] {
      FirstPacket(m, p);
      assert finished + [] == finished;
      assert ([] + [[p]])[..0] == [];
    } else {
      var n := |batches| - 1;
      var b := batches[n];
      FullIffEnds(streamName, b, n, p);
      NextPacket(m, b, n, p);
      SegmentsGrow(streamName, batches);
      assert (batches + [[p]])[..n + 1] == batches;
      assert (batches[..n] + [b + [p]])[..n] == batches[..n];
      assert finished + [] == finished;
    }
  }

  lemma NothingFilled(streamName: string)
    ensures Fills(HlsMuxerModel.Init(streamName), [], streamName, [])
  {
  }

  /** Over every run the muxer fills the last fragment of the stream and has handed all before it to the window. */
  lemma {:induction false} RunFillsFragments(streamName: string, packets: seq<Packet>)
    ensures Fills(HlsMuxerModel.After(streamName, packets), Finished(streamName, packets), streamName, InFragments(packets))
  {
    hide Fills, OnPacket, Full, WithPacket;
    if packets == [] {
      NothingFilled(streamName);
    } else {
      var k := |packets| - 1;
      RunFillsFragments(streamName, packets[..k]);
      RunStep(streamName, packets);
      PacketFills(HlsMuxerModel.After(streamName, packets[..k]), Finished(streamName, packets[..k]), streamName,
                  InFragments(packets[..k]), packets[k]);
    }
  }

  // ----- names

  function NumberOf(digits: string): int {
    if digits == [] then 0
    else var k := |digits| - 1; NumberOf(digits[..k]) * 10 + (digits[k] as int - 48)
  }

  /** Digits write the number, and no sign. */
  lemma {:induction false} DigitsWrite(n: nat)
    ensures Digits(n) != [] && NumberOf(Digits(n)) == n && Digits(n)[0] != '-'
  {
    if n < 10 {
      assert Digits(n)[..0] == [];
    } else {
      DigitsWrite(n / 10);
      var k := |Digits(n)| - 1;
      assert Digits(n)[..k] == Digits(n / 10) && Digits(n)[k] as int - 48 == n % 10;
    }
  }

  lemma ToStringTells(a: int, b: int)
    requires ToString(a) == ToString(b)
    ensures a == b
  {
    DigitsWrite(if a < 0 then -a else a);
    DigitsWrite(if b < 0 then -b else b);
    hide Digits, NumberOf;
    if a < 0 && b < 0 {
      assert ToString(a)[1..] == Digits(-a) && ToString(b)[1..] == Digits(-b);
    }
  }

  /** Fragments of a stream that are started at different times have different names. */
  lemma NamesTellTimes(streamName: string, a: int, b: int)
    ensures FileName(streamName, a) == FileName(streamName, b) <==> a == b
  {
    if FileName(streamName, a) == FileName(streamName, b) {
      var from := |streamName| + 1;
      assert FileName(streamName, a)[from..|FileName(streamName, a)| - 3] == ToString(a);
      assert FileName(streamName, b)[from..|FileName(streamName, b)| - 3] == ToString(b);
      ToStringTells(a, b);
    }
  }
}
