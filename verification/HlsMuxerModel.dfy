/** The muxer of chls_muxer.cpp as a state machine: a fragment that grows with each packet, is handed to the window
    when it is long enough, and is followed by the next. */
module HlsMuxerModel {
  import opened HlsWindow
  import opened Options

  /** What a packet adds to a fragment: the encoder stamps it with a time unless it carries no picture or sound.
      `now` is the system time that a fragment started by this packet is named after. */
  datatype Packet = Packet(isKey: bool, stamp: Option<int>, now: int)

  /** The fragment being filled. `start` is -1 before the first time stamp. */
  datatype Current = Current(sequenceNo: int, name: string, start: int, duration: nat)

  datatype Muxer = Muxer(streamName: string, window: Window, current: Option<Current>, nextSequenceNo: int)

  const MIN_FRAGMENT_SIZE: nat := 3000
  const MAX_FRAGMENT_SIZE: nat := 12000

  function Digits(n: nat): string {
    if n < 10 then [(n + 48) as char] else Digits(n / 10) + [(n % 10 + 48) as char]
  }

  function ToString(n: int): string {
    if n < 0 then "-" + Digits(-n) else Digits(n)
  }

  /** The file name of a fragment started at a time. */
  function FileName(streamName: string, now: int): string {
    streamName + "_" + ToString(now) + ".ts"
  }

  /** The start moves back to the earliest time stamp, and the duration is that of the latest. */
  function Stamped(c: Current, stamp: int): Current {
    var first := if c.start == -1 then stamp else c.start;
    var start := if stamp < first then stamp else first;
    c.(start := start, duration := stamp - start)
  }

  predicate Full(c: Current, isKey: bool) {
    (isKey && c.duration >= MIN_FRAGMENT_SIZE) || c.duration >= MAX_FRAGMENT_SIZE
  }

  function SegmentOf(c: Current): Segment {
    Segment(c.sequenceNo, c.name, c.duration)
  }

  /** The full fragment goes to the window. */
  function Flushed(m: Muxer, p: Packet): Muxer {
    if m.current.Some? && Full(m.current.value, p.isKey) then
      m.(window := AppendFragment(m.window, SegmentOf(m.current.value)), current := None)
    else m
  }

  function Started(m: Muxer, p: Packet): Muxer {
    if m.current.Some? then m
    else
      m.(current := Some(Current(m.nextSequenceNo, FileName(m.streamName, p.now), -1, 0)),
         nextSequenceNo := m.nextSequenceNo + 1)
  }

  function Encoded(m: Muxer, p: Packet): Muxer {
    if m.current.Some? && p.stamp.Some? then m.(current := Some(Stamped(m.current.value, p.stamp.value))) else m
  }

  function OnPacket(m: Muxer, p: Packet): Muxer {
    Encoded(Started(Flushed(m, p), p), p)
  }

  function Init(streamName: string): Muxer {
    Muxer(streamName, Window(PLAYLIST_LENGTH, [], None), None, 0)
  }

  function After(streamName: string, packets: seq<Packet>): Muxer {
    if packets == [] then Init(streamName)
    else OnPacket(After(streamName, packets[..|packets| - 1]), packets[|packets| - 1])
  }

  /** The fragments that a run has handed to the window, in order. */
  function Finished(streamName: string, packets: seq<Packet>): seq<Segment> {
    if packets == [] then []
    else
      var k := |packets| - 1;
      var m := After(streamName, packets[..k]);
      Finished(streamName, packets[..k])
      + if m.current.Some? && Full(m.current.value, packets[k].isKey) then [SegmentOf(m.current.value)] else []
  }

  // ----- every run

  /** The window is what appending the finished fragments makes it; they are numbered from 0, the current fragment
      follows them, and none is shorter than the minimum. */
  ghost predicate Tracks(streamName: string, packets: seq<Packet>) {
    var m, finished := After(streamName, packets), Finished(streamName, packets);
    && m.window == HlsWindow.After(PLAYLIST_LENGTH, finished)
    && Consecutive(finished, 0)
    && m.nextSequenceNo == |finished| + (if m.current.Some? then 1 else 0)
    && (m.current.Some? ==> m.current.value.sequenceNo == |finished|)
    && forall s | s in finished :: s.duration >= MIN_FRAGMENT_SIZE
  }

  lemma OneMoreFinished(finished: seq<Segment>, s: Segment)
    requires Consecutive(finished, 0) && s.sequenceNo == |finished|
    ensures Consecutive(finished + [s], 0)
    ensures HlsWindow.After(PLAYLIST_LENGTH, finished + [s]) == AppendFragment(HlsWindow.After(PLAYLIST_LENGTH, finished), s)
  {
    hide AppendFragment;
    assert (finished + [s])[..|finished|] == finished;
  }

  /** What a packet does to the window and to the numbering. */
  lemma OnPacketEffect(m: Muxer, p: Packet)
    ensures var m' := OnPacket(m, p);
            var full := m.current.Some? && Full(m.current.value, p.isKey);
            && m'.window == (if full then AppendFragment(m.window, SegmentOf(m.current.value)) else m.window)
            && m'.current.Some?
            && (if m.current.Some? && !full then
                  m'.nextSequenceNo == m.nextSequenceNo && m'.current.value.sequenceNo == m.current.value.sequenceNo
                else
                  m'.nextSequenceNo == m.nextSequenceNo + 1 && m'.current.value.sequenceNo == m.nextSequenceNo)
  {
    hide AppendFragment, FileName, Full;
  }

  lemma RunStep(streamName: string, packets: seq<Packet>)
    requires packets != []
    ensures var k := |packets| - 1;
            var m := After(streamName, packets[..k]);
            && After(streamName, packets) == OnPacket(m, packets[k])
            && Finished(streamName, packets)
               == Finished(streamName, packets[..k])
                  + if m.current.Some? && Full(m.current.value, packets[k].isKey) then [SegmentOf(m.current.value)] else []
  {
    hide OnPacket, Full;
  }

  lemma NothingFinished(streamName: string)
    ensures Tracks(streamName, [])
  {
  }

  lemma {:induction false} RunTracks(streamName: string, packets: seq<Packet>)
    ensures Tracks(streamName, packets)
  {
    hide AppendFragment, Consecutive, HlsWindow.After, After, Finished, OnPacket;
    if packets == [] {
      NothingFinished(streamName);
    } else {
      var k := |packets| - 1;
      RunTracks(streamName, packets[..k]);
      var m, finished := After(streamName, packets[..k]), Finished(streamName, packets[..k]);
      RunStep(streamName, packets);
      OnPacketEffect(m, packets[k]);
      if m.current.Some? && Full(m.current.value, packets[k].isKey) {
        OneMoreFinished(finished, SegmentOf(m.current.value));
      } else {
        assert finished + [] == finished;
      }
    }
  }

  /** Whatever packets arrive, the playlist only names fragments that can be fetched, also while a fragment is
      being appended. */
  lemma PlaylistIsServed(streamName: string, packets: seq<Packet>, s: Segment)
    ensures var w := After(streamName, packets).window;
            Agrees(w) && Agrees(Append(w, s)) && Agrees(Shrink(Append(w, s)))
  {
    RunTracks(streamName, packets);
    AgreesAtEveryBoundary(PLAYLIST_LENGTH, Finished(streamName, packets), s);
  }

  /** With each packet the media sequence number stays or goes up by one, and the first playlist starts at 0. */
  lemma MediaSequenceOverRun(streamName: string, packets: seq<Packet>, p: Packet)
    ensures var before, after := After(streamName, packets).window.playlist, After(streamName, packets + [p]).window.playlist;
            && (before.Some? ==>
                  after.Some? && before.value.mediaSequence <= after.value.mediaSequence <= before.value.mediaSequence + 1)
            && (before.None? && after.Some? ==> after.value.mediaSequence == 0)
  {
    var longer := packets + [p];
    assert longer[..|packets|] == packets;
    RunTracks(streamName, packets);
    RunTracks(streamName, longer);
    var m, finished := After(streamName, packets), Finished(streamName, packets);
    if m.current.Some? && Full(m.current.value, p.isKey) {
      assert Finished(streamName, longer) == finished + [SegmentOf(m.current.value)];
      MediaSequenceAdvances(PLAYLIST_LENGTH, finished, SegmentOf(m.current.value), 0);
    } else {
      assert Finished(streamName, longer) == finished + [] == finished;
    }
  }
}
