/** What `PacketBuffer::FindFrames` (packet_buffer.cpp) computes for codecs other than H.264, stated on the stored packets
    as a map from sequence number to packet, independent of where the ring keeps them, as long as it completes no frame
    whose first packets `ClearTo` has removed. */
module FrameAssembly {
  import opened SequenceNumbers
  import opened PacketRing

  /** All packets before `s` in its frame have arrived. */
  predicate PotentialNewFrame(m: Slots, s: SeqNum) {
    && s in m
    && (m[s].isFirst
        || (var p := Plus(s, -1);
            p in m && m[p].timestamp == m[s].timestamp && m[p].continuous))
  }

  // ----- continuity runs

  /** Packet `j` of a run that starts at `b`: stored, continuous, of one frame, only the first a frame start. */
  ghost predicate RunPacket(m: Slots, b: SeqNum, j: nat) {
    && b in m
    && Plus(b, j) in m
    && m[Plus(b, j)].continuous
    && m[Plus(b, j)].timestamp == m[b].timestamp
    && (m[Plus(b, j)].isFirst <==> j == 0)
  }

  ghost predicate Run(m: Slots, b: SeqNum, n: nat) {
    1 <= n <= 65536 && forall j: nat | j < n :: RunPacket(m, b, j)
  }

  /** A run leads from a frame start to `s`. */
  ghost predicate HasRun(m: Slots, s: SeqNum) {
    exists b: SeqNum, n: nat :: Run(m, b, n) && Plus(b, n - 1) == s
  }

  /** No continuous packet closes a frame yet. */
  ghost predicate Plain(m: Slots) {
    && Keyed(m)
    && (forall s | s in m && m[s].continuous :: !m[s].isLast)
  }

  /** And every one is reached by a run from its frame start. */
  ghost predicate Sound(m: Slots) {
    Plain(m) && forall s {:trigger HasRun(m, s)} | s in m && m[s].continuous :: HasRun(m, s)
  }

  /** Every packet whose predecessors have all arrived is marked, except possibly packet `t`. */
  ghost predicate ClosedExcept(m: Slots, t: SeqNum) {
    forall s {:trigger PotentialNewFrame(m, s)} | PotentialNewFrame(m, s) && s != t :: m[s].continuous
  }

  ghost predicate Closed(m: Slots) {
    forall s {:trigger PotentialNewFrame(m, s)} | PotentialNewFrame(m, s) :: m[s].continuous
  }

  // ----- extraction

  ghost function Keys(b: SeqNum, n: nat): set<SeqNum> {
    set j: nat | j < n :: Plus(b, j)
  }

  /** The handed-out packets, with the boundary flags the code writes on them. */
  ghost function Extract(m: Slots, b: SeqNum, n: nat): (f: Frame)
    requires Run(m, b, n)
    ensures |f| == n
  {
    seq(n, (j: nat) requires j < n =>
      assert RunPacket(m, b, j);
      m[Plus(b, j)].(isFirst := j == 0, isLast := j == n - 1))
  }

  function Marked(m: Slots, s: SeqNum): Slots
    requires s in m
  {
    m[s := m[s].(continuous := true)]
  }

  /** The frame start that leads to `s`, and how many packets lie from there to `s`. */
  ghost function RunTo(m: Slots, s: SeqNum): (r: (SeqNum, nat))
    requires HasRun(m, s)
    ensures Run(m, r.0, r.1) && Plus(r.0, r.1 - 1) == s
  {
    var b: SeqNum, n: nat :| Run(m, b, n) && Plus(b, n - 1) == s;
    (b, n)
  }

  /** The search from `s`, with `n` iterations left, completes a frame that no run leads to: its first packets are gone. */
  ghost predicate CompletesCut(m: Slots, s: SeqNum, n: nat)
    decreases n
  {
    n > 0 && PotentialNewFrame(m, s) &&
    var m1 := Marked(m, s);
    if !m1[s].isLast then CompletesCut(m1, Plus(s, 1), n - 1)
    else if !HasRun(m1, s) then true
    else
      var (b, k) := RunTo(m1, s);
      CompletesCut(m1 - Keys(b, k), Plus(s, 1), n - 1)
  }

  /** The loop of FindFrames from sequence number `s` with `n` iterations left. */
  ghost function FindFrames(m: Slots, s: SeqNum, n: nat): (r: (Slots, seq<Frame>))
    requires !CompletesCut(m, s, n)
    decreases n
  {
    if n == 0 || !PotentialNewFrame(m, s) then (m, [])
    else
      var m1 := Marked(m, s);
      if !m1[s].isLast then FindFrames(m1, Plus(s, 1), n - 1)
      else
        var (b, k) := RunTo(m1, s);
        var rest := FindFrames(m1 - Keys(b, k), Plus(s, 1), n - 1);
        (rest.0, [Extract(m1, b, k)] + rest.1)
  }

  /** Marking a packet whose predecessors have arrived gives it a run and breaks none. */
  lemma MarkedRuns(m: Slots, s: SeqNum)
    requires Sound(m) && PotentialNewFrame(m, s)
    ensures HasRun(Marked(m, s), s)
    ensures forall t | t in m && m[t].continuous :: HasRun(Marked(m, s), t)
    ensures !m[s].isLast ==> Sound(Marked(m, s))
  {
    forall t | t in m && m[t].continuous ensures HasRun(Marked(m, s), t) {
      MarkKeepsRun(m, s, t);
    }
    MarkedHasRun(m, s);
  }

  lemma MarkKeepsRun(m: Slots, s: SeqNum, t: SeqNum)
    requires s in m && HasRun(m, t)
    ensures HasRun(Marked(m, s), t)
  {
    var m1 := Marked(m, s);
    var (b, n) := RunTo(m, t);
    assert forall j: nat | j < n :: RunPacket(m, b, j) ==> RunPacket(m1, b, j);
    assert Run(m1, b, n);
  }

  lemma MarkedHasRun(m: Slots, s: SeqNum)
    requires Sound(m) && PotentialNewFrame(m, s)
    ensures HasRun(Marked(m, s), s)
  {
    hide Plus, Run, RunPacket;
    if m[s].isFirst {
      MarkStartsRun(m, s);
    } else {
      var (b, n) := RunTo(m, Plus(s, -1));
      NextAfter(b, n - 1, s);
      MarkExtendsRun(m, s, b, n);
      assert Plus(b, n + 1 - 1) == s;
    }
  }

  lemma NextAfter(b: SeqNum, j: int, s: SeqNum)
    requires Plus(b, j) == Plus(s, -1)
    ensures Plus(b, j + 1) == s
  {
    PlusTogether(b, j, s, -1, 1);
  }

  lemma MarkStartsRun(m: Slots, s: SeqNum)
    requires s in m && m[s].isFirst
    ensures Run(Marked(m, s), s, 1) && Plus(s, 0) == s
  {
    assert RunPacket(Marked(m, s), s, 0);
  }

  lemma MarkExtendsRun(m: Slots, s: SeqNum, b: SeqNum, n: nat)
    requires s in m && !m[s].isFirst && Run(m, b, n) && Plus(b, n - 1) == Plus(s, -1)
    requires Plus(s, -1) in m && m[Plus(s, -1)].timestamp == m[s].timestamp
    ensures Run(Marked(m, s), b, n + 1)
  {
    NextAfter(b, n - 1, s);
    assert RunPacket(m, b, n - 1) && RunPacket(m, b, 0);
    assert n < 65536;
    forall j: nat | j < n + 1 ensures RunPacket(Marked(m, s), b, j) {
      if j < n {
        assert RunPacket(m, b, j);
      }
    }
  }

  /** No run of another packet passes through a frame that has just been completed. */
  lemma RunsAvoidFrame(m: Slots, s: SeqNum, b: SeqNum, k: nat, b': SeqNum, n': nat, j: nat)
    requires Sound(m) && PotentialNewFrame(m, s) && m[s].isLast
    requires Run(Marked(m, s), b, k) && Plus(b, k - 1) == s
    requires Run(m, b', n') && Plus(b', n' - 1) !in Keys(b, k)
    requires j < n'
    ensures Plus(b', j) !in Keys(b, k)
  {
    hide Plus, HasRun;
    forall i: nat | i < k ensures Plus(b', j) != Plus(b, i) {
      if k - i <= n' - j {
        PlusTogether(b', j, b, i, k - 1 - i);
        assert RunPacket(m, b', j + k - 1 - i);
      } else {
        PlusTogether(b', j, b, i, n' - 1 - j);
        assert Plus(b, i + n' - 1 - j) in Keys(b, k);
      }
    }
  }

  lemma ExtractionKeepsSound(m: Slots, s: SeqNum, b: SeqNum, k: nat)
    requires Sound(m) && PotentialNewFrame(m, s) && m[s].isLast
    requires Run(Marked(m, s), b, k) && Plus(b, k - 1) == s
    ensures Sound(Marked(m, s) - Keys(b, k))
  {
    var m2 := Marked(m, s) - Keys(b, k);
    assert s in Keys(b, k);
    forall t | t in m2 && m2[t].continuous ensures HasRun(m2, t) {
      RunOutsideFrame(m, s, b, k, t);
    }
  }

  lemma RunOutsideFrame(m: Slots, s: SeqNum, b: SeqNum, k: nat, t: SeqNum)
    requires Sound(m) && PotentialNewFrame(m, s) && m[s].isLast
    requires Run(Marked(m, s), b, k) && Plus(b, k - 1) == s
    requires t in m && m[t].continuous && t !in Keys(b, k)
    ensures HasRun(Marked(m, s) - Keys(b, k), t)
  {
    hide Keys, RunPacket;
    var (b', n') := RunTo(m, t);
    forall j: nat | j < n' ensures RunPacket(Marked(m, s) - Keys(b, k), b', j) {
      RunPacketOutsideFrame(m, s, b, k, b', n', j);
    }
    assert Run(Marked(m, s) - Keys(b, k), b', n');
  }

  lemma RunPacketOutsideFrame(m: Slots, s: SeqNum, b: SeqNum, k: nat, b': SeqNum, n': nat, j: nat)
    requires Sound(m) && PotentialNewFrame(m, s) && m[s].isLast
    requires Run(Marked(m, s), b, k) && Plus(b, k - 1) == s
    requires Run(m, b', n') && Plus(b', n' - 1) !in Keys(b, k) && j < n'
    ensures RunPacket(Marked(m, s) - Keys(b, k), b', j)
  {
    RunsAvoidFrame(m, s, b, k, b', n', j);
    RunsAvoidFrame(m, s, b, k, b', n', 0);
    assert RunPacket(m, b', j);
    assert Plus(b', 0) == b';
    hide Keys, Sound, PotentialNewFrame, Run, Plus;
  }

  lemma ExtractionKeepsPlain(m: Slots, s: SeqNum, b: SeqNum, k: nat)
    requires Plain(m) && s in m && k > 0 && Plus(b, k - 1) == s
    ensures Plain(Marked(m, s) - Keys(b, k))
  {
    assert s in Keys(b, k);
  }

  /** One iteration of the search. */
  lemma FindFramesStep(m: Slots, s: SeqNum, n: nat)
    requires Plain(m) && !CompletesCut(m, s, n) && n > 0 && PotentialNewFrame(m, s)
    ensures s in m
    ensures !m[s].isLast ==>
              Plain(Marked(m, s)) && !CompletesCut(Marked(m, s), Plus(s, 1), n - 1)
              && FindFrames(m, s, n) == FindFrames(Marked(m, s), Plus(s, 1), n - 1)
    ensures m[s].isLast ==>
              HasRun(Marked(m, s), s) &&
              var (b, k) := RunTo(Marked(m, s), s);
              var m2 := Marked(m, s) - Keys(b, k);
              Plain(m2) && !CompletesCut(m2, Plus(s, 1), n - 1) &&
              var rest := FindFrames(m2, Plus(s, 1), n - 1);
              FindFrames(m, s, n) == (rest.0, [Extract(Marked(m, s), b, k)] + rest.1)
  {
    if m[s].isLast {
      var (b, k) := RunTo(Marked(m, s), s);
      ExtractionKeepsPlain(m, s, b, k);
    }
  }

  lemma FindFramesStops(m: Slots, s: SeqNum, n: nat)
    requires n == 0 || !PotentialNewFrame(m, s)
    ensures !CompletesCut(m, s, n) && FindFrames(m, s, n) == (m, [])
  {
  }

  /** Where every continuous packet is reached by a run the search completes no cut frame, and it stays so. */
  lemma {:induction false} SoundStaysSound(m: Slots, s: SeqNum, n: nat)
    requires Sound(m)
    ensures !CompletesCut(m, s, n) && Sound(FindFrames(m, s, n).0)
    decreases n
  {
    assert PotentialNewFrame(m, s) ==> s in m;
    hide Sound, HasRun, Run, RunTo, Extract, Keys, PotentialNewFrame, Plain;
    if n != 0 && PotentialNewFrame(m, s) {
      MarkedRuns(m, s);
      if !Marked(m, s)[s].isLast {
        SoundStaysSound(Marked(m, s), Plus(s, 1), n - 1);
      } else {
        var (b, k) := RunTo(Marked(m, s), s);
        ExtractionKeepsSound(m, s, b, k);
        SoundStaysSound(Marked(m, s) - Keys(b, k), Plus(s, 1), n - 1);
      }
    }
  }

  // ----- soundness of what is handed out

  /** The boundary flags written on extraction are the ones the packets carried already. */
  lemma ExtractIsWholeFrame(m: Slots, s: SeqNum, b: SeqNum, k: nat)
    requires Plain(m) && PotentialNewFrame(m, s) && m[s].isLast
    requires Run(Marked(m, s), b, k) && Plus(b, k - 1) == s
    ensures var f := Extract(Marked(m, s), b, k);
            && IsWholeFrame(f)
            && forall i: nat | i < k :: Plus(b, i) in m && f[i] == m[Plus(b, i)].(continuous := true)
  {
    var f := Extract(Marked(m, s), b, k);
    hide Plain, PotentialNewFrame, Extract, Plus, FramePacket;
    forall i: nat | i < k
      ensures FramePacket(f, i)
      ensures Plus(b, i) in m && f[i] == m[Plus(b, i)].(continuous := true)
    {
      ExtractedPacket(m, s, b, k, i);
    }
  }

  lemma ExtractedPacket(m: Slots, s: SeqNum, b: SeqNum, k: nat, i: nat)
    requires Plain(m) && PotentialNewFrame(m, s) && m[s].isLast
    requires Run(Marked(m, s), b, k) && Plus(b, k - 1) == s && i < k
    ensures var f := Extract(Marked(m, s), b, k);
            && FramePacket(f, i)
            && Plus(b, i) in m && f[i] == m[Plus(b, i)].(continuous := true)
  {
    assert RunPacket(Marked(m, s), b, i) && RunPacket(Marked(m, s), b, 0);
    assert Plus(b, 0) == b;
    PlusInjective(b, i, k - 1);
    hide HasRun, PotentialNewFrame, Plus;
  }

  lemma {:induction false} FindFramesSound(m: Slots, s: SeqNum, n: nat)
    requires Plain(m) && !CompletesCut(m, s, n)
    ensures var (m', frames) := FindFrames(m, s, n);
            && Plain(m')
            && forall f | f in frames :: IsWholeFrame(f)
    decreases n
  {
    hide FindFrames, CompletesCut, Plain, HasRun, Run, RunTo, Extract, Keys, IsWholeFrame, PotentialNewFrame;
    if n == 0 || !PotentialNewFrame(m, s) {
      FindFramesStops(m, s, n);
    } else {
      FindFramesStep(m, s, n);
      if !m[s].isLast {
        FindFramesSound(Marked(m, s), Plus(s, 1), n - 1);
      } else {
        var (b, k) := RunTo(Marked(m, s), s);
        ExtractIsWholeFrame(m, s, b, k);
        FindFramesSound(Marked(m, s) - Keys(b, k), Plus(s, 1), n - 1);
      }
    }
  }

  // ----- completeness

  /** Begin to end, contiguous, one timestamp: nothing of this frame is missing. */
  ghost predicate ReceivedFrame(m: Slots, b: SeqNum, n: nat) {
    && n > 0
    && b in m
    && m[b].isFirst
    && (forall j: nat | j < n :: Plus(b, j) in m && m[Plus(b, j)].timestamp == m[b].timestamp)
    && m[Plus(b, n - 1)].isLast
  }

  lemma {:induction false} ReceivedPrefixIsMarked(m: Slots, b: SeqNum, n: nat)
    requires Closed(m) && b in m && m[b].isFirst
    requires forall j: nat | j < n :: Plus(b, j) in m && m[Plus(b, j)].timestamp == m[b].timestamp
    ensures forall j: nat | j < n :: m[Plus(b, j)].continuous
  {
    if n > 0 {
      ReceivedPrefixIsMarked(m, b, n - 1);
      PlusPlus(b, n - 1, -1);
      assert PotentialNewFrame(m, Plus(b, n - 1));
    }
  }

  /** Where the marks are closed, no fully received frame is left. */
  lemma ClosedMeansComplete(m: Slots, b: SeqNum, n: nat)
    requires Plain(m) && Closed(m)
    ensures !ReceivedFrame(m, b, n)
  {
    if ReceivedFrame(m, b, n) {
      ReceivedPrefixIsMarked(m, b, n);
    }
  }

  /** Marking `s`, or taking the frame it completes, leaves at most the next packet unmarked. */
  lemma StepKeepsClosed(m: Slots, s: SeqNum, taken: set<SeqNum>)
    requires PotentialNewFrame(m, s) && ClosedExcept(m, s)
    ensures ClosedExcept(Marked(m, s) - taken, Plus(s, 1))
  {
    var m' := Marked(m, s) - taken;
    forall t | PotentialNewFrame(m', t) && t != Plus(s, 1) ensures m'[t].continuous {
      if t != s {
        assert Plus(t, -1) != s;
        assert PotentialNewFrame(m, t);
      }
    }
  }

  /** With `end` marking where the iteration limit falls, the loop closes all marks. */
  lemma {:induction false} FindFramesCloses(m: Slots, s: SeqNum, n: nat)
    requires Plain(m) && !CompletesCut(m, s, n) && ClosedExcept(m, s)
    requires var end := Plus(s, n); end in m ==> m[end].continuous
    ensures Closed(FindFrames(m, s, n).0)
    decreases n
  {
    if n == 0 || !PotentialNewFrame(m, s) {
      FindFramesStops(m, s, n);
    } else {
      FindFramesStep(m, s, n);
      PlusPlus(s, 1, n - 1);
      hide FindFrames, CompletesCut, Plain, HasRun, Run, Extract, Keys;
      StepKeepsClosed(m, s, {});
      assert Marked(m, s) - {} == Marked(m, s);
      if !m[s].isLast {
        FindFramesCloses(Marked(m, s), Plus(s, 1), n - 1);
      } else {
        var (b, k) := RunTo(Marked(m, s), s);
        StepKeepsClosed(m, s, Keys(b, k));
        FindFramesCloses(Marked(m, s) - Keys(b, k), Plus(s, 1), n - 1);
      }
    }
  }

  /** A ring of `size` slots cannot hold both `s` and the number one lap ahead of it. */
  lemma FindFramesClosesRing(m: Slots, s: SeqNum, size: nat)
    requires Plain(m) && !CompletesCut(m, s, size) && ClosedExcept(m, s) && size > 0
    requires s in m ==> Plus(s, size) == s || Plus(s, size) !in m
    ensures Closed(FindFrames(m, s, size).0)
  {
    hide FindFrames, CompletesCut, Plain, HasRun, Run, Extract, Keys;
    if !PotentialNewFrame(m, s) {
      FindFramesStops(m, s, size);
    } else {
      FindFramesStep(m, s, size);
      PlusPlus(s, 1, size - 1);
      StepKeepsClosed(m, s, {});
      assert Marked(m, s) - {} == Marked(m, s);
      hide PotentialNewFrame, Plus;
      if !m[s].isLast {
        FindFramesCloses(Marked(m, s), Plus(s, 1), size - 1);
      } else {
        var (b, k) := RunTo(Marked(m, s), s);
        StepKeepsClosed(m, s, Keys(b, k));
        FindFramesCloses(Marked(m, s) - Keys(b, k), Plus(s, 1), size - 1);
      }
    }
  }

  /** Where the marks are closed, the loop hands out nothing and changes nothing. */
  lemma {:induction false} FindFramesIdle(m: Slots, s: SeqNum, n: nat)
    requires Plain(m) && Closed(m)
    ensures !CompletesCut(m, s, n) && FindFrames(m, s, n) == (m, [])
    decreases n
  {
    if n != 0 && PotentialNewFrame(m, s) {
      assert Marked(m, s) == m;
      FindFramesIdle(m, Plus(s, 1), n - 1);
    }
  }

  // ----- conservation

  /** A packet without the mark the buffer itself maintains. */
  function Raw(p: Packet): Packet {
    p.(continuous := false)
  }

  ghost function RawSet(m: Slots): set<Packet> {
    set s | s in m :: Raw(m[s])
  }

  ghost function Bag(m: Slots): multiset<Packet> {
    multiset(RawSet(m))
  }

  ghost function FrameBag(f: Frame): multiset<Packet> {
    multiset(seq(|f|, (i: nat) requires i < |f| => Raw(f[i])))
  }

  ghost function FramesBag(frames: seq<Frame>): multiset<Packet> {
    if frames == [] then multiset{} else FrameBag(frames[0]) + FramesBag(frames[1..])
  }

  lemma {:induction false} FramesBagConcat(a: seq<Frame>, b: seq<Frame>)
    ensures FramesBag(a + b) == FramesBag(a) + FramesBag(b)
  {
    if a == [] {
      assert a + b == b;
    } else {
      assert (a + b)[1..] == a[1..] + b;
      FramesBagConcat(a[1..], b);
    }
  }

  lemma RawSetSplit(m: Slots, taken: set<SeqNum>)
    ensures RawSet(m) == RawSet(m - taken) + RawSet(map s | s in m && s in taken :: m[s])
  {
    var rest := m - taken;
    var part := map s | s in m && s in taken :: m[s];
    forall p | p in RawSet(m) ensures p in RawSet(rest) + RawSet(part) {
      var s :| s in m && p == Raw(m[s]);
      if s in taken {
        assert s in part && part[s] == m[s];
      } else {
        assert s in rest && rest[s] == m[s];
      }
    }
  }

  lemma RawSetsDisjoint(m: Slots, taken: set<SeqNum>)
    requires Keyed(m)
    ensures RawSet(m - taken) !! RawSet(map s | s in m && s in taken :: m[s])
  {
    var rest := m - taken;
    forall p | p in RawSet(rest) ensures p !in RawSet(map s | s in m && s in taken :: m[s]) {
      var s :| s in rest && p == Raw(rest[s]);
      assert p.seqNum == s;
    }
  }

  lemma DisjointBags(a: set<Packet>, b: set<Packet>)
    requires a !! b
    ensures multiset(a + b) == multiset(a) + multiset(b)
  {
  }

  /** Splitting the stored packets splits their bag. */
  lemma BagSplit(m: Slots, taken: set<SeqNum>)
    requires Keyed(m)
    ensures Bag(m) == Bag(m - taken) + Bag(map s | s in m && s in taken :: m[s])
  {
    hide RawSet;
    var part := map s | s in m && s in taken :: m[s];
    RawSetSplit(m, taken);
    RawSetsDisjoint(m, taken);
    DisjointBags(RawSet(m - taken), RawSet(part));
  }

  lemma {:induction false} DistinctBag(q: seq<Packet>)
    requires forall i, j | 0 <= i < j < |q| :: q[i] != q[j]
    ensures multiset(q) == multiset(set p | p in q)
  {
    if q == [] {
      assert (set p | p in q) == {};
    } else {
      var k := |q| - 1;
      DistinctBag(q[..k]);
      LastIsNew(q);
      DisjointBags(set p | p in q[..k], {q[k]});
    }
  }

  lemma LastIsNew(q: seq<Packet>)
    requires q != [] && forall i, j | 0 <= i < j < |q| :: q[i] != q[j]
    ensures var k := |q| - 1;
            && multiset(q) == multiset(q[..k]) + multiset{q[k]} && q[k] !in q[..k]
            && (set p | p in q) == (set p | p in q[..k]) + {q[k]}
  {
    var k := |q| - 1;
    assert q == q[..k] + [q[k]];
  }

  /** Marking is invisible to the bag. */
  lemma SameRawSameBag(m: Slots, m': Slots)
    requires m.Keys == m'.Keys
    requires forall t | t in m :: Raw(m[t]) == Raw(m'[t])
    ensures Bag(m) == Bag(m')
  {
    assert RawSet(m) == RawSet(m');
  }

  /** An extracted frame holds exactly the packets at its sequence numbers. */
  lemma FrameBagIsSlots(m: Slots, f: Frame, b: SeqNum, taken: Slots)
    requires Keyed(m) && |f| <= 65536
    requires forall i: nat | i < |f| :: Plus(b, i) in m && f[i] == m[Plus(b, i)].(continuous := true)
    requires taken == map t | t in m && t in Keys(b, |f|) :: m[t]
    ensures FrameBag(f) == Bag(taken)
  {
    var q := seq(|f|, (i: nat) requires i < |f| => Raw(f[i]));
    forall i, j | 0 <= i < j < |q| ensures q[i] != q[j] {
      PlusInjective(b, i, j);
      assert q[i].seqNum == Plus(b, i) && q[j].seqNum == Plus(b, j);
    }
    DistinctBag(q);
    forall p | p in q ensures p in RawSet(taken) {
      var i :| 0 <= i < |q| && q[i] == p;
      assert Plus(b, i) in taken;
    }
    forall p | p in RawSet(taken) ensures p in q {
      var t :| t in taken && p == Raw(taken[t]);
      var i: nat :| i < |f| && t == Plus(b, i);
      assert q[i] == p;
    }
    assert (set p | p in q) == RawSet(taken);
  }

  /** A completed frame is, packet for packet, what leaves the stored packets. */
  lemma ExtractedBag(m: Slots, s: SeqNum, b: SeqNum, k: nat)
    requires Plain(m) && PotentialNewFrame(m, s) && m[s].isLast
    requires Run(Marked(m, s), b, k) && Plus(b, k - 1) == s
    ensures Bag(m) == FrameBag(Extract(Marked(m, s), b, k)) + Bag(Marked(m, s) - Keys(b, k))
  {
    assert s in Keys(b, k);
    hide Extract, HasRun, Keys, IsWholeFrame, Bag, FrameBag, PotentialNewFrame, Plus;
    var f := Extract(Marked(m, s), b, k);
    var taken := map t | t in m && t in Keys(b, k) :: m[t];
    ExtractIsWholeFrame(m, s, b, k);
    BagSplit(m, Keys(b, k));
    FrameBagIsSlots(m, f, b, taken);
    assert Marked(m, s) - Keys(b, k) == m - Keys(b, k);
  }

  /** No packet is lost, duplicated or altered by FindFrames, but for its continuity mark. */
  lemma {:induction false} FindFramesConserves(m: Slots, s: SeqNum, n: nat)
    requires Plain(m) && !CompletesCut(m, s, n)
    ensures var (m', frames) := FindFrames(m, s, n);
            && m'.Keys <= m.Keys
            && (forall t | t in m' :: Raw(m'[t]) == Raw(m[t]))
            && (frames == [] ==> m'.Keys == m.Keys)
            && Bag(m) == Bag(m') + FramesBag(frames)
    decreases n
  {
    hide FindFrames, CompletesCut, Plain, HasRun, Run, RunTo, Extract, Keys, Bag, FrameBag, FramesBag, PotentialNewFrame;
    if n == 0 || !PotentialNewFrame(m, s) {
      FindFramesStops(m, s, n);
      NoFramesNoBag();
    } else {
      FindFramesStep(m, s, n);
      if !m[s].isLast {
        FindFramesConserves(Marked(m, s), Plus(s, 1), n - 1);
        SameRawSameBag(m, Marked(m, s));
      } else {
        var (b, k) := RunTo(Marked(m, s), s);
        ExtractedBag(m, s, b, k);
        FindFramesConserves(Marked(m, s) - Keys(b, k), Plus(s, 1), n - 1);
        FramesBagFirst(Extract(Marked(m, s), b, k), FindFrames(Marked(m, s) - Keys(b, k), Plus(s, 1), n - 1).1);
      }
    }
  }

  lemma NoFramesNoBag()
    ensures FramesBag([]) == multiset{}
  {
  }

  lemma FramesBagFirst(f: Frame, frames: seq<Frame>)
    ensures FramesBag([f] + frames) == FrameBag(f) + FramesBag(frames)
  {
    assert ([f] + frames)[1..] == frames;
  }
}
