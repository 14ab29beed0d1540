/** The order in which packets arrive does not matter: which packets are handed out, and which stay stored
    with which marks, depends only on the set of packets inserted. */
module ArrivalOrder {
  import opened SequenceNumbers
  import opened PacketRing
  import opened FrameAssembly
  import opened PacketBufferModel

  /** Inserting packets one by one; stops making sense once the buffer overflows, so that is excluded. */
  ghost predicate NoOverflow(st: State, ps: seq<Packet>)
    requires Placed(st)
    decreases |ps|
  {
    ps == []
    || (!InsertPacket(st, ps[0]).1.bufferCleared
        && (InsertPacketKeepsPlaced(st, ps[0]); NoOverflow(InsertPacket(st, ps[0]).0, ps[1..])))
  }

  ghost function InsertAll(st: State, ps: seq<Packet>): (r: (State, seq<Frame>))
    requires Placed(st)
    decreases |ps|
  {
    if ps == [] then (st, [])
    else
      InsertPacketKeepsPlaced(st, ps[0]);
      var (st', out) := InsertPacket(st, ps[0]);
      var rest := InsertAll(st', ps[1..]);
      (rest.0, out.frames + rest.1)
  }

  ghost function RawMap(m: Slots): Slots {
    map t | t in m :: Raw(m[t])
  }

  ghost predicate HandedOut(frames: seq<Frame>, s: SeqNum) {
    exists i, j :: 0 <= i < |frames| && 0 <= j < |frames[i]| && frames[i][j].seqNum == s
  }

  /** Everything inserted so far, `all`, is either stored or in a whole frame handed out. */
  ghost predicate Accounted(m: Slots, frames: seq<Frame>, all: Slots) {
    && (forall s | s in m :: s in all && Raw(m[s]) == all[s] && !HandedOut(frames, s))
    && (forall s | s in all :: s in m || HandedOut(frames, s))
    && (forall i | 0 <= i < |frames| :: IsWholeFrame(frames[i]))
    && (forall i, j | 0 <= i < |frames| && 0 <= j < |frames[i]| ::
          frames[i][j].seqNum in all && Raw(frames[i][j]) == all[frames[i][j].seqNum])
  }

  lemma HandedOutConcat(a: seq<Frame>, b: seq<Frame>, s: SeqNum)
    ensures HandedOut(a + b, s) <==> HandedOut(a, s) || HandedOut(b, s)
  {
    var c: seq<Frame> := a + b;
    if i, j :| 0 <= i < |a| && 0 <= j < |a[i]| && a[i][j].seqNum == s {
      assert c[i][j].seqNum == s;
    }
    if i, j :| 0 <= i < |b| && 0 <= j < |b[i]| && b[i][j].seqNum == s {
      assert c[|a| + i][j].seqNum == s;
    }
    if i, j :| 0 <= i < |c| && 0 <= j < |c[i]| && c[i][j].seqNum == s {
      if i < |a| {
        assert a[i][j].seqNum == s;
      } else {
        assert b[i - |a|][j].seqNum == s;
      }
    }
  }

  /** FindFrames splits the stored packets into those that stay and those handed out. */
  lemma {:induction false} FindFramesAccounted(m: Slots, s: SeqNum, n: nat)
    requires Plain(m) && !CompletesCut(m, s, n)
    ensures var (m', frames) := FindFrames(m, s, n);
            Accounted(m', frames, RawMap(m))
    decreases n
  {
    hide FindFrames, CompletesCut, Plain, HasRun, Run, RunTo, Extract, Keys, PotentialNewFrame, Accounted, RawMap;
    if n == 0 || !PotentialNewFrame(m, s) {
      FindFramesStops(m, s, n);
      NothingHandedOut(m);
    } else {
      FindFramesStep(m, s, n);
      if !m[s].isLast {
        FindFramesAccounted(Marked(m, s), Plus(s, 1), n - 1);
        MarkKeepsRaw(m, s);
      } else {
        var (b, k) := RunTo(Marked(m, s), s);
        FindFramesAccounted(Marked(m, s) - Keys(b, k), Plus(s, 1), n - 1);
        var (m', frames) := FindFrames(Marked(m, s) - Keys(b, k), Plus(s, 1), n - 1);
        CompletionAccounted(m, s, b, k, m', frames);
      }
    }
  }

  lemma NothingHandedOut(m: Slots)
    ensures Accounted(m, [], RawMap(m))
  {
  }

  lemma MarkKeepsRaw(m: Slots, s: SeqNum)
    requires s in m
    ensures RawMap(Marked(m, s)) == RawMap(m)
  {
  }

  lemma CompletionAccounted(m: Slots, s: SeqNum, b: SeqNum, k: nat, m': Slots, frames: seq<Frame>)
    requires Plain(m) && PotentialNewFrame(m, s) && m[s].isLast
    requires Run(Marked(m, s), b, k) && Plus(b, k - 1) == s
    requires Accounted(m', frames, RawMap(Marked(m, s) - Keys(b, k)))
    ensures Accounted(m', [Extract(Marked(m, s), b, k)] + frames, RawMap(m))
  {
    ExtractIsWholeFrame(m, s, b, k);
    hide Sound, PotentialNewFrame, Run, Extract, Accounted, IsWholeFrame, Keys;
    var f := Extract(Marked(m, s), b, k);
    assert RawMap(Marked(m, s) - Keys(b, k)) == RawMap(m) - Keys(b, k);
    FirstOfFrame(f, m, b);
    FrameFirstAccounted(f, b, m', frames, RawMap(Marked(m, s) - Keys(b, k)), RawMap(m));
  }

  lemma FirstOfFrame(f: Frame, m: Slots, b: SeqNum)
    requires f != [] && Keyed(m)
    requires forall i: nat | i < |f| :: Plus(b, i) in m && f[i] == m[Plus(b, i)].(continuous := true)
    ensures f[0].seqNum == b
    ensures forall i: nat | i < |f| :: Plus(b, i) in RawMap(m) && Raw(f[i]) == RawMap(m)[Plus(b, i)]
  {
    assert Plus(b, 0) == b;
  }

  lemma FrameFirstAccounted(f: Frame, b: SeqNum, m: Slots, frames: seq<Frame>, rest: Slots, all: Slots)
    requires IsWholeFrame(f) && f[0].seqNum == b && Accounted(m, frames, rest)
    requires forall i: nat | i < |f| :: Plus(b, i) in all && Raw(f[i]) == all[Plus(b, i)]
    requires rest == all - Keys(b, |f|)
    ensures Accounted(m, [f] + frames, all)
  {
    hide HandedOut, Keys;
    var fs: seq<Frame> := [f] + frames;
    FrameHandsOut(f);
    forall s ensures HandedOut(fs, s) <==> s in Keys(b, |f|) || HandedOut(frames, s) {
      HandedOutConcat([f], frames, s);
    }
    forall i, j | 0 <= i < |fs| && 0 <= j < |fs[i]|
      ensures fs[i][j].seqNum in all && Raw(fs[i][j]) == all[fs[i][j].seqNum]
    {
      if i == 0 {
        assert f[j].seqNum == Plus(b, j);
      } else {
        assert fs[i][j] == frames[i - 1][j];
      }
    }
  }

  /** A whole frame hands out exactly its run of sequence numbers. */
  lemma FrameHandsOut(f: Frame)
    requires IsWholeFrame(f)
    ensures forall s :: HandedOut([f], s) <==> s in Keys(f[0].seqNum, |f|)
    ensures forall j | 0 <= j < |f| :: f[j].seqNum == Plus(f[0].seqNum, j)
  {
    var b := f[0].seqNum;
    forall j: nat | j < |f| ensures f[j].seqNum == Plus(b, j) {
      assert FramePacket(f, j);
    }
    forall s ensures HandedOut([f], s) <==> s in Keys(b, |f|) {
      if s in Keys(b, |f|) {
        var j: nat :| j < |f| && s == Plus(b, j);
        assert FramePacket(f, j);
        assert [f][0][j].seqNum == s;
      }
      if i, j :| 0 <= i < |[f]| && 0 <= j < |[f][i]| && [f][i][j].seqNum == s {
        assert FramePacket(f, j);
      }
    }
  }

  lemma AccountedCompose(m: Slots, frames: seq<Frame>, mid: Slots, before: seq<Frame>, all: Slots)
    requires Accounted(mid, before, all)
    requires Accounted(m, frames, RawMap(mid))
    ensures Accounted(m, before + frames, all)
  {
    var fs: seq<Frame> := before + frames;
    forall s ensures HandedOut(fs, s) <==> HandedOut(before, s) || HandedOut(frames, s) {
      HandedOutConcat(before, frames, s);
    }
    forall s | HandedOut(frames, s) ensures s in mid {
      var i, j :| 0 <= i < |frames| && 0 <= j < |frames[i]| && frames[i][j].seqNum == s;
    }
    forall i, j | 0 <= i < |fs| && 0 <= j < |fs[i]|
      ensures fs[i][j].seqNum in all && Raw(fs[i][j]) == all[fs[i][j].seqNum]
    {
      if i >= |before| {
        assert fs[i][j] == frames[i - |before|][j];
      }
    }
  }

  /** What has been inserted, by sequence number. */
  function AllOf(ps: seq<Packet>): Slots {
    if ps == [] then map[] else AllOf(ps[..|ps| - 1])[ps[|ps| - 1].seqNum := Raw(ps[|ps| - 1])]
  }

  ghost predicate Distinct(ps: seq<Packet>) {
    forall i, j | 0 <= i < j < |ps| :: ps[i].seqNum != ps[j].seqNum
  }

  ghost predicate NoneOfH264(ps: seq<Packet>) {
    forall i | 0 <= i < |ps| :: !ps[i].h264
  }

  lemma {:induction false} AllOfHas(ps: seq<Packet>)
    requires Distinct(ps)
    ensures forall i | 0 <= i < |ps| :: ps[i].seqNum in AllOf(ps) && AllOf(ps)[ps[i].seqNum] == Raw(ps[i])
    ensures forall s | s in AllOf(ps) :: exists i :: 0 <= i < |ps| && ps[i].seqNum == s
  {
    if ps != [] {
      var rest, last := ps[..|ps| - 1], ps[|ps| - 1];
      AllOfHas(rest);
      assert AllOf(ps) == AllOf(rest)[last.seqNum := Raw(last)];
      hide AllOf, Raw;
      forall i | 0 <= i < |ps| ensures ps[i].seqNum in AllOf(ps) && AllOf(ps)[ps[i].seqNum] == Raw(ps[i]) {
        assert i < |rest| ==> ps[i] == rest[i];
      }
      forall s | s in AllOf(ps) ensures exists i :: 0 <= i < |ps| && ps[i].seqNum == s {
        if s in AllOf(rest) {
          var i :| 0 <= i < |rest| && rest[i].seqNum == s;
          assert ps[i].seqNum == s;
        } else {
          assert ps[|ps| - 1].seqNum == s;
        }
      }
    }
  }

  lemma InsertAccounted(st: State, p: Packet, frames: seq<Frame>, all: Slots)
    requires Uncut(st) && !p.h264 && !st.cleared && !InsertPacket(st, p).1.bufferCleared
    requires Accounted(st.slots, frames, all) && p.seqNum !in all
    ensures var (st', out) := InsertPacket(st, p);
            !st'.cleared && Accounted(st'.slots, frames + out.frames, all[p.seqNum := Raw(p)])
  {
    InsertPacketCases(st, p);
    InsertPacketKeepsUncut(st, p);
    InsertPacketStores(st, p);
    var m := Stored(st, p).slots;
    StoredAccounted(st.slots, p, frames, all);
    FindFramesAccounted(m, p.seqNum, NewSize(st, p.seqNum));
    var (st', out) := InsertPacket(st, p);
    AccountedCompose(st'.slots, out.frames, m, frames, all[p.seqNum := Raw(p)]);
  }

  lemma StoredAccounted(m: Slots, p: Packet, frames: seq<Frame>, all: Slots)
    requires Accounted(m, frames, all) && p.seqNum !in all
    ensures Accounted(m[p.seqNum := p.(continuous := false)], frames, all[p.seqNum := Raw(p)])
  {
    assert !HandedOut(frames, p.seqNum);
  }

  /** The packets of `total` before position `k` have been inserted. */
  ghost predicate OnTheWay(st: State, total: seq<Packet>, k: nat, frames: seq<Frame>)
    requires k <= |total|
  {
    Uncut(st) && !st.cleared && NoOverflow(st, total[k..]) && Accounted(st.slots, frames, AllOf(total[..k]))
  }

  lemma {:induction false} InsertAllAccounted(st: State, total: seq<Packet>, k: nat, frames: seq<Frame>)
    requires k <= |total| && Distinct(total) && NoneOfH264(total) && OnTheWay(st, total, k, frames)
    ensures var (st', more) := InsertAll(st, total[k..]);
            Uncut(st') && Accounted(st'.slots, frames + more, AllOf(total))
    decreases |total| - k
  {
    if k == |total| {
      assert total[..k] == total;
      assert frames + [] == frames;
    } else {
      var (st', out) := InsertPacket(st, total[k]);
      InsertNext(st, total, k, frames);
      InsertAllAccounted(st', total, k + 1, frames + out.frames);
    }
  }

  lemma InsertNext(st: State, total: seq<Packet>, k: nat, frames: seq<Frame>)
    requires k < |total| && Distinct(total) && NoneOfH264(total) && OnTheWay(st, total, k, frames)
    ensures var (st', out) := InsertPacket(st, total[k]);
            && OnTheWay(st', total, k + 1, frames + out.frames)
            && InsertAll(st, total[k..]).0 == InsertAll(st', total[k + 1..]).0
            && frames + InsertAll(st, total[k..]).1 == (frames + out.frames) + InsertAll(st', total[k + 1..]).1
  {
    NextIsNew(total, k);
    InsertAllStep(st, total[k..]);
    InsertAccounted(st, total[k], frames, AllOf(total[..k]));
    var (st', out) := InsertPacket(st, total[k]);
    Associative(frames, out.frames, InsertAll(st', total[k + 1..]).1);
  }

  lemma Associative(a: seq<Frame>, b: seq<Frame>, c: seq<Frame>)
    ensures a + (b + c) == (a + b) + c
  {
  }

  lemma InsertAllStep(st: State, ps: seq<Packet>)
    requires Uncut(st) && NoOverflow(st, ps) && ps != [] && !ps[0].h264
    ensures var (st', out) := InsertPacket(st, ps[0]);
            && Uncut(st') && NoOverflow(st', ps[1..]) && !out.bufferCleared
            && InsertAll(st, ps).0 == InsertAll(st', ps[1..]).0
            && InsertAll(st, ps).1 == out.frames + InsertAll(st', ps[1..]).1
  {
    InsertPacketKeepsUncut(st, ps[0]);
  }

  lemma NextIsNew(total: seq<Packet>, k: nat)
    requires k < |total| && Distinct(total)
    ensures total[k].seqNum !in AllOf(total[..k])
    ensures AllOf(total[..k + 1]) == AllOf(total[..k])[total[k].seqNum := Raw(total[k])]
    ensures total[k..][0] == total[k] && total[k..][1..] == total[k + 1..]
  {
    AllOfHas(total[..k]);
    assert total[..k + 1][..k] == total[..k];
  }

  // ----- what is handed out, from the set of packets alone

  /** A whole frame among all packets inserted. */
  ghost predicate WholeFrameAt(all: Slots, b: SeqNum, n: nat) {
    1 <= n <= 65536 && b in all && forall j: nat | j < n :: WholeFramePacket(all, b, n, j)
  }

  ghost predicate WholeFramePacket(all: Slots, b: SeqNum, n: nat, j: nat)
    requires b in all
  {
    && Plus(b, j) in all
    && all[Plus(b, j)].timestamp == all[b].timestamp
    && (all[Plus(b, j)].isFirst <==> j == 0)
    && (all[Plus(b, j)].isLast <==> j == n - 1)
  }

  ghost predicate InWholeFrame(all: Slots, s: SeqNum) {
    exists b: SeqNum, n: nat :: WholeFrameAt(all, b, n) && s in Keys(b, n)
  }

  /** Two whole frames that share a packet are the same. */
  lemma WholeFramesAgree(all: Slots, b: SeqNum, n: nat, i: nat, b': SeqNum, n': nat, j: nat)
    requires WholeFrameAt(all, b, n) && WholeFrameAt(all, b', n') && i < n && j < n'
    requires Plus(b, i) == Plus(b', j)
    ensures b == b' && n == n'
  {
    var d := if i <= j then i else j;
    assert WholeFramePacket(all, b, n, i - d) && WholeFramePacket(all, b', n', j - d);
    assert WholeFramePacket(all, b, n, 0) && WholeFramePacket(all, b', n', 0);
    PlusTogether(b, i, b', j, 0 - d);
    var e := if n <= n' then n - 1 else n' - 1;
    assert WholeFramePacket(all, b, n, e) && WholeFramePacket(all, b', n', e);
  }

  lemma HandedFrameIsWhole(m: Slots, frames: seq<Frame>, all: Slots, i: nat)
    requires Accounted(m, frames, all) && i < |frames|
    ensures WholeFrameAt(all, frames[i][0].seqNum, |frames[i]|)
    ensures forall j | 0 <= j < |frames[i]| :: frames[i][j].seqNum == Plus(frames[i][0].seqNum, j)
  {
    var f := frames[i];
    var b := f[0].seqNum;
    assert IsWholeFrame(f);
    assert Raw(frames[i][0]) == all[b];
    forall j: nat | j < |f| ensures f[j].seqNum == Plus(b, j) && WholeFramePacket(all, b, |f|, j) {
      assert FramePacket(f, j);
      assert Raw(frames[i][j]) == all[frames[i][j].seqNum];
    }
  }

  /** A packet has been handed out exactly when all inserted packets contain its whole frame. */
  lemma HandedOutIffWhole(m: Slots, frames: seq<Frame>, all: Slots, s: SeqNum)
    requires Plain(m) && Closed(m) && Accounted(m, frames, all)
    ensures HandedOut(frames, s) <==> InWholeFrame(all, s)
  {
    if HandedOut(frames, s) {
      var i, j :| 0 <= i < |frames| && 0 <= j < |frames[i]| && frames[i][j].seqNum == s;
      HandedFrameIsWhole(m, frames, all, i);
      var jn: nat := j;
      assert s in Keys(frames[i][0].seqNum, |frames[i]|);
    }
    if InWholeFrame(all, s) {
      var b: SeqNum, n: nat :| WholeFrameAt(all, b, n) && s in Keys(b, n);
      SomePacketHandedOut(m, frames, all, b, n);
      var k: nat :| k < n && HandedOut(frames, Plus(b, k));
      var i, j :| 0 <= i < |frames| && 0 <= j < |frames[i]| && frames[i][j].seqNum == Plus(b, k);
      HandedFrameIsWhole(m, frames, all, i);
      WholeFramesAgree(all, b, n, k, frames[i][0].seqNum, |frames[i]|, j);
      var l: nat :| l < n && s == Plus(b, l);
      assert frames[i][l].seqNum == s;
    }
  }

  /** A whole frame all of which is stored is one received in full. */
  lemma StoredFrameIsReceived(m: Slots, frames: seq<Frame>, all: Slots, b: SeqNum, n: nat)
    requires Accounted(m, frames, all) && WholeFrameAt(all, b, n)
    requires forall k: nat | k < n :: Plus(b, k) in m
    ensures ReceivedFrame(m, b, n)
  {
    assert Plus(b, 0) == b;
    assert b in m && Raw(m[b]) == all[b];
    forall k: nat | k < n
      ensures Raw(m[Plus(b, k)]) == all[Plus(b, k)] && WholeFramePacket(all, b, n, k)
    {
      assert Plus(b, k) in m;
      assert WholeFramePacket(all, b, n, k);
    }
    hide HandedOut, WholeFrameAt;
  }

  lemma SomePacketHandedOut(m: Slots, frames: seq<Frame>, all: Slots, b: SeqNum, n: nat)
    requires Plain(m) && Closed(m) && Accounted(m, frames, all) && WholeFrameAt(all, b, n)
    ensures exists k: nat :: k < n && HandedOut(frames, Plus(b, k))
  {
    ClosedMeansComplete(m, b, n);
    if forall k: nat | k < n :: Plus(b, k) in m {
      StoredFrameIsReceived(m, frames, all, b, n);
    } else {
      var k: nat :| k < n && Plus(b, k) !in m;
      assert WholeFramePacket(all, b, n, k);
    }
  }

  /** In reachable states the marks follow from the packets. */
  lemma MarksDetermined(m1: Slots, m2: Slots)
    requires Sound(m1) && Closed(m1) && Sound(m2) && Closed(m2) && RawMap(m1) == RawMap(m2)
    ensures m1 == m2
  {
    assert m1.Keys == RawMap(m1).Keys == RawMap(m2).Keys == m2.Keys;
    forall s | s in m1 ensures m1[s] == m2[s] {
      assert Raw(m1[s]) == RawMap(m1)[s] == RawMap(m2)[s] == Raw(m2[s]);
      if m1[s].continuous {
        MarkCarriesOver(m1, m2, s);
      }
      if m2[s].continuous {
        MarkCarriesOver(m2, m1, s);
      }
    }
  }

  lemma MarkCarriesOver(m1: Slots, m2: Slots, s: SeqNum)
    requires Sound(m1) && Closed(m2) && RawMap(m1) == RawMap(m2) && s in m1 && m1[s].continuous
    ensures s in m2 && m2[s].continuous
  {
    var (b, n) := RunTo(m1, s);
    assert m1.Keys == RawMap(m1).Keys == RawMap(m2).Keys == m2.Keys;
    forall j: nat | j < n ensures b in m2 && Plus(b, j) in m2 && m2[Plus(b, j)].timestamp == m2[b].timestamp && m2[b].isFirst {
      assert RunPacket(m1, b, j) && RunPacket(m1, b, 0);
      assert Raw(m1[Plus(b, j)]) == RawMap(m1)[Plus(b, j)] == Raw(m2[Plus(b, j)]);
      assert Raw(m1[b]) == RawMap(m1)[b] == Raw(m2[b]);
    }
    assert Plus(b, 0) in m2;
    ReceivedPrefixIsMarked(m2, b, n);
  }

  lemma SameAllOf(ps: seq<Packet>, qs: seq<Packet>)
    requires Distinct(ps) && Distinct(qs) && (forall p :: p in ps <==> p in qs)
    ensures AllOf(ps) == AllOf(qs)
  {
    AllOfHas(ps);
    AllOfHas(qs);
    hide AllOf, Distinct;
    forall s | s in AllOf(ps) ensures s in AllOf(qs) && AllOf(ps)[s] == AllOf(qs)[s] {
      var i :| 0 <= i < |ps| && ps[i].seqNum == s;
      assert ps[i] in qs;
    }
    forall s | s in AllOf(qs) ensures s in AllOf(ps) {
      var i :| 0 <= i < |qs| && qs[i].seqNum == s;
      assert qs[i] in ps;
    }
  }

  /** What is accounted for determines what is handed out and what is stored. */
  lemma OutcomeDetermined(m1: Slots, frames1: seq<Frame>, m2: Slots, frames2: seq<Frame>, all: Slots)
    requires Sound(m1) && Closed(m1) && Accounted(m1, frames1, all)
    requires Sound(m2) && Closed(m2) && Accounted(m2, frames2, all)
    ensures m1 == m2
    ensures forall s :: (HandedOut(frames1, s) <==> InWholeFrame(all, s)) && (HandedOut(frames2, s) <==> InWholeFrame(all, s))
  {
    forall s ensures (HandedOut(frames1, s) <==> InWholeFrame(all, s)) && (HandedOut(frames2, s) <==> InWholeFrame(all, s)) {
      HandedOutIffWhole(m1, frames1, all, s);
      HandedOutIffWhole(m2, frames2, all, s);
    }
    forall s ensures s in m1 <==> s in m2 {
    }
    assert RawMap(m1) == RawMap(m2);
    MarksDetermined(m1, m2);
  }

  lemma SameCodecs(ps: seq<Packet>, qs: seq<Packet>)
    requires NoneOfH264(ps) && forall p :: p in ps <==> p in qs
    ensures NoneOfH264(qs)
  {
    forall i | 0 <= i < |qs| ensures !qs[i].h264 {
      assert qs[i] in ps;
    }
  }

  lemma FromEmpty(size: nat, maxSize: nat, ps: seq<Packet>)
    requires ValidSizes(size, maxSize) && Distinct(ps) && NoneOfH264(ps) && NoOverflow(Init(size, maxSize), ps)
    ensures var (st, frames) := InsertAll(Init(size, maxSize), ps);
            Uncut(st) && Accounted(st.slots, frames, AllOf(ps))
  {
    var frames := InsertAll(Init(size, maxSize), ps).1;
    assert ps[0..] == ps && ps[..0] == [] && [] + frames == frames;
    InsertAllAccounted(Init(size, maxSize), ps, 0, []);
  }

  /** Two arrival orders of the same packets hand out the same packets and leave the same ones stored,
      with the same marks, whatever the ring sizes, as long as neither ring overflows. */
  lemma ArrivalOrderIsIrrelevant(size1: nat, max1: nat, ps: seq<Packet>, size2: nat, max2: nat, qs: seq<Packet>)
    requires ValidSizes(size1, max1) && ValidSizes(size2, max2)
    requires Distinct(ps) && NoneOfH264(ps) && Distinct(qs) && (forall p :: p in ps <==> p in qs)
    requires NoOverflow(Init(size1, max1), ps) && NoOverflow(Init(size2, max2), qs)
    ensures var (st1, frames1) := InsertAll(Init(size1, max1), ps);
            var (st2, frames2) := InsertAll(Init(size2, max2), qs);
            && st1.slots == st2.slots
            && (forall s :: HandedOut(frames1, s) <==> HandedOut(frames2, s))
            && (forall s :: HandedOut(frames1, s) <==> InWholeFrame(AllOf(ps), s))
  {
    var (st1, frames1) := InsertAll(Init(size1, max1), ps);
    var (st2, frames2) := InsertAll(Init(size2, max2), qs);
    SameCodecs(ps, qs);
    FromEmpty(size1, max1, ps);
    FromEmpty(size2, max2, qs);
    SameAllOf(ps, qs);
    OutcomeDetermined(st1.slots, frames1, st2.slots, frames2, AllOf(ps));
  }
}
