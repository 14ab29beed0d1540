/** Delivery by the sequence-number-only finder: in which order frames and padding of a group of pictures arrive does not matter,
    a frame is handed off as soon as, and only if, everything before it in its group has arrived. */
module SeqNumDelivery {
  import opened SequenceNumbers
  import opened OrderedNumbers
  import opened Unwrapping
  import opened StashRetry
  import opened SeqNumRefFinderModel

  // ----- positions in the group of keyframe `k`

  function Pos(k: SeqNum, s: SeqNum): nat {
    ForwardDiff(k, s)
  }

  lemma PosOf(k: SeqNum, q: int)
    requires 0 <= q < 65536
    ensures Pos(k, Plus(k, q)) == q
  {
  }

  lemma AtPos(k: SeqNum, s: SeqNum)
    ensures Plus(k, Pos(k, s)) == s
  {
  }

  /** Less than half the number space apart, positions order the numbers. */
  lemma OrderOf(k: SeqNum, a: int, b: int)
    requires -32768 < a - b < 32768
    ensures AheadOf(Plus(k, a), Plus(k, b)) <==> a > b
    ensures Plus(k, a) == Plus(k, b) <==> a == b
  {
  }

  // ----- stashed padding

  /** The stashed padding, at positions `pad`, oldest first. */
  ghost predicate Lists(k: SeqNum, padding: seq<SeqNum>, pad: set<int>) {
    && (forall i, j | 0 <= i < j < |padding| :: Pos(k, padding[i]) < Pos(k, padding[j]))
    && (forall s: SeqNum :: s in padding <==> Pos(k, s) in pad)
    && (forall q | q in pad :: 0 < q <= 10000)
  }

  lemma ListedAt(k: SeqNum, padding: seq<SeqNum>, pad: set<int>, i: nat)
    requires Lists(k, padding, pad) && i < |padding|
    ensures Pos(k, padding[i]) in pad && 0 < Pos(k, padding[i]) <= 10000
  {
    assert padding[i] in padding;
  }

  lemma Ascending(k: SeqNum, padding: seq<SeqNum>, pad: set<int>)
    requires Lists(k, padding, pad)
    ensures forall i, j | 0 <= i < j < |padding| :: Pos(k, padding[i]) < Pos(k, padding[j])
  {
  }

  lemma SplitAt(k: SeqNum, padding: seq<SeqNum>, pad: set<int>, q: int)
    requires Lists(k, padding, pad) && -100 <= q <= 10001
    ensures var i := LowerBound(65536, padding, Plus(k, q));
            && (forall j | 0 <= j < i :: Pos(k, padding[j]) < q)
            && (forall j | i <= j < |padding| :: Pos(k, padding[j]) >= q)
  {
    var i := LowerBound(65536, padding, Plus(k, q));
    hide LowerBound, AheadOf, Plus, Pos, Lists;
    forall j | 0 <= j < i ensures Pos(k, padding[j]) < q {
      ListedAt(k, padding, pad, j);
      BehindIff(k, q, padding[j]);
    }
    if i < |padding| {
      ListedAt(k, padding, pad, i);
      BehindIff(k, q, padding[i]);
      Ascending(k, padding, pad);
    }
  }

  lemma BehindIff(k: SeqNum, q: int, s: SeqNum)
    requires -100 <= q <= 10001 && Pos(k, s) <= 10000
    ensures AheadOf(Plus(k, q), s) <==> Pos(k, s) < q
  {
    AtPos(k, s);
    OrderOf(k, q, Pos(k, s));
  }

  /** Without the oldest. */
  lemma ListsRest(k: SeqNum, padding: seq<SeqNum>, pad: set<int>)
    requires Lists(k, padding, pad) && padding != []
    ensures Lists(k, padding[1..], pad - {Pos(k, padding[0])})
  {
    hide Pos;
    assert padding == [padding[0]] + padding[1..];
    forall s: SeqNum ensures s in padding[1..] <==> Pos(k, s) in pad && Pos(k, s) != Pos(k, padding[0]) {
      AtPos(k, s);
      AtPos(k, padding[0]);
      if s in padding[1..] {
        var j: nat :| j < |padding[1..]| && padding[1..][j] == s;
        assert Pos(k, padding[0]) < Pos(k, padding[j + 1]);
      }
    }
  }

  lemma Inserted(padding: seq<SeqNum>, s: SeqNum, i: nat)
    requires i <= |padding|
    ensures var more := padding[..i] + [s] + padding[i..];
            && |more| == |padding| + 1
            && (forall j: nat | j < |more| :: more[j] == if j < i then padding[j] else if j == i then s else padding[j - 1])
            && (forall t :: t in more <==> t in padding || t == s)
  {
    assert padding == padding[..i] + padding[i..];
  }

  /** Inserted between the positions before and behind it, a number keeps the order. */
  lemma StaysOrdered(k: SeqNum, padding: seq<SeqNum>, s: SeqNum, i: nat)
    requires forall i, j | 0 <= i < j < |padding| :: Pos(k, padding[i]) < Pos(k, padding[j])
    requires i <= |padding| && forall j | 0 <= j < i :: Pos(k, padding[j]) < Pos(k, s)
    requires forall j | i <= j < |padding| :: Pos(k, padding[j]) > Pos(k, s)
    ensures var more := padding[..i] + [s] + padding[i..];
            forall i, j | 0 <= i < j < |more| :: Pos(k, more[i]) < Pos(k, more[j])
  {
    hide Pos;
    Inserted(padding, s, i);
  }

  lemma ListsWith(k: SeqNum, padding: seq<SeqNum>, pad: set<int>, s: SeqNum)
    requires Lists(k, padding, pad) && 0 < Pos(k, s) <= 10000 && Pos(k, s) !in pad
    ensures Lists(k, Insert(65536, padding, s), pad + {Pos(k, s)})
  {
    AtPos(k, s);
    SplitAt(k, padding, pad, Pos(k, s));
    var i := LowerBound(65536, padding, s);
    hide LowerBound, Pos, Plus;
    forall j: nat | i <= j < |padding| ensures Pos(k, padding[j]) > Pos(k, s) {
      ListedAt(k, padding, pad, j);
    }
    Ascending(k, padding, pad);
    StaysOrdered(k, padding, s, i);
    assert Insert(65536, padding, s) == padding[..i] + [s] + padding[i..] by {
      assert s !in padding;
    }
    MembersWith(k, padding, pad, s, i);
    ListsMore(k, padding[..i] + [s] + padding[i..], pad, Pos(k, s));
  }

  lemma ListsMore(k: SeqNum, more: seq<SeqNum>, pad: set<int>, x: int)
    requires 0 < x <= 10000 && forall q | q in pad :: 0 < q <= 10000
    requires forall i, j | 0 <= i < j < |more| :: Pos(k, more[i]) < Pos(k, more[j])
    requires forall t: SeqNum :: t in more <==> Pos(k, t) in pad + {x}
    ensures Lists(k, more, pad + {x})
  {
  }

  lemma MembersWith(k: SeqNum, padding: seq<SeqNum>, pad: set<int>, s: SeqNum, i: nat)
    requires i <= |padding| && forall t: SeqNum :: t in padding <==> Pos(k, t) in pad
    ensures forall t: SeqNum :: t in padding[..i] + [s] + padding[i..] <==> Pos(k, t) in pad + {Pos(k, s)}
  {
    hide Pos, Plus;
    Inserted(padding, s, i);
    forall t: SeqNum ensures t in padding[..i] + [s] + padding[i..] <==> Pos(k, t) in pad + {Pos(k, s)} {
      AtPos(k, t);
      AtPos(k, s);
    }
  }

  /** The padding behind position `q`. */
  function Beyond(pad: set<int>, q: int): set<int> {
    set x | x in pad && x > q
  }

  /** Everything from behind `p` up to `q` is in the set. */
  ghost predicate Fills(pad: set<int>, p: int, q: int) {
    forall x | p < x <= q :: x in pad
  }

  /** Advancing consumes the padding right behind, all of it. */
  lemma {:induction false} AdvanceIs(k: SeqNum, p: nat, padding: seq<SeqNum>, pad: set<int>) returns (q: nat)
    requires Lists(k, padding, pad) && p <= 10000 && forall x | x in pad :: x > p
    ensures p <= q <= 10000 && Fills(pad, p, q) && q + 1 !in pad
    ensures var (advanced, rest) := AdvancePadding(Plus(k, p), padding, 0);
            advanced == Plus(k, q) && Lists(k, rest, Beyond(pad, q))
    decreases |padding|
  {
    hide Pos, Plus, Lists;
    PlusPlus(k, p, 1);
    if 0 < |padding| && padding[0] == Plus(Plus(k, p), 1) {
      PosOf(k, p + 1);
      ListedAt(k, padding, pad, 0);
      ListsRest(k, padding, pad);
      assert padding[..0] + padding[1..] == padding[1..];
      q := AdvanceIs(k, p + 1, padding[1..], pad - {p + 1});
      forall x | p < x <= q ensures x in pad {
        assert x == p + 1 || x in pad - {p + 1};
      }
      assert Beyond(pad - {p + 1}, q) == Beyond(pad, q);
    } else {
      q := p;
      NotListed(k, p, padding, pad);
      assert Beyond(pad, p) == pad;
    }
  }

  lemma NotListed(k: SeqNum, p: nat, padding: seq<SeqNum>, pad: set<int>)
    requires Lists(k, padding, pad) && p <= 10000 && forall x | x in pad :: x > p
    requires !(0 < |padding| && padding[0] == Plus(k, p + 1))
    ensures p + 1 !in pad
  {
    hide Pos, Plus;
    PosOf(k, p + 1);
    forall j: nat | j < |padding| ensures padding[j] != Plus(k, p + 1) {
      if j > 0 {
        ListedAt(k, padding, pad, 0);
        assert Pos(k, padding[0]) < Pos(k, padding[j]);
      }
    }
    assert Plus(k, p + 1) !in padding;
  }

  // ----- the group

  /** The keyframe `k` is the only one tracked, its group has come to position `l`, and with padding to `p`; padding is stashed for
      the positions `pad` further on. */
  ghost predicate Group(c: Core, k: SeqNum, l: nat, p: nat, pad: set<int>) {
    && c.gop == [Gop(k, Plus(k, l), Plus(k, p))] && l <= p <= 10000
    && Lists(k, c.padding, pad) && forall x | x in pad :: x > p
  }

  lemma FoundGroup(gop: seq<Gop>, k: SeqNum, s: SeqNum)
    requires |gop| == 1 && gop[0].key == k && Pos(k, s) <= 10000
    ensures UpperBound(65536, Keys(gop), s) == 1 && CleanGop(gop, s) == gop && ForwardDiff(k, s) <= 10000
  {
    AtPos(k, s);
    OrderOf(k, 0, Pos(k, s));
    assert Keys(gop) == [k] && !AheadOf(k, s);
  }

  lemma NextPadding(k: SeqNum, p: nat, padding: seq<SeqNum>, pad: set<int>)
    requires Lists(k, padding, pad) && p <= 10000 && forall x | x in pad :: x > p
    ensures LowerBound(65536, padding, Plus(Plus(k, p), 1)) == 0
  {
    SplitAt(k, padding, pad, p + 1);
    PlusPlus(k, p, 1);
    if padding != [] {
      ListedAt(k, padding, pad, 0);
    }
    hide LowerBound, Plus, Pos, Lists;
  }

  lemma UpdateIs(c: Core, k: SeqNum, l: nat, p: nat, pad: set<int>, s: SeqNum) returns (q: nat)
    requires Group(c, k, l, p, pad) && Pos(k, s) <= 10000
    ensures p <= q && Fills(pad, p, q) && q + 1 !in pad && Group(UpdateWithPadding(c, s), k, l, q, Beyond(pad, q))
  {
    hide Lists, Plus, Fills, UpperBound, LowerBound;
    FoundGroup(c.gop, k, s);
    NextPadding(k, p, c.padding, pad);
    q := AdvanceIs(k, p, c.padding, pad);
  }

  /** The positions of a frame of the group. */
  ghost predicate Placed(k: SeqNum, f: Frame) {
    f.kind == Delta && 0 < Pos(k, f.firstSeqNum) <= Pos(k, f.lastSeqNum) <= 10000
  }

  lemma Predecessor(k: SeqNum, s: SeqNum, p: nat)
    requires 0 < Pos(k, s) <= 10000 && p <= 10000
    ensures Plus(s, -1) == Plus(k, p) <==> Pos(k, s) == p + 1
  {
    AtPos(k, s);
    PlusPlus(k, Pos(k, s), -1);
    OrderOf(k, Pos(k, s) - 1, p);
  }

  /** A frame whose turn it is not is stashed. */
  lemma OthersWait(c: Core, k: SeqNum, l: nat, p: nat, pad: set<int>, f: Frame)
    requires Group(c, k, l, p, pad) && Placed(k, f) && Pos(k, f.firstSeqNum) != p + 1
    ensures ManageFrameInternal(c, f) == (c, Stash)
  {
    hide Lists, Plus, UpperBound, CleanGop, Release;
    FoundGroup(c.gop, k, f.lastSeqNum);
    Predecessor(k, f.firstSeqNum, p);
  }

  /** The frame whose turn it is moves the group on to its end, and over the padding behind it. */
  lemma NextIsReleased(c: Core, k: SeqNum, l: nat, p: nat, pad: set<int>, f: Frame) returns (q: nat)
    requires Group(c, k, l, p, pad) && Placed(k, f) && Pos(k, f.firstSeqNum) == p + 1
    requires forall x | x in pad :: x > Pos(k, f.lastSeqNum)
    ensures var (c', decision) := ManageFrameInternal(c, f);
            && decision.HandOff? && decision.handed.frame == f
            && Group(c', k, Pos(k, f.lastSeqNum), q, Beyond(pad, q))
    ensures Pos(k, f.lastSeqNum) <= q && Fills(pad, Pos(k, f.lastSeqNum), q) && q + 1 !in pad
  {
    hide Lists, Plus, UpperBound, CleanGop, Fills, UpdateWithPadding;
    FoundGroup(c.gop, k, f.lastSeqNum);
    Predecessor(k, f.firstSeqNum, p);
    q := ReleaseIs(c, k, l, p, pad, f);
  }

  lemma ReleaseIs(c: Core, k: SeqNum, l: nat, p: nat, pad: set<int>, f: Frame) returns (q: nat)
    requires Group(c, k, l, p, pad) && l < Pos(k, f.lastSeqNum) <= 10000
    requires forall x | x in pad :: x > Pos(k, f.lastSeqNum)
    ensures var (c', decision) := Release(c, 0, f);
            && decision.HandOff? && decision.handed.frame == f
            && Group(c', k, Pos(k, f.lastSeqNum), q, Beyond(pad, q))
    ensures Pos(k, f.lastSeqNum) <= q && Fills(pad, Pos(k, f.lastSeqNum), q) && q + 1 !in pad
  {
    hide Lists, Plus, Fills, UpdateWithPadding, Unwrap;
    var s, b := f.lastSeqNum, Pos(k, f.lastSeqNum);
    AtPos(k, s);
    OrderOf(k, b, l);
    var e := c.gop[0];
    var u1 := Unwrap(65536, c.unwrapper, e.last).0;
    var c1 := c.(gop := [Gop(k, s, s)], unwrapper := u1);
    assert c.gop[0 := Gop(k, s, s)] == [Gop(k, s, s)];
    assert Group(c1, k, b, b, pad);
    q := UpdateIs(c1, k, b, b, pad, s);
  }

  // ----- passes over the stash

  predicate Apart(k: SeqNum, f: Frame, g: Frame) {
    Pos(k, f.lastSeqNum) < Pos(k, g.firstSeqNum) || Pos(k, g.lastSeqNum) < Pos(k, f.firstSeqNum)
  }

  predicate Holds(k: SeqNum, f: Frame, x: int) {
    Pos(k, f.firstSeqNum) <= x <= Pos(k, f.lastSeqNum)
  }

  /** Frames and padding of the group behind position `r`, each position in one of them at most. */
  ghost predicate Laid(k: SeqNum, r: nat, frames: set<Frame>, pad: set<int>) {
    && (forall f | f in frames :: Placed(k, f) && Pos(k, f.firstSeqNum) > r)
    && (forall f, g | f in frames && g in frames && f != g :: Apart(k, f, g))
    && (forall f, x | f in frames && x in pad :: !Holds(k, f, x))
    && (forall x | x in pad :: r < x <= 10000)
  }

  ghost predicate Covers(k: SeqNum, frames: set<Frame>, pad: set<int>, x: int) {
    x in pad || exists f :: f in frames && Holds(k, f, x)
  }

  /** Of the frames that have come those of `done` are handed off, and the group has come to position `p`: up to there everything
      has come and been used, and the next position is not padding. */
  ghost predicate Stands(c: Core, k: SeqNum, r: nat, p: nat, frames: set<Frame>, pad: set<int>, done: set<Frame>) {
    && r <= p && (exists l :: Group(c, k, l, p, Beyond(pad, p)))
    && done <= frames
    && (forall f | f in frames :: if f in done then Pos(k, f.lastSeqNum) <= p else Pos(k, f.firstSeqNum) > p)
    && (forall x | r < x <= p :: Covers(k, done, pad, x))
    && p + 1 !in pad
  }

  lemma BeyondBeyond(pad: set<int>, p: int, q: int)
    requires p <= q
    ensures Beyond(Beyond(pad, p), q) == Beyond(pad, q)
  {
  }

  /** Where the group stands once the frame whose turn it is has been handed off. */
  lemma HandingOffStands(c: Core, k: SeqNum, r: nat, p: nat, frames: set<Frame>, pad: set<int>, done: set<Frame>, f: Frame) returns (q: nat)
    requires Laid(k, r, frames, pad) && Stands(c, k, r, p, frames, pad, done)
    requires f in frames && f !in done && Pos(k, f.firstSeqNum) == p + 1
    ensures var (c', decision) := ManageFrameInternal(c, f);
            && decision.HandOff? && decision.handed.frame == f
            && Stands(c', k, r, q, frames, pad, done + {f})
  {
    hide Group, ManageFrameInternal, Pos;
    var l :| Group(c, k, l, p, Beyond(pad, p));
    var b := Pos(k, f.lastSeqNum);
    forall x | x in Beyond(pad, p) ensures x > b {
      assert !Holds(k, f, x);
    }
    q := NextIsReleased(c, k, l, p, Beyond(pad, p), f);
    BeyondBeyond(pad, p, q);
    assert Group(ManageFrameInternal(c, f).0, k, b, q, Beyond(pad, q));
    forall g | g in frames && g !in done + {f} ensures Pos(k, g.firstSeqNum) > q {
      var a: int := Pos(k, g.firstSeqNum);
      assert Apart(k, f, g) && a > b && Holds(k, g, a);
      assert b < a <= q ==> a in Beyond(pad, p);
    }
    forall x | r < x <= q ensures Covers(k, done + {f}, pad, x) {
      if x <= p {
        assert Covers(k, done, pad, x);
        CoversMore(k, done, f, pad, x);
      } else if x <= b {
        assert Holds(k, f, x);
      } else {
        assert x in Beyond(pad, p);
      }
    }
  }

  lemma CoversMore(k: SeqNum, frames: set<Frame>, f: Frame, pad: set<int>, x: int)
    requires Covers(k, frames, pad, x)
    ensures Covers(k, frames + {f}, pad, x)
  {
    hide Holds;
    if x !in pad {
      var g :| g in frames && Holds(k, g, x);
      assert g in frames + {f};
    }
  }

  predicate Once(frames: seq<Frame>) {
    forall i, j | 0 <= i < j < |frames| :: frames[i] != frames[j]
  }

  function Frames(handed: seq<Handed>): set<Frame> {
    set h | h in handed :: h.frame
  }

  /** The frames that wait are stashed once each. */
  ghost predicate Wait(stash: seq<Frame>, frames: set<Frame>, done: set<Frame>) {
    Once(stash) && forall f | f in stash :: f in frames && f !in done
  }

  /** What a pass leaves and hands off, of the frames it was given. */
  ghost predicate Sorted(pending: seq<Frame>, pass: Pass<Core, Frame, Handed>, done: set<Frame>, done': set<Frame>) {
    && done' == done + Frames(pass.handed)
    && Once(pass.kept) && (forall f :: f in pass.kept <==> f in pending && f !in done')
    && (forall f | f in Frames(pass.handed) :: f in pending)
  }

  lemma {:induction false} PassDelivers(c: Core, k: SeqNum, r: nat, p: nat, frames: set<Frame>, pad: set<int>, done: set<Frame>, pending: seq<Frame>)
    returns (q: nat, done': set<Frame>)
    requires Laid(k, r, frames, pad) && Stands(c, k, r, p, frames, pad, done) && Wait(pending, frames, done)
    ensures var pass := RetryPass(ManageFrameInternal, c, pending);
            && Stands(pass.core, k, r, q, frames, pad, done') && Sorted(pending, pass, done, done')
            && (pass.handed == [] ==> q == p && forall f | f in pending :: Pos(k, f.firstSeqNum) != p + 1)
    decreases |pending|
  {
    hide Laid, Stands, ManageFrameInternal, Pos;
    if pending == [] {
      q, done' := p, done;
    } else {
      var f, rest := pending[0], pending[1..];
      RestWaits(pending, frames, done);
      if Pos(k, f.firstSeqNum) == p + 1 {
        var p1 := HandingOffStands(c, k, r, p, frames, pad, done, f);
        var c1 := ManageFrameInternal(c, f).0;
        q, done' := PassDelivers(c1, k, r, p1, frames, pad, done + {f}, rest);
        FirstHanded(pending, ManageFrameInternal(c, f).1.handed, RetryPass(ManageFrameInternal, c1, rest), done, done');
      } else {
        WaitsOn(c, k, r, p, frames, pad, done, f);
        q, done' := PassDelivers(c, k, r, p, frames, pad, done, rest);
        FirstKept(pending, RetryPass(ManageFrameInternal, c, rest), done, done');
      }
    }
  }

  lemma RestWaits(pending: seq<Frame>, frames: set<Frame>, done: set<Frame>)
    requires pending != [] && Wait(pending, frames, done)
    ensures Wait(pending[1..], frames, done) && Wait(pending[1..], frames, done + {pending[0]})
    ensures pending[0] in frames && pending[0] !in done && pending[0] !in pending[1..]
  {
  }

  lemma WaitsOn(c: Core, k: SeqNum, r: nat, p: nat, frames: set<Frame>, pad: set<int>, done: set<Frame>, f: Frame)
    requires Laid(k, r, frames, pad) && Stands(c, k, r, p, frames, pad, done) && f in frames && Pos(k, f.firstSeqNum) != p + 1
    ensures ManageFrameInternal(c, f) == (c, Stash)
  {
    hide Group, ManageFrameInternal, Pos, Placed;
    var l :| Group(c, k, l, p, Beyond(pad, p));
    OthersWait(c, k, l, p, Beyond(pad, p), f);
  }

  lemma FirstHanded(pending: seq<Frame>, h: Handed, rest: Pass<Core, Frame, Handed>, done: set<Frame>, done': set<Frame>)
    requires pending != [] && h.frame == pending[0] && pending[0] !in pending[1..] && pending[0] !in done
    requires Sorted(pending[1..], rest, done + {pending[0]}, done')
    ensures Sorted(pending, rest.(handed := [h] + rest.handed), done, done')
  {
    assert pending == [pending[0]] + pending[1..];
    assert Frames([h] + rest.handed) == Frames(rest.handed) + {h.frame};
  }

  lemma FirstKept(pending: seq<Frame>, rest: Pass<Core, Frame, Handed>, done: set<Frame>, done': set<Frame>)
    requires pending != [] && pending[0] !in pending[1..] && pending[0] !in done
    requires Sorted(pending[1..], rest, done, done')
    ensures Sorted(pending, rest.(kept := [pending[0]] + rest.kept), done, done')
  {
    assert pending == [pending[0]] + pending[1..];
  }

  /** Retrying hands off everything whose turn comes. */
  lemma {:induction false} RetryDelivers(c: Core, k: SeqNum, r: nat, p: nat, frames: set<Frame>, pad: set<int>, done: set<Frame>, stash: seq<Frame>)
    returns (q: nat, done': set<Frame>)
    requires Laid(k, r, frames, pad) && Stands(c, k, r, p, frames, pad, done) && Wait(stash, frames, done)
    ensures var pass := Retry(ManageFrameInternal, c, stash);
            && Stands(pass.core, k, r, q, frames, pad, done') && Sorted(stash, pass, done, done')
            && forall f | f in pass.kept :: Pos(k, f.firstSeqNum) != q + 1
    decreases |stash|
  {
    hide Laid, Stands, ManageFrameInternal, Pos;
    var pass := RetryPass(ManageFrameInternal, c, stash);
    q, done' := PassDelivers(c, k, r, p, frames, pad, done, stash);
    if pass.handed != [] {
      var done1 := done';
      assert Wait(pass.kept, frames, done1);
      q, done' := RetryDelivers(pass.core, k, r, q, frames, pad, done1, pass.kept);
      PassesJoin(stash, pass, Retry(ManageFrameInternal, pass.core, pass.kept), done, done1, done');
    }
  }

  lemma PassesJoin(stash: seq<Frame>, a: Pass<Core, Frame, Handed>, b: Pass<Core, Frame, Handed>,
                   done: set<Frame>, done1: set<Frame>, done': set<Frame>)
    requires Sorted(stash, a, done, done1) && Sorted(a.kept, b, done1, done')
    ensures Sorted(stash, b.(handed := a.handed + b.handed), done, done')
  {
    assert Frames(a.handed + b.handed) == Frames(a.handed) + Frames(b.handed);
  }

  // ----- what has come

  /** The delta frames that have come. */
  function FramesOf(ops: seq<Op>): set<Frame> {
    set op | op in ops && op.Manage? && op.frame.kind == Delta :: op.frame
  }

  function PaddingOf(k: SeqNum, ops: seq<Op>): set<int> {
    set op | op in ops && op.PaddingIn? :: Pos(k, op.seqNum)
  }

  /** Everything behind position `r` up to `x` has come, and so has the keyframe. */
  ghost predicate Reached(k: SeqNum, r: nat, keyed: bool, ops: seq<Op>, x: int) {
    keyed && forall y | r < y <= x :: Covers(k, FramesOf(ops), PaddingOf(k, ops), y)
  }

  /** Everything before the frame has come. */
  ghost predicate Due(k: SeqNum, r: nat, keyed: bool, ops: seq<Op>, f: Frame) {
    Reached(k, r, keyed, ops, Pos(k, f.firstSeqNum) - 1)
  }

  ghost function Waiting(k: SeqNum, r: nat, keyed: bool, ops: seq<Op>): set<Frame> {
    set f | f in FramesOf(ops) && !Due(k, r, keyed, ops, f)
  }

  /** What may come after `ops`: the keyframe if it has not come, or a frame or padding of its group, at positions nothing had
      before, the padding at most 100 ahead of padding that still waits; and at most 101 frames wait then. */
  ghost predicate Fits(k: SeqNum, r: nat, keyed: bool, ops: seq<Op>, op: Op) {
    match op
    case Manage(f) =>
      if f.kind == Key then !keyed && r == 0 && f.lastSeqNum == k
      else
        && f.kind == Delta && f !in FramesOf(ops)
        && Laid(k, r, FramesOf(ops) + {f}, PaddingOf(k, ops))
        && |Waiting(k, r, keyed, ops + [op])| <= 101
    case PaddingIn(s) =>
      && Pos(k, s) !in PaddingOf(k, ops)
      && Laid(k, r, FramesOf(ops), PaddingOf(k, ops) + {Pos(k, s)})
      && forall x | x in PaddingOf(k, ops) && !Reached(k, r, keyed, ops, x) :: Pos(k, s) - x <= 100
    case ClearUpTo(_) => false
  }

  predicate IsKeyframe(op: Op) {
    op.Manage? && op.frame.kind == Key
  }

  ghost predicate FittingRun(k: SeqNum, r: nat, keyed: bool, before: seq<Op>, ops: seq<Op>)
    decreases |ops|
  {
    ops == []
    || (Fits(k, r, keyed, before, ops[0]) && FittingRun(k, r, keyed || IsKeyframe(ops[0]), before + [ops[0]], ops[1..]))
  }

  // ----- where the finder stands

  ghost predicate StashIs(stash: seq<Frame>, frames: set<Frame>, done: set<Frame>) {
    Once(stash) && forall f :: f in stash <==> f in frames && f !in done
  }

  /** Of the frames that have come those of `done` are handed off, the others stashed, and none of these is the one whose turn it
      is. */
  ghost predicate Delivered(st: State, k: SeqNum, r: nat, keyed: bool, frames: set<Frame>, pad: set<int>, done: set<Frame>) {
    && Laid(k, r, frames, pad) && StashIs(st.stash, frames, done)
    && if keyed then exists p: nat :: Settles(st, k, r, p, frames, pad, done)
       else r == 0 && done == {} && st.core.gop == [] && Lists(k, st.core.padding, pad)
  }

  ghost predicate Settles(st: State, k: SeqNum, r: nat, p: nat, frames: set<Frame>, pad: set<int>, done: set<Frame>) {
    Stands(st.core, k, r, p, frames, pad, done) && forall f | f in frames && f !in done :: Pos(k, f.firstSeqNum) != p + 1
  }

  /** The position the group has come to is the last one up to which everything has come. */
  lemma ReachedIffPassed(st: State, k: SeqNum, r: nat, p: nat, ops: seq<Op>, done: set<Frame>, x: int)
    requires Laid(k, r, FramesOf(ops), PaddingOf(k, ops)) && r <= x
    requires Settles(st, k, r, p, FramesOf(ops), PaddingOf(k, ops), done)
    ensures Reached(k, r, true, ops, x) <==> x <= p
  {
    hide Pos, Group, FramesOf, PaddingOf, Placed;
    var frames, pad := FramesOf(ops), PaddingOf(k, ops);
    forall y | r < y <= p ensures Covers(k, frames, pad, y) {
      assert Covers(k, done, pad, y);
      if y !in pad {
        var f :| f in done && Holds(k, f, y);
        assert f in frames && Holds(k, f, y);
      }
    }
    forall f | f in frames ensures !Holds(k, f, p + 1) {
    }
    assert !Covers(k, frames, pad, p + 1);
  }

  lemma DueIffDone(st: State, k: SeqNum, r: nat, p: nat, ops: seq<Op>, done: set<Frame>, f: Frame)
    requires Laid(k, r, FramesOf(ops), PaddingOf(k, ops)) && f in FramesOf(ops)
    requires Settles(st, k, r, p, FramesOf(ops), PaddingOf(k, ops), done)
    ensures Due(k, r, true, ops, f) <==> f in done
  {
    ReachedIffPassed(st, k, r, p, ops, done, Pos(k, f.firstSeqNum) - 1);
    hide Reached, Pos, Group, FramesOf, PaddingOf;
    assert Placed(k, f);
  }

  lemma {:induction false} OnceIsSet(stash: seq<Frame>, frames: set<Frame>)
    requires Once(stash) && forall f :: f in stash <==> f in frames
    ensures |stash| == |frames|
    decreases |stash|
  {
    if stash == [] {
      assert frames == {};
    } else {
      assert stash == [stash[0]] + stash[1..];
      OnceIsSet(stash[1..], frames - {stash[0]});
    }
  }

  // ----- one operation

  lemma FramesOfMore(k: SeqNum, ops: seq<Op>, op: Op)
    ensures FramesOf(ops + [op]) == if op.Manage? && op.frame.kind == Delta then FramesOf(ops) + {op.frame} else FramesOf(ops)
    ensures PaddingOf(k, ops + [op]) == if op.PaddingIn? then PaddingOf(k, ops) + {Pos(k, op.seqNum)} else PaddingOf(k, ops)
  {
    var more := ops + [op];
    assert forall o :: o in more <==> o in ops || o == op;
    hide Pos;
    assert op in more;
    forall f | f in FramesOf(ops) ensures f in FramesOf(more) {
      var o :| o in ops && o.Manage? && o.frame.kind == Delta && o.frame == f;
      assert o in more;
    }
    forall x | x in PaddingOf(k, ops) ensures x in PaddingOf(k, more) {
      var o :| o in ops && o.PaddingIn? && Pos(k, o.seqNum) == x;
      assert o in more;
    }
  }

  /** A frame that has newly come lies behind the position the group has come to. */
  lemma NewFrameStands(c: Core, k: SeqNum, r: nat, p: nat, frames: set<Frame>, pad: set<int>, done: set<Frame>, f: Frame)
    requires Stands(c, k, r, p, frames, pad, done) && Laid(k, r, frames + {f}, pad) && f !in frames
    ensures Stands(c, k, r, p, frames + {f}, pad, done)
  {
    hide Pos, Group;
    var a: int := Pos(k, f.firstSeqNum);
    assert Placed(k, f) && Holds(k, f, a) && a !in pad;
    forall g | g in done ensures !Holds(k, g, a) {
      assert Apart(k, f, g);
    }
    assert r < a <= p ==> Covers(k, done, pad, a);
  }

  /** So does padding that has newly come; the group then moves on over it. */
  lemma NewPaddingStands(c: Core, k: SeqNum, r: nat, p: nat, frames: set<Frame>, pad: set<int>, done: set<Frame>, s: SeqNum)
    returns (q: nat)
    requires Stands(c, k, r, p, frames, pad, done) && Pos(k, s) !in pad && Laid(k, r, frames, pad + {Pos(k, s)})
    requires forall x | x in pad && x > p :: Pos(k, s) - x <= 100
    ensures Stands(UpdateWithPadding(c.(padding := StashPadding(c.padding, s)), s), k, r, q, frames, pad + {Pos(k, s)}, done)
  {
    hide Pos, UpdateWithPadding, Lists;
    var l :| Group(c, k, l, p, Beyond(pad, p));
    var x, more := Pos(k, s), pad + {Pos(k, s)};
    assert r < x <= p ==> Covers(k, done, pad, x);
    assert forall f | f in done :: !Holds(k, f, x);
    var c1 := c.(padding := StashPadding(c.padding, s));
    StashedPadding(k, c.padding, Beyond(pad, p), s);
    assert Beyond(more, p) == Beyond(pad, p) + {x};
    assert Group(c1, k, l, p, Beyond(more, p));
    q := UpdateIs(c1, k, l, p, Beyond(more, p), s);
    BeyondBeyond(more, p, q);
    assert Group(UpdateWithPadding(c1, s), k, l, q, Beyond(more, q));
    forall g | g in frames && g !in done ensures Pos(k, g.firstSeqNum) > q {
      var a: int := Pos(k, g.firstSeqNum);
      assert Placed(k, g) && Holds(k, g, a);
      assert p < a <= q ==> a in Beyond(more, p);
    }
    forall y | r < y <= q ensures Covers(k, done, more, y) {
      if y <= p {
        assert Covers(k, done, pad, y);
      } else {
        assert y in Beyond(more, p);
      }
    }
  }

  lemma StashedPadding(k: SeqNum, padding: seq<SeqNum>, pad: set<int>, s: SeqNum)
    requires Lists(k, padding, pad) && 0 < Pos(k, s) <= 10000 && Pos(k, s) !in pad
    requires forall x | x in pad :: Pos(k, s) - x <= 100
    ensures Lists(k, StashPadding(padding, s), pad + {Pos(k, s)})
  {
    AtPos(k, s);
    PlusPlus(k, Pos(k, s), -100);
    SplitAt(k, padding, pad, Pos(k, s) - 100);
    if padding != [] {
      ListedAt(k, padding, pad, 0);
    }
    hide Lists, LowerBound, Pos, Plus;
    assert padding[0..] == padding;
    ListsWith(k, padding, pad, s);
  }

  /** Without a keyframe everything waits. */
  lemma {:induction false} NothingWithoutKeyframe(c: Core, stash: seq<Frame>)
    requires c.gop == [] && forall f | f in stash :: f.kind == Delta
    ensures Retry(ManageFrameInternal, c, stash) == Pass(c, stash, [])
  {
    IdlePass(c, stash);
  }

  lemma {:induction false} IdlePass(c: Core, stash: seq<Frame>)
    requires c.gop == [] && forall f | f in stash :: f.kind == Delta
    ensures RetryPass(ManageFrameInternal, c, stash) == Pass(c, stash, [])
    decreases |stash|
  {
    if stash != [] {
      IdlePass(c, stash[1..]);
      assert [stash[0]] + stash[1..] == stash;
    }
  }

  /** The keyframe starts the group, which moves on over the padding that is there. */
  lemma KeyframeStarts(c: Core, k: SeqNum, frames: set<Frame>, pad: set<int>, f: Frame) returns (q: nat)
    requires c.gop == [] && Lists(k, c.padding, pad) && Laid(k, 0, frames, pad) && f.kind == Key && f.lastSeqNum == k
    ensures var (c', decision) := ManageFrameInternal(c, f);
            decision.HandOff? && decision.handed.frame == f && Stands(c', k, 0, q, frames, pad, {})
  {
    hide Lists, UpperBound, Fills, UpdateWithPadding, Unwrap, LowerBound, ManageFrameInternal, Placed, Apart, Plus;
    var u1 := Unwrap(65536, c.unwrapper, k).0;
    var c1 := Core([Gop(k, k, k)], c.padding, u1);
    PosOf(k, 0);
    FirstGop(k);
    assert Group(c1, k, 0, 0, pad);
    q := UpdateIs(c1, k, 0, 0, pad, k);
    hide Pos, Group, Beyond, Laid;
    StartStands(UpdateWithPadding(c1, k), k, q, frames, pad);
    SameAfterRelease(c, c1, k, f, u1);
    SameStands(UpdateWithPadding(c1, k), ManageFrameInternal(c, f).0, k, 0, q, frames, pad, {});
  }

  lemma SameStands(c: Core, c': Core, k: SeqNum, r: nat, p: nat, frames: set<Frame>, pad: set<int>, done: set<Frame>)
    requires Stands(c, k, r, p, frames, pad, done) && c'.gop == c.gop && c'.padding == c.padding
    ensures Stands(c', k, r, p, frames, pad, done)
  {
    hide Pos, Lists, Covers;
    var l :| Group(c, k, l, p, Beyond(pad, p));
    assert Group(c', k, l, p, Beyond(pad, p));
  }

  lemma FirstGop(k: SeqNum)
    ensures InsertGop([], k) == [Gop(k, k, k)] && Plus(k, 0) == k
  {
  }

  lemma StartStands(c: Core, k: SeqNum, q: nat, frames: set<Frame>, pad: set<int>)
    requires Group(c, k, 0, q, Beyond(pad, q)) && Fills(pad, 0, q) && q + 1 !in pad && Laid(k, 0, frames, pad)
    ensures Stands(c, k, 0, q, frames, pad, {})
  {
    hide Pos, Group;
    forall g | g in frames ensures Pos(k, g.firstSeqNum) > q {
      var a: int := Pos(k, g.firstSeqNum);
      assert Placed(k, g) && Holds(k, g, a);
      assert 0 < a <= q ==> a in pad;
    }
    forall y | 0 < y <= q ensures Covers(k, {}, pad, y) {
    }
  }

  lemma SameAfterRelease(c: Core, c1: Core, k: SeqNum, f: Frame, u1: Unwrapper)
    requires c.gop == [] && f.kind == Key && f.lastSeqNum == k && u1 == Unwrap(65536, c.unwrapper, k).0
    requires c1 == Core([Gop(k, k, k)], c.padding, u1)
    ensures var (c', decision) := ManageFrameInternal(c, f);
            && decision.HandOff? && decision.handed.frame == f
            && c'.gop == UpdateWithPadding(c1, k).gop && c'.padding == UpdateWithPadding(c1, k).padding
  {
    hide UpdateWithPadding, Unwrap, UpperBound, LowerBound;
    PosOf(k, 0);
    FirstGop(k);
    FoundGroup([Gop(k, k, k)], k, k);
    assert [Gop(k, k, k)][0 := Gop(k, k, k)] == [Gop(k, k, k)];
    hide CleanGop, InsertGop;
  }

  /** The delta frames among those handed off. */
  function DeltaFrames(handed: seq<Handed>): set<Frame> {
    set h | h in handed && h.frame.kind == Delta :: h.frame
  }

  lemma AllDelta(handed: seq<Handed>, h: Handed, frames: set<Frame>)
    requires Frames(handed) <= frames && forall f | f in frames :: f.kind == Delta
    ensures DeltaFrames(handed) == Frames(handed)
    ensures DeltaFrames([h] + handed) == Frames(handed) + if h.frame.kind == Delta then {h.frame} else {}
  {
    assert forall g | g in handed :: g.frame in Frames(handed);
  }

  lemma LaidAreDelta(k: SeqNum, r: nat, frames: set<Frame>, pad: set<int>)
    requires Laid(k, r, frames, pad)
    ensures forall f | f in frames :: f.kind == Delta
  {
    assert forall f | f in frames :: Placed(k, f);
  }

  /** After a retry. */
  lemma RetrySettles(c: Core, k: SeqNum, r: nat, p: nat, frames: set<Frame>, pad: set<int>, done: set<Frame>, stash: seq<Frame>)
    returns (q: nat, done': set<Frame>)
    requires Laid(k, r, frames, pad) && Stands(c, k, r, p, frames, pad, done) && StashIs(stash, frames, done)
    ensures var pass := Retry(ManageFrameInternal, c, stash);
            && Settles(State(pass.core, pass.kept), k, r, q, frames, pad, done') && StashIs(pass.kept, frames, done')
            && done' == done + Frames(pass.handed) && Frames(pass.handed) <= frames
  {
    hide Laid, Stands, ManageFrameInternal, Pos;
    q, done' := RetryDelivers(c, k, r, p, frames, pad, done, stash);
  }

  /** The frame whose turn it is comes. */
  lemma NextFrameComes(st: State, k: SeqNum, r: nat, p: nat, frames: set<Frame>, pad: set<int>, done: set<Frame>, f: Frame)
    returns (done': set<Frame>)
    requires StashIs(st.stash, frames, done) && Settles(st, k, r, p, frames, pad, done)
    requires f !in frames && Laid(k, r, frames + {f}, pad) && Pos(k, f.firstSeqNum) == p + 1
    ensures var (st', handed) := ManageFrame(st, f);
            Delivered(st', k, r, true, frames + {f}, pad, done') && done' == done + DeltaFrames(handed)
  {
    hide Pos, ManageFrameInternal, Laid, Stands, Retry, RetryPass, DeltaFrames, Frames;
    NewFrameStands(st.core, k, r, p, frames, pad, done, f);
    LaidAreDelta(k, r, frames + {f}, pad);
    NotDone(st.core, k, r, p, frames, pad, done, f);
    var p1 := HandingOffStands(st.core, k, r, p, frames + {f}, pad, done, f);
    var (c, decision) := ManageFrameInternal(st.core, f);
    var q;
    q, done' := RetrySettles(c, k, r, p1, frames + {f}, pad, done + {f}, st.stash);
    AllDelta(Retry(ManageFrameInternal, c, st.stash).handed, decision.handed, frames + {f});
  }

  /** Another one comes, and there is room in the stash. */
  lemma OtherFrameComes(st: State, k: SeqNum, r: nat, p: nat, frames: set<Frame>, pad: set<int>, done: set<Frame>, f: Frame)
    requires StashIs(st.stash, frames, done) && Settles(st, k, r, p, frames, pad, done) && |st.stash| <= 100
    requires f !in frames && Laid(k, r, frames + {f}, pad) && Pos(k, f.firstSeqNum) != p + 1
    ensures var (st', handed) := ManageFrame(st, f);
            Delivered(st', k, r, true, frames + {f}, pad, done) && handed == []
  {
    hide Pos, ManageFrameInternal, Laid, Stands;
    NewFrameStands(st.core, k, r, p, frames, pad, done, f);
    NotDone(st.core, k, r, p, frames, pad, done, f);
    WaitsOn(st.core, k, r, p, frames + {f}, pad, done, f);
    SameStandsInStash(st.core, st.stash, [f] + st.stash, k, r, p, frames + {f}, pad, done);
  }

  lemma SameStandsInStash(c: Core, a: seq<Frame>, b: seq<Frame>, k: SeqNum, r: nat, p: nat, frames: set<Frame>, pad: set<int>, done: set<Frame>)
    ensures Settles(State(c, a), k, r, p, frames, pad, done) <==> Settles(State(c, b), k, r, p, frames, pad, done)
  {
  }

  lemma NotDone(c: Core, k: SeqNum, r: nat, p: nat, frames: set<Frame>, pad: set<int>, done: set<Frame>, f: Frame)
    requires Stands(c, k, r, p, frames, pad, done) && f !in frames
    ensures f !in done
  {
  }

  lemma PaddingComes(st: State, k: SeqNum, r: nat, p: nat, frames: set<Frame>, pad: set<int>, done: set<Frame>, s: SeqNum)
    returns (done': set<Frame>)
    requires StashIs(st.stash, frames, done) && Settles(st, k, r, p, frames, pad, done)
    requires Pos(k, s) !in pad && Laid(k, r, frames, pad + {Pos(k, s)}) && forall x | x in pad && x > p :: Pos(k, s) - x <= 100
    ensures var (st', handed) := PaddingReceived(st, s);
            Delivered(st', k, r, true, frames, pad + {Pos(k, s)}, done') && done' == done + DeltaFrames(handed)
  {
    hide Pos, ManageFrameInternal, Laid, UpdateWithPadding, Stands, Retry, RetryPass, StashPadding, DeltaFrames, Frames;
    var p1 := NewPaddingStands(st.core, k, r, p, frames, pad, done, s);
    var c := UpdateWithPadding(st.core.(padding := StashPadding(st.core.padding, s)), s);
    var q;
    q, done' := RetrySettles(c, k, r, p1, frames, pad + {Pos(k, s)}, done, st.stash);
    LaidAreDelta(k, r, frames, pad + {Pos(k, s)});
    AllDeltaOf(Retry(ManageFrameInternal, c, st.stash).handed, frames);
  }

  lemma AllDeltaOf(handed: seq<Handed>, frames: set<Frame>)
    requires Frames(handed) <= frames && forall f | f in frames :: f.kind == Delta
    ensures DeltaFrames(handed) == Frames(handed)
  {
    assert forall g | g in handed :: g.frame in Frames(handed);
  }

  // ----- before the keyframe

  lemma FrameComesFirst(st: State, k: SeqNum, frames: set<Frame>, pad: set<int>, f: Frame)
    requires Delivered(st, k, 0, false, frames, pad, {}) && f.kind == Delta && |st.stash| <= 100
    requires f !in frames && Laid(k, 0, frames + {f}, pad)
    ensures var (st', handed) := ManageFrame(st, f); Delivered(st', k, 0, false, frames + {f}, pad, {}) && handed == []
  {
    assert ManageFrameInternal(st.core, f) == (st.core, Stash);
    hide Pos, ManageFrameInternal, Laid, Lists, Retry;
  }

  lemma PaddingComesFirst(st: State, k: SeqNum, frames: set<Frame>, pad: set<int>, s: SeqNum)
    requires Delivered(st, k, 0, false, frames, pad, {}) && Pos(k, s) !in pad && Laid(k, 0, frames, pad + {Pos(k, s)})
    requires forall x | x in pad :: Pos(k, s) - x <= 100
    ensures var (st', handed) := PaddingReceived(st, s);
            Delivered(st', k, 0, false, frames, pad + {Pos(k, s)}, {}) && handed == []
  {
    LaidAreDelta(k, 0, frames, pad);
    NewIsLaid(k, 0, frames, pad, Pos(k, s));
    hide Pos, Laid, Lists;
    StashedPadding(k, st.core.padding, pad, s);
    var c := st.core.(padding := StashPadding(st.core.padding, s));
    NoGroupNoUpdate(c, s);
    hide ManageFrameInternal, StashPadding, UpdateWithPadding, Retry, RetryPass;
    NothingWithoutKeyframe(c, st.stash);
  }

  lemma NoGroupNoUpdate(c: Core, s: SeqNum)
    requires c.gop == []
    ensures UpdateWithPadding(c, s) == c
  {
  }

  lemma NewIsLaid(k: SeqNum, r: nat, frames: set<Frame>, pad: set<int>, x: int)
    requires Laid(k, r, frames, pad + {x})
    ensures r < x <= 10000
  {
    assert x in pad + {x};
  }

  lemma KeyframeComes(st: State, k: SeqNum, frames: set<Frame>, pad: set<int>, f: Frame) returns (done': set<Frame>)
    requires Laid(k, 0, frames, pad) && StashIs(st.stash, frames, {}) && st.core.gop == [] && Lists(k, st.core.padding, pad)
    requires f.kind == Key && f.lastSeqNum == k
    ensures var (st', handed) := ManageFrame(st, f);
            Delivered(st', k, 0, true, frames, pad, done') && done' == DeltaFrames(handed)
  {
    LaidAreDelta(k, 0, frames, pad);
    hide Pos, ManageFrameInternal, Laid, Lists, Stands, Retry, RetryPass, DeltaFrames, Frames, StashIs, Settles;
    var p := KeyframeStarts(st.core, k, frames, pad, f);
    var (c, decision) := ManageFrameInternal(st.core, f);
    var q;
    q, done' := RetrySettles(c, k, 0, p, frames, pad, {}, st.stash);
    assert Settles(ManageFrame(st, f).0, k, 0, q, frames, pad, done');
    AllDelta(Retry(ManageFrameInternal, c, st.stash).handed, decision.handed, frames);
  }

  // ----- every run

  /** A frame that has to wait finds room in the stash. */
  lemma StashHasRoom(st: State, k: SeqNum, r: nat, p: nat, ops: seq<Op>, done: set<Frame>, f: Frame)
    requires Fits(k, r, true, ops, Manage(f)) && f.kind == Delta && StashIs(st.stash, FramesOf(ops), done)
    requires Settles(st, k, r, p, FramesOf(ops), PaddingOf(k, ops), done) && Pos(k, f.firstSeqNum) != p + 1
    ensures |st.stash| <= 100
  {
    var frames, pad, more := FramesOf(ops), PaddingOf(k, ops), ops + [Manage(f)];
    FramesOfMore(k, ops, Manage(f));
    hide Pos, FramesOf, PaddingOf, Laid, Due, Stands;
    NewFrameStands(st.core, k, r, p, frames, pad, done, f);
    NotDone(st.core, k, r, p, frames, pad, done, f);
    forall g | g in FramesOf(more) ensures Due(k, r, true, more, g) <==> g in done {
      DueIffDone(st, k, r, p, more, done, g);
    }
    assert forall g :: g in [f] + st.stash <==> g in Waiting(k, r, true, more);
    OnceIsSet([f] + st.stash, Waiting(k, r, true, more));
  }

  lemma NoneDue(k: SeqNum, ops: seq<Op>)
    ensures Waiting(k, 0, false, ops) == FramesOf(ops)
  {
    hide FramesOf;
  }

  lemma NoneTwice(stash: seq<Frame>, frames: set<Frame>, f: Frame)
    requires StashIs(stash, frames, {}) && f !in frames
    ensures Once([f] + stash) && forall g :: g in [f] + stash <==> g in frames + {f}
  {
  }

  lemma StashHasRoomFirst(st: State, k: SeqNum, ops: seq<Op>, f: Frame)
    requires Fits(k, 0, false, ops, Manage(f)) && f.kind == Delta && StashIs(st.stash, FramesOf(ops), {})
    ensures |st.stash| <= 100
  {
    var more := ops + [Manage(f)];
    FramesOfMore(k, ops, Manage(f));
    NoneDue(k, more);
    hide Pos, FramesOf, PaddingOf, Laid, Waiting;
    NoneTwice(st.stash, FramesOf(ops), f);
    OnceIsSet([f] + st.stash, FramesOf(more));
  }

  lemma WaitingPadding(st: State, k: SeqNum, r: nat, p: nat, ops: seq<Op>, done: set<Frame>, s: SeqNum)
    requires Fits(k, r, true, ops, PaddingIn(s)) && Laid(k, r, FramesOf(ops), PaddingOf(k, ops))
    requires Settles(st, k, r, p, FramesOf(ops), PaddingOf(k, ops), done)
    ensures forall x | x in PaddingOf(k, ops) && x > p :: Pos(k, s) - x <= 100
  {
    var pad := PaddingOf(k, ops);
    hide Pos, FramesOf, PaddingOf, Settles, Reached;
    forall x | x in pad && x > p ensures Pos(k, s) - x <= 100 {
      AheadOfReach(k, r, FramesOf(ops), pad, x);
      ReachedIffPassed(st, k, r, p, ops, done, x);
    }
  }

  lemma AheadOfReach(k: SeqNum, r: nat, frames: set<Frame>, pad: set<int>, x: int)
    requires Laid(k, r, frames, pad) && x in pad
    ensures x > r
  {
  }

  /** The finder stands where what has come leads. */
  ghost predicate DeliveredBy(st: State, k: SeqNum, r: nat, keyed: bool, ops: seq<Op>, done: set<Frame>) {
    Delivered(st, k, r, keyed, FramesOf(ops), PaddingOf(k, ops), done)
  }

  lemma StepDelivers(st: State, k: SeqNum, r: nat, keyed: bool, ops: seq<Op>, done: set<Frame>, op: Op) returns (done': set<Frame>)
    requires DeliveredBy(st, k, r, keyed, ops, done) && Fits(k, r, keyed, ops, op)
    ensures DeliveredBy(Step(st, op).0, k, r, keyed || IsKeyframe(op), ops + [op], done')
    ensures done' == done + DeltaFrames(Step(st, op).1)
  {
    FramesOfMore(k, ops, op);
    NoneHanded();
    hide ManageFrame, PaddingReceived, DeltaFrames, Laid, Waiting, FramesOf, PaddingOf, Settles, StashIs, Lists, Pos;
    var frames, pad := FramesOf(ops), PaddingOf(k, ops);
    match op
    case Manage(f) =>
      if f.kind == Key {
        done' := KeyframeComes(st, k, frames, pad, f);
      } else if keyed {
        var p: nat :| Settles(st, k, r, p, frames, pad, done);
        if Pos(k, f.firstSeqNum) == p + 1 {
          done' := NextFrameComes(st, k, r, p, frames, pad, done, f);
        } else {
          StashHasRoom(st, k, r, p, ops, done, f);
          OtherFrameComes(st, k, r, p, frames, pad, done, f);
          done' := done;
        }
      } else {
        StashHasRoomFirst(st, k, ops, f);
        FrameComesFirst(st, k, frames, pad, f);
        done' := {};
      }
    case PaddingIn(s) =>
      if keyed {
        var p: nat :| Settles(st, k, r, p, frames, pad, done);
        WaitingPadding(st, k, r, p, ops, done, s);
        done' := PaddingComes(st, k, r, p, frames, pad, done, s);
      } else {
        PaddingComesFirst(st, k, frames, pad, s);
        done' := {};
      }
  }

  lemma NoneHanded()
    ensures DeltaFrames([]) == {}
  {
  }

  /** All frames that a run hands off. */
  function HandedOff(st: State, ops: seq<Op>): seq<Handed>
    decreases |ops|
  {
    if ops == [] then [] else Step(st, ops[0]).1 + HandedOff(Step(st, ops[0]).0, ops[1..])
  }

  ghost predicate HasKeyframe(ops: seq<Op>) {
    exists op :: op in ops && IsKeyframe(op)
  }

  lemma {:induction false} RunFrom(st: State, k: SeqNum, r: nat, keyed: bool, before: seq<Op>, done: set<Frame>, ops: seq<Op>)
    returns (done': set<Frame>)
    requires DeliveredBy(st, k, r, keyed, before, done) && FittingRun(k, r, keyed, before, ops)
    ensures DeliveredBy(After(st, ops), k, r, keyed || HasKeyframe(ops), before + ops, done')
    ensures done' == done + DeltaFrames(HandedOff(st, ops))
    decreases |ops|
  {
    hide DeliveredBy, Step, DeltaFrames, Fits, IsKeyframe;
    if ops == [] {
      done' := done;
      NoneHanded();
      assert before + [] == before;
    } else {
      var done1 := StepDelivers(st, k, r, keyed, before, done, ops[0]);
      done' := RunFrom(Step(st, ops[0]).0, k, r, keyed || IsKeyframe(ops[0]), before + [ops[0]], done1, ops[1..]);
      assert before + ops == (before + [ops[0]]) + ops[1..];
      assert ops == [ops[0]] + ops[1..];
      DeltaFramesJoin(Step(st, ops[0]).1, HandedOff(Step(st, ops[0]).0, ops[1..]));
    }
  }

  lemma DeltaFramesJoin(a: seq<Handed>, b: seq<Handed>)
    ensures DeltaFrames(a + b) == DeltaFrames(a) + DeltaFrames(b)
  {
  }

  /** What is handed off is what is due, and the rest is stashed. */
  lemma DoneIsDue(st: State, k: SeqNum, r: nat, keyed: bool, ops: seq<Op>, done: set<Frame>, f: Frame)
    requires DeliveredBy(st, k, r, keyed, ops, done) && f in FramesOf(ops)
    ensures f in done <==> Due(k, r, keyed, ops, f)
    ensures f in st.stash <==> f !in done
  {
    hide FramesOf, PaddingOf, Laid, Settles, Lists, Pos;
    if keyed {
      var p: nat :| Settles(st, k, r, p, FramesOf(ops), PaddingOf(k, ops), done);
      DueIffDone(st, k, r, p, ops, done, f);
    }
  }

  /** From the start, over every run of the keyframe `k` and of frames and padding of its group, in whatever order they come: a
      frame is handed off as soon as, and only if, the keyframe and everything in between have come. */
  lemma RunDelivers(k: SeqNum, ops: seq<Op>, f: Frame)
    requires FittingRun(k, 0, false, [], ops) && f in FramesOf(ops)
    ensures f in DeltaFrames(HandedOff(INIT, ops)) <==> Due(k, 0, HasKeyframe(ops), ops, f)
    ensures f in After(INIT, ops).stash <==> !Due(k, 0, HasKeyframe(ops), ops, f)
  {
    NothingHasCome(k);
    hide DeltaFrames, HandedOff, FramesOf, DeliveredBy, Due;
    var done := RunFrom(INIT, k, 0, false, [], {}, ops);
    assert [] + ops == ops;
    DoneIsDue(After(INIT, ops), k, 0, HasKeyframe(ops), ops, done, f);
  }

  lemma NothingHasCome(k: SeqNum)
    ensures DeliveredBy(INIT, k, 0, false, [], {})
  {
    assert FramesOf([]) == {} && PaddingOf(k, []) == {};
  }

  /** The same from any state in which one group is tracked, has come to position `r`, and nothing waits. */
  lemma RunDeliversFrom(st: State, k: SeqNum, l: nat, r: nat, ops: seq<Op>, f: Frame)
    requires Group(st.core, k, l, r, {}) && st.stash == []
    requires FittingRun(k, r, true, [], ops) && f in FramesOf(ops)
    ensures f in DeltaFrames(HandedOff(st, ops)) <==> Due(k, r, true, ops, f)
    ensures f in After(st, ops).stash <==> !Due(k, r, true, ops, f)
  {
    hide DeltaFrames, HandedOff, FramesOf, DeliveredBy, Due, Group, FittingRun;
    NothingWaits(st, k, l, r);
    var done := RunFrom(st, k, r, true, [], {}, ops);
    assert [] + ops == ops;
    DoneIsDue(After(st, ops), k, r, true, ops, done, f);
  }

  lemma NothingWaits(st: State, k: SeqNum, l: nat, r: nat)
    requires Group(st.core, k, l, r, {}) && st.stash == []
    ensures DeliveredBy(st, k, r, true, [], {})
  {
    assert FramesOf([]) == {} && PaddingOf(k, []) == {};
    assert Beyond({}, r) == {};
    assert Stands(st.core, k, r, r, {}, {}, {});
    assert Settles(st, k, r, r, {}, {}, {});
  }
}
