/** The reference finder for streams that carry nothing but sequence numbers
    (rtp_seq_num_only_ref_finder.cc) as a state machine. */
module SeqNumRefFinderModel {
  import opened SequenceNumbers
  import opened OrderedNumbers
  import opened Unwrapping
  import opened StashRetry

  const MAX_PADDING_AGE := 100

  datatype FrameType = Key | Delta | Empty

  datatype Frame = Frame(kind: FrameType, firstSeqNum: SeqNum, lastSeqNum: SeqNum, payload: seq<nat>)

  /** A frame handed off, with the id and the reference it was given. */
  datatype Handed = Handed(frame: Frame, id: int, numReferences: nat, reference: int)

  /** A tracked keyframe: the end of the last completed frame of its group of pictures, and the same
      advanced by continuous padding. */
  datatype Gop = Gop(key: SeqNum, last: SeqNum, lastWithPadding: SeqNum)

  /** The state without the stash. */
  datatype Core = Core(gop: seq<Gop>, padding: seq<SeqNum>, unwrapper: Unwrapper)

  datatype State = State(core: Core, stash: seq<Frame>)

  const INIT := State(Core([], [], NEW_UNWRAPPER), [])

  // ----- the keyframe map, ordered oldest first

  function Keys(gop: seq<Gop>): (keys: seq<SeqNum>)
    ensures |keys| == |gop| && forall i | 0 <= i < |gop| :: keys[i] == gop[i].key
  {
    seq(|gop|, i requires 0 <= i < |gop| => gop[i].key)
  }

  /** Tracks a new keyframe unless it is tracked already. */
  function InsertGop(gop: seq<Gop>, k: SeqNum): seq<Gop> {
    var i := LowerBound(65536, Keys(gop), k);
    if i < |gop| && gop[i].key == k then gop else gop[..i] + [Gop(k, k, k)] + gop[i..]
  }

  /** How many of the oldest keyframes are forgotten: those more than 100 behind `last`, but not the last one. */
  function CleanCount(gop: seq<Gop>, last: SeqNum): (n: nat)
    requires gop != []
    ensures n < |gop|
  {
    var i := LowerBound(65536, Keys(gop), Plus(last, -100));
    if i < |gop| then i else |gop| - 1
  }

  function CleanGop(gop: seq<Gop>, last: SeqNum): (r: seq<Gop>)
    requires gop != []
    ensures r != []
  {
    gop[CleanCount(gop, last)..]
  }

  // ----- padding

  /** Advances over the padding that continues `from`, consuming it; `i` is where it would be listed. */
  function AdvancePadding(from: SeqNum, padding: seq<SeqNum>, i: nat): (SeqNum, seq<SeqNum>)
    requires i <= |padding|
    decreases |padding|
  {
    if i < |padding| && padding[i] == Plus(from, 1) then AdvancePadding(Plus(from, 1), padding[..i] + padding[i + 1..], i)
    else (from, padding)
  }

  /** UpdateLastPictureIdWithPadding. */
  function UpdateWithPadding(c: Core, s: SeqNum): Core {
    var ub := UpperBound(65536, Keys(c.gop), s);
    if ub == 0 then c
    else
      var e := c.gop[ub - 1];
      var (advanced, padding) :=
        AdvancePadding(e.lastWithPadding, c.padding, LowerBound(65536, c.padding, Plus(e.lastWithPadding, 1)));
      var e' := e.(lastWithPadding := advanced);
      if ForwardDiff(e.key, s) > 10000 then c.(gop := [e'.(key := s)], padding := padding)
      else c.(gop := c.gop[ub - 1 := e'], padding := padding)
  }

  // ----- frames

  /** ManageFrameInternal. */
  function ManageFrameInternal(c: Core, f: Frame): (Core, Decision<Handed>) {
    var gop := if f.kind == Key then InsertGop(c.gop, f.lastSeqNum) else c.gop;
    if gop == [] then (c, Stash) else Consider(c.(gop := CleanGop(gop, f.lastSeqNum)), f)
  }

  /** The decision once old keyframes are forgotten. */
  function Consider(c: Core, f: Frame): (Core, Decision<Handed>) {
    var ub := UpperBound(65536, Keys(c.gop), f.lastSeqNum);
    if ub == 0 then (c, Drop)
    else if f.kind == Delta && Plus(f.firstSeqNum, -1) != c.gop[ub - 1].lastWithPadding then (c, Stash)
    else Release(c, ub - 1, f)
  }

  /** The frame continues group `i`: it takes its reference, and the group moves on to it. */
  function Release(c: Core, i: nat, f: Frame): (r: (Core, Decision<Handed>))
    requires i < |c.gop|
    ensures r.1.HandOff?
  {
    var e := c.gop[i];
    var (u1, reference) := Unwrap(65536, c.unwrapper, e.last);
    var e' := if AheadOf(f.lastSeqNum, e.last) then e.(last := f.lastSeqNum, lastWithPadding := f.lastSeqNum) else e;
    var c1 := UpdateWithPadding(c.(gop := c.gop[i := e'], unwrapper := u1), f.lastSeqNum);
    var (u2, id) := Unwrap(65536, u1, f.lastSeqNum);
    (c1.(unwrapper := u2), HandOff(Handed(f, id, if f.kind == Delta then 1 else 0, reference)))
  }

  // ----- public operations

  function ManageFrame(st: State, f: Frame): (State, seq<Handed>) {
    var (c, decision) := ManageFrameInternal(st.core, f);
    match decision
    case Stash => (State(c, PushStash(st.stash, f)), [])
    case HandOff(h) =>
      var pass := Retry(ManageFrameInternal, c, st.stash);
      (State(pass.core, pass.kept), [h] + pass.handed)
    case Drop => (st.(core := c), [])
  }

  function StashPadding(padding: seq<SeqNum>, s: SeqNum): seq<SeqNum> {
    Insert(65536, padding[LowerBound(65536, padding, Plus(s, -MAX_PADDING_AGE))..], s)
  }

  function PaddingReceived(st: State, s: SeqNum): (State, seq<Handed>) {
    var c := st.core.(padding := StashPadding(st.core.padding, s));
    var pass := Retry(ManageFrameInternal, UpdateWithPadding(c, s), st.stash);
    (State(pass.core, pass.kept), pass.handed)
  }

  /** The frames that start behind `s`. */
  function StartsBehind(s: SeqNum): Frame -> bool {
    (f: Frame) => AheadOf(s, f.firstSeqNum)
  }

  function ClearTo(st: State, s: SeqNum): State {
    st.(stash := DropWhere(st.stash, StartsBehind(s)))
  }

  datatype Op = Manage(frame: Frame) | PaddingIn(seqNum: SeqNum) | ClearUpTo(seqNum: SeqNum)

  function Step(st: State, op: Op): (State, seq<Handed>) {
    match op
    case Manage(f) => ManageFrame(st, f)
    case PaddingIn(s) => PaddingReceived(st, s)
    case ClearUpTo(s) => (ClearTo(st, s), [])
  }

  /** Where a run ends. */
  function After(st: State, ops: seq<Op>): State
    decreases |ops|
  {
    if ops == [] then st else After(Step(st, ops[0]).0, ops[1..])
  }

  /** A newly inserted keyframe is never cleaned away and always finds a group at or before it. */
  lemma KeyframeIsHandedOff(c: Core, f: Frame)
    requires f.kind == Key
    ensures ManageFrameInternal(c, f).1.HandOff?
  {
    hide InsertGop, LowerBound, UpperBound, Release, CleanCount;
    var k := f.lastSeqNum;
    var gop := InsertGop(c.gop, k);
    var own := InsertedGop(c.gop, k);
    CleanKeepsOwn(gop, k, own);
    var n := CleanCount(gop, k);
    assert Keys(CleanGop(gop, k))[0] == gop[n].key;
    if gop[n].key != k {
      AheadOfIsTotal(65536, k, gop[n].key);
    }
  }

  /** A keyframe is tracked behind the keyframes it is ahead of. */
  lemma InsertedGop(gop: seq<Gop>, k: SeqNum) returns (own: nat)
    ensures var r := InsertGop(gop, k);
            own < |r| && r[own].key == k && forall j | 0 <= j < own :: AheadOf(k, r[j].key)
  {
    own := LowerBound(65536, Keys(gop), k);
    assert forall j | 0 <= j < own :: AheadOf(k, Keys(gop)[j]);
    hide LowerBound;
  }

  /** Cleaning up for a tracked keyframe leaves it tracked. */
  lemma CleanKeepsOwn(gop: seq<Gop>, k: SeqNum, own: nat)
    requires own < |gop| && gop[own].key == k
    ensures CleanCount(gop, k) <= own
  {
    assert Keys(gop)[own] == k && !AheadOf(Plus(k, -100), k);
    hide LowerBound;
  }

  /** The group a frame continues never starts ahead of the frame. */
  lemma ChosenGopIsNotAhead(gop: seq<Gop>, s: SeqNum)
    ensures var ub := UpperBound(65536, Keys(gop), s); ub > 0 ==> AheadOrAt(s, gop[ub - 1].key)
  {
    var ub := UpperBound(65536, Keys(gop), s);
    if ub > 0 && gop[ub - 1].key != s {
      assert !AheadOf(Keys(gop)[ub - 1], s);
      AheadOfIsTotal(65536, s, gop[ub - 1].key);
    }
  }
}
