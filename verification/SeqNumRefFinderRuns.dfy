/** The no-gap reference chain and the stash fixpoint, over every run of the sequence-number-only finder. */
module SeqNumRefFinderRuns {
  import opened SequenceNumbers
  import opened OrderedNumbers
  import opened Unwrapping
  import opened StashRetry
  import opened SeqNumRefFinderModel

  // ----- the no-gap reference chain

  /** What has happened so far: padding received and frames handed off, in order. */
  datatype Event = Padding(seqNum: SeqNum) | Released(handed: Handed)

  type Trace = seq<Event>

  /** Every number after `last` up to `upTo` has been received as padding. */
  ghost predicate Padded(last: SeqNum, upTo: SeqNum, trace: Trace) {
    forall i: nat | 1 <= i <= ForwardDiff(last, upTo) :: Padding(Plus(last, i)) in trace
  }

  /** Event `j` handed off a frame that ends in `last`. */
  ghost predicate ReleasedAt(trace: Trace, j: int, last: SeqNum) {
    0 <= j < |trace| && trace[j].Released? && trace[j].handed.frame.lastSeqNum == last
  }

  /** A delta frame starts exactly one past an earlier handed-off frame followed only by padding already
      received, and its one reference is that frame's number modulo 2^16; a keyframe has no reference. */
  ghost predicate NoGap(h: Handed, trace: Trace) {
    && h.id % 65536 == h.frame.lastSeqNum
    && (h.frame.kind != Delta ==> h.numReferences == 0)
    && (h.frame.kind == Delta ==>
          && h.numReferences == 1
          && exists j: int, last: SeqNum ::
               && ReleasedAt(trace, j, last)
               && Padded(last, Plus(h.frame.firstSeqNum, -1), trace)
               && h.reference % 65536 == last)
  }

  ghost predicate NoGaps(trace: Trace) {
    forall i | 0 <= i < |trace| && trace[i].Released? :: NoGap(trace[i].handed, trace[..i])
  }

  ghost predicate GopGrounded(e: Gop, trace: Trace) {
    && (exists j :: ReleasedAt(trace, j, e.last))
    && Padded(e.last, e.lastWithPadding, trace)
  }

  /** Both components of every tracked keyframe follow from what has happened. */
  ghost predicate Grounded(c: Core, trace: Trace) {
    && (forall i | 0 <= i < |c.gop| :: GopGrounded(c.gop[i], trace))
    && (forall i | 0 <= i < |c.padding| :: Padding(c.padding[i]) in trace)
    && Unwrapped(65536, c.unwrapper)
  }

  lemma GopStaysGrounded(e: Gop, trace: Trace, more: Trace)
    requires GopGrounded(e, trace)
    ensures GopGrounded(e, trace + more)
  {
    var j :| ReleasedAt(trace, j, e.last);
    assert ReleasedAt(trace + more, j, e.last);
  }

  lemma StaysGrounded(c: Core, trace: Trace, more: Trace)
    requires Grounded(c, trace)
    ensures Grounded(c, trace + more)
  {
    forall i | 0 <= i < |c.gop| ensures GopGrounded(c.gop[i], trace + more) {
      GopStaysGrounded(c.gop[i], trace, more);
    }
  }

  lemma NoGapsExtend(trace: Trace, h: Handed)
    requires NoGaps(trace) && NoGap(h, trace)
    ensures NoGaps(trace + [Released(h)])
  {
    var longer := trace + [Released(h)];
    forall i | 0 <= i < |longer| && longer[i].Released? ensures NoGap(longer[i].handed, longer[..i]) {
      if i < |trace| {
        assert longer[..i] == trace[..i];
      } else {
        assert longer[..i] == trace;
      }
    }
  }

  lemma {:induction false} AdvanceIsPadded(last: SeqNum, from: SeqNum, padding: seq<SeqNum>, i: nat, trace: Trace)
    requires i <= |padding| && Padded(last, from, trace)
    requires forall j | 0 <= j < |padding| :: Padding(padding[j]) in trace
    ensures var (advanced, rest) := AdvancePadding(from, padding, i);
            && Padded(last, advanced, trace)
            && forall j | 0 <= j < |rest| :: Padding(rest[j]) in trace
    decreases |padding|
  {
    if i < |padding| && padding[i] == Plus(from, 1) {
      var next := Plus(from, 1);
      assert ForwardDiff(last, next) == 0 || ForwardDiff(last, next) == ForwardDiff(last, from) + 1;
      PlusForwardDiff(last, next);
      AdvanceIsPadded(last, next, padding[..i] + padding[i + 1..], i, trace);
    }
  }

  lemma UpdateKeepsGrounded(c: Core, s: SeqNum, trace: Trace)
    requires Grounded(c, trace)
    ensures Grounded(UpdateWithPadding(c, s), trace)
  {
    var ub := UpperBound(65536, Keys(c.gop), s);
    if ub > 0 {
      var e := c.gop[ub - 1];
      assert GopGrounded(e, trace);
      AdvanceIsPadded(e.last, e.lastWithPadding, c.padding, LowerBound(65536, c.padding, Plus(e.lastWithPadding, 1)), trace);
    }
  }

  /** Handing a frame off links it to the trace and grounds the group it moves on. */
  lemma ReleaseIsGrounded(c: Core, i: nat, f: Frame, trace: Trace)
    requires i < |c.gop| && NoGaps(trace) && Unwrapped(65536, c.unwrapper)
    requires forall j | 0 <= j < |c.padding| :: Padding(c.padding[j]) in trace
    requires forall j | 0 <= j < |c.gop| :: GopGrounded(c.gop[j], trace) || c.gop[j] == Gop(f.lastSeqNum, f.lastSeqNum, f.lastSeqNum)
    requires f.kind == Delta ==> GopGrounded(c.gop[i], trace) && c.gop[i].lastWithPadding == Plus(f.firstSeqNum, -1)
    ensures var (c', decision) := Release(c, i, f);
            && decision.HandOff?
            && NoGaps(trace + [Released(decision.handed)])
            && Grounded(c', trace + [Released(decision.handed)])
  {
    var e := c.gop[i];
    var (u1, reference) := Unwrap(65536, c.unwrapper, e.last);
    var (u2, id) := Unwrap(65536, u1, f.lastSeqNum);
    UnwrapIsCongruent(65536, c.unwrapper, e.last);
    UnwrapIsCongruent(65536, u1, f.lastSeqNum);
    var h := Handed(f, id, if f.kind == Delta then 1 else 0, reference);
    if f.kind == Delta {
      var j :| ReleasedAt(trace, j, e.last);
    }
    NoGapsExtend(trace, h);
    var longer := trace + [Released(h)];
    assert ReleasedAt(longer, |trace|, f.lastSeqNum);
    var e' := if AheadOf(f.lastSeqNum, e.last) then e.(last := f.lastSeqNum, lastWithPadding := f.lastSeqNum) else e;
    var c1 := c.(gop := c.gop[i := e'], unwrapper := u1);
    forall j | 0 <= j < |c1.gop| ensures GopGrounded(c1.gop[j], longer) {
      if GopGrounded(c.gop[j], trace) {
        GopStaysGrounded(c.gop[j], trace, [Released(h)]);
      }
    }
    UpdateKeepsGrounded(c1, f.lastSeqNum, longer);
  }

  /** No gaps so far, and every tracked keyframe follows from what has happened. */
  ghost predicate Linked(c: Core, trace: Trace) {
    Grounded(c, trace) && NoGaps(trace)
  }

  /** Every entry considered for a frame is grounded, or is the entry the frame itself adds as a keyframe. */
  lemma CandidatesAreGrounded(c: Core, f: Frame, trace: Trace)
    requires Grounded(c, trace)
    requires f.kind == Key || c.gop != []
    ensures var gop := CleanGop(if f.kind == Key then InsertGop(c.gop, f.lastSeqNum) else c.gop, f.lastSeqNum);
            forall j | 0 <= j < |gop| ::
              GopGrounded(gop[j], trace) || (f.kind == Key && gop[j] == Gop(f.lastSeqNum, f.lastSeqNum, f.lastSeqNum))
  {
    hide GopGrounded, InsertGop, CleanGop;
    var tracked := if f.kind == Key then InsertGop(c.gop, f.lastSeqNum) else c.gop;
    InsertedMembers(c.gop, f.lastSeqNum);
    CleanedMembers(tracked, f.lastSeqNum);
    forall j | 0 <= j < |CleanGop(tracked, f.lastSeqNum)|
      ensures var g := CleanGop(tracked, f.lastSeqNum)[j];
              GopGrounded(g, trace) || (f.kind == Key && g == Gop(f.lastSeqNum, f.lastSeqNum, f.lastSeqNum))
    {
      assert CleanGop(tracked, f.lastSeqNum)[j] in tracked;
    }
  }

  lemma InsertedMembers(gop: seq<Gop>, k: SeqNum)
    ensures InsertGop(gop, k) != [] && forall g | g in InsertGop(gop, k) :: g in gop || g == Gop(k, k, k)
  {
    hide LowerBound;
  }

  lemma CleanedMembers(gop: seq<Gop>, s: SeqNum)
    requires gop != []
    ensures forall g | g in CleanGop(gop, s) :: g in gop
  {
    hide CleanCount;
  }

  lemma ManageIsLinked(c: Core, f: Frame, trace: Trace)
    requires Linked(c, trace)
    ensures var (c', decision) := ManageFrameInternal(c, f);
            Linked(c', if decision.HandOff? then trace + [Released(decision.handed)] else trace)
  {
    hide Release, GopGrounded, NoGap, UpperBound, LowerBound, CleanGop, InsertGop, Plus;
    if f.kind == Key {
      KeyframeIsHandedOff(c, f);
    }
    if f.kind == Key || c.gop != [] {
      CandidatesAreGrounded(c, f, trace);
      var cleaned := CleanGop(if f.kind == Key then InsertGop(c.gop, f.lastSeqNum) else c.gop, f.lastSeqNum);
      var ub := UpperBound(65536, Keys(cleaned), f.lastSeqNum);
      if ub > 0 && !(f.kind == Delta && Plus(f.firstSeqNum, -1) != cleaned[ub - 1].lastWithPadding) {
        ReleaseIsGrounded(c.(gop := cleaned), ub - 1, f, trace);
      }
    }
  }

  function Releases(handed: seq<Handed>): Trace {
    seq(|handed|, i requires 0 <= i < |handed| => Released(handed[i]))
  }

  lemma ReleasesConcat(trace: Trace, a: seq<Handed>, b: seq<Handed>)
    ensures (trace + Releases(a)) + Releases(b) == trace + Releases(a + b)
  {
  }

  lemma ReleasesFirst(trace: Trace, h: Handed, b: seq<Handed>)
    ensures (trace + [Released(h)]) + Releases(b) == trace + Releases([h] + b)
  {
  }

  lemma {:induction false} PassIsLinked(c: Core, pending: seq<Frame>, trace: Trace)
    requires Linked(c, trace)
    ensures var pass := RetryPass(ManageFrameInternal, c, pending); Linked(pass.core, trace + Releases(pass.handed))
    decreases |pending|
  {
    if pending == [] {
      assert trace + Releases([]) == trace;
    } else {
      ManageIsLinked(c, pending[0], trace);
      var (c1, decision) := ManageFrameInternal(c, pending[0]);
      if decision.HandOff? {
        PassIsLinked(c1, pending[1..], trace + [Released(decision.handed)]);
        ReleasesFirst(trace, decision.handed, RetryPass(ManageFrameInternal, c1, pending[1..]).handed);
      } else {
        PassIsLinked(c1, pending[1..], trace);
      }
    }
  }

  lemma {:induction false} RetryIsLinked(c: Core, stash: seq<Frame>, trace: Trace)
    requires Linked(c, trace)
    ensures var pass := Retry(ManageFrameInternal, c, stash); Linked(pass.core, trace + Releases(pass.handed))
    decreases |stash|
  {
    PassIsLinked(c, stash, trace);
    var pass := RetryPass(ManageFrameInternal, c, stash);
    if pass.handed != [] {
      RetryIsLinked(pass.core, pass.kept, trace + Releases(pass.handed));
      ReleasesConcat(trace, pass.handed, Retry(ManageFrameInternal, pass.core, pass.kept).handed);
    }
  }

  /** What an operation adds to the trace. */
  function Events(st: State, op: Op): Trace {
    (if op.PaddingIn? then [Padding(op.seqNum)] else []) + Releases(Step(st, op).1)
  }

  lemma ManageFrameIsLinked(st: State, f: Frame, trace: Trace)
    requires Linked(st.core, trace)
    ensures var (st', handed) := ManageFrame(st, f); Linked(st'.core, trace + Releases(handed))
  {
    hide Linked, ManageFrameInternal, Retry, RetryPass;
    ManageIsLinked(st.core, f, trace);
    var (c, decision) := ManageFrameInternal(st.core, f);
    if decision.HandOff? {
      RetryIsLinked(c, st.stash, trace + [Released(decision.handed)]);
      ReleasesFirst(trace, decision.handed, Retry(ManageFrameInternal, c, st.stash).handed);
    } else {
      assert trace + Releases([]) == trace;
    }
  }

  lemma PaddingIsLinked(st: State, s: SeqNum, trace: Trace)
    requires Linked(st.core, trace)
    ensures var (st', handed) := PaddingReceived(st, s); Linked(st'.core, (trace + [Padding(s)]) + Releases(handed))
  {
    var longer := trace + [Padding(s)];
    StaysGrounded(st.core, trace, [Padding(s)]);
    forall i | 0 <= i < |longer| && longer[i].Released? ensures NoGap(longer[i].handed, longer[..i]) {
      assert longer[..i] == trace[..i];
    }
    var c := st.core.(padding := StashPadding(st.core.padding, s));
    assert Grounded(c, longer);
    UpdateKeepsGrounded(c, s, longer);
    RetryIsLinked(UpdateWithPadding(c, s), st.stash, longer);
  }

  lemma StepIsLinked(st: State, op: Op, trace: Trace)
    requires Linked(st.core, trace)
    ensures Linked(Step(st, op).0.core, trace + Events(st, op))
  {
    var added := Releases(Step(st, op).1);
    match op
    case Manage(f) =>
      ManageFrameIsLinked(st, f, trace);
      assert [] + added == added;
    case PaddingIn(s) =>
      PaddingIsLinked(st, s, trace);
      assert (trace + [Padding(s)]) + added == trace + ([Padding(s)] + added);
    case ClearUpTo(s) =>
      assert trace + Events(st, op) == trace;
  }

  function TraceOf(st: State, ops: seq<Op>): Trace
    decreases |ops|
  {
    if ops == [] then [] else Events(st, ops[0]) + TraceOf(Step(st, ops[0]).0, ops[1..])
  }

  lemma Associative(a: Trace, b: Trace, c: Trace)
    ensures (a + b) + c == a + (b + c)
  {
  }

  lemma {:induction false} RunIsLinked(st: State, ops: seq<Op>, trace: Trace)
    requires Linked(st.core, trace)
    ensures Linked(After(st, ops).core, trace + TraceOf(st, ops))
    decreases |ops|
  {
    if ops == [] {
      assert trace + [] == trace;
    } else {
      StepIsLinked(st, ops[0], trace);
      RunIsLinked(Step(st, ops[0]).0, ops[1..], trace + Events(st, ops[0]));
      Associative(trace, Events(st, ops[0]), TraceOf(Step(st, ops[0]).0, ops[1..]));
    }
  }

  /** Over every run, no delta frame is handed off across a gap. */
  lemma RunHasNoGaps(ops: seq<Op>)
    ensures NoGaps(TraceOf(INIT, ops))
  {
    RunIsLinked(INIT, ops, []);
    assert [] + TraceOf(INIT, ops) == TraceOf(INIT, ops);
  }
}
