/** Which numbers the packet buffer takes for missing, from what has happened: what arrived, which frames were completed, and
    what was cleared. */
module MissingHistory {
  import opened SequenceNumbers
  import opened Options
  import opened OrderedNumbers
  import opened MissingPackets

  /** A packet or padding arrives, a frame is completed that ends in a number, numbers are cleared up to one, or the buffer is
      emptied. */
  datatype Note = Arrives(seqNum: SeqNum) | Completes(last: SeqNum) | ClearsTo(next: SeqNum) | Forgets

  type Log = seq<Note>

  /** The newest number that has arrived since the buffer was last emptied. */
  function Newest(log: Log): Option<SeqNum> {
    if log == [] then None
    else
      var before, k := Newest(log[..|log| - 1]), |log| - 1;
      match log[k]
      case Arrives(s) => if before.Some? && !AheadOf(s, before.value) then before else Some(s)
      case Forgets => None
      case _ => before
  }

  /** The arrival jumps ahead over `e`. */
  predicate JumpsOver(newest: SeqNum, s: SeqNum, e: SeqNum) {
    AheadOf(s, newest) && 0 < ForwardDiff(newest, e) < ForwardDiff(newest, s)
  }

  predicate JumpedOver(log: Log, i: nat, e: SeqNum)
    requires i < |log|
  {
    log[i].Arrives? && Newest(log[..i]).Some? && JumpsOver(Newest(log[..i]).value, log[i].seqNum, e)
  }

  /** And comes to lie fewer than 1000 ahead of it. */
  predicate Skips(log: Log, i: nat, e: SeqNum)
    requires i < |log|
  {
    JumpedOver(log, i, e) && ForwardDiff(e, log[i].seqNum) < 1000
  }

  /** Note `i` ends the wait for `e`: it arrives, it is jumped over once more, or it is given up. */
  ghost predicate EndsWait(log: Log, i: nat, e: SeqNum)
    requires i < |log|
    decreases i, 5
  {
    match log[i]
    case Arrives(s) => s == e || JumpedOver(log, i, e)
    case Completes(last) => Passed(log[..i], last, e)
    case ClearsTo(next) => Overtaken(log[..i], next, e)
    case Forgets => true
  }

  /** `e` was skipped and nothing has ended the wait for it since. */
  ghost predicate Awaited(log: Log, e: SeqNum)
    decreases |log|, 0
  {
    exists i: nat :: i < |log| && Skips(log, i, e) && forall j: nat | i < j < |log| :: !EndsWait(log, j, e)
  }

  /** `e` is 1 to 1000 behind the newest number, and awaited. */
  ghost predicate StillToCome(log: Log, e: SeqNum)
    decreases |log|, 1
  {
    Newest(log).Some? && 0 < ForwardDiff(e, Newest(log).value) <= 1000 && Awaited(log, e)
  }

  /** No number still to come that is as old as `e` or older is ahead of `s`. */
  ghost predicate Passed(log: Log, s: SeqNum, e: SeqNum)
    decreases |log|, 2
  {
    Newest(log).Some? ==>
      forall older | StillToCome(log, older) && ForwardDiff(older, Newest(log).value) >= ForwardDiff(e, Newest(log).value) ::
        !AheadOf(older, s)
  }

  /** `younger` is still to come as well, younger than `e`, and passed. */
  ghost predicate PassedYounger(log: Log, s: SeqNum, e: SeqNum, younger: SeqNum)
    decreases |log|, 3
  {
    && StillToCome(log, younger)
    && ForwardDiff(younger, Newest(log).value) < ForwardDiff(e, Newest(log).value)
    && Passed(log, s, younger)
  }

  ghost predicate Overtaken(log: Log, s: SeqNum, e: SeqNum)
    decreases |log|, 4
  {
    exists younger :: PassedYounger(log, s, e, younger)
  }

  // ----- one more note

  lemma NewestOfMore(log: Log, note: Note)
    ensures Newest(log + [note]) ==
            match note
            case Arrives(s) => if Newest(log).Some? && !AheadOf(s, Newest(log).value) then Newest(log) else Some(s)
            case Forgets => None
            case _ => Newest(log)
  {
    assert (log + [note])[..|log|] == log;
  }

  lemma EarlierAlike(log: Log, note: Note, i: nat, e: SeqNum)
    requires i < |log|
    ensures Skips(log + [note], i, e) <==> Skips(log, i, e)
    ensures EndsWait(log + [note], i, e) <==> EndsWait(log, i, e)
  {
    assert (log + [note])[..i] == log[..i] && (log + [note])[i] == log[i];
  }

  lemma LastAlike(log: Log, note: Note, e: SeqNum)
    ensures (log + [note])[|log|] == note && (log + [note])[..|log|] == log
  {
  }

  /** A number is awaited if the last note skips it, or if it was awaited before and the last note does not end that. */
  lemma AwaitedOfMore(log: Log, note: Note, e: SeqNum)
    ensures var more := log + [note];
            Awaited(more, e) <==> Skips(more, |log|, e) || (Awaited(log, e) && !EndsWait(more, |log|, e))
  {
    hide Skips, EndsWait;
    var more := log + [note];
    forall i: nat | i < |log| ensures Skips(more, i, e) == Skips(log, i, e) && EndsWait(more, i, e) == EndsWait(log, i, e) {
      EarlierAlike(log, note, i, e);
    }
    if Awaited(more, e) {
      var i: nat :| i < |more| && Skips(more, i, e) && forall j: nat | i < j < |more| :: !EndsWait(more, j, e);
      if i < |log| {
        assert Skips(log, i, e) && forall j: nat | i < j < |log| :: !EndsWait(log, j, e);
        assert !EndsWait(more, |log|, e);
      }
    }
    if Awaited(log, e) && !EndsWait(more, |log|, e) {
      var i: nat :| i < |log| && Skips(log, i, e) && forall j: nat | i < j < |log| :: !EndsWait(log, j, e);
      assert Skips(more, i, e) && forall j: nat | i < j < |more| :: !EndsWait(more, j, e);
    }
  }

  // ----- what the buffer records

  /** What becomes of the record with one more note. */
  function Noted(w: Window, note: Note): Window {
    match note
    case Arrives(s) => UpdateMissing(w, s)
    case Completes(last) => w.(missing := EraseCompleted(w.missing, last))
    case ClearsTo(next) => w.(missing := EraseCleared(w.missing, next))
    case Forgets => Window(None, [])
  }

  function Recorded(log: Log): Window {
    if log == [] then Window(None, []) else Noted(Recorded(log[..|log| - 1]), log[|log| - 1])
  }

  /** The one arrival that the record does not survive: half the number space ahead, to a numerically larger number, while the
      number a full 1000 behind the newest one, across the wrap, is still to come. */
  ghost predicate HalfSpace(log: Log, s: SeqNum) {
    && Newest(log).Some? && s == Newest(log).value + 32768 && Newest(log).value < 1000
    && StillToCome(log, Plus(Newest(log).value, -1000))
  }

  /** No arrival is of that kind. */
  ghost predicate Paced(log: Log) {
    forall i: nat | i < |log| && log[i].Arrives? :: !HalfSpace(log[..i], log[i].seqNum)
  }

  /** The record holds what is still to come. */
  ghost predicate Agrees(w: Window, log: Log) {
    && InWindow(w) && w.newest == Newest(log)
    && (forall e: SeqNum :: e in w.missing <==> StillToCome(log, e))
    && (if Newest(log).Some? then !Awaited(log, Newest(log).value) else forall e: SeqNum :: !Awaited(log, e))
  }

  /** Where a jump from `n` to `s` leaves a number that is at most 1000 behind then. */
  lemma JumpPlaces(n: SeqNum, s: SeqNum, e: SeqNum)
    requires AheadOf(s, n) && 0 < ForwardDiff(e, s) <= 1000
    ensures JumpsOver(n, s, e) <==> e != n && ForwardDiff(e, s) < ForwardDiff(n, s)
    ensures !JumpsOver(n, s, e) && e != n ==> 0 < ForwardDiff(e, n) <= 1000 && ForwardDiff(e, s) == ForwardDiff(e, n) + ForwardDiff(n, s)
  {
  }

  lemma RangeHolds(s: SeqNum, d: int, e: SeqNum)
    requires 0 <= d < 1000
    ensures e in Range(Plus(s, -d), d) <==> 0 < ForwardDiff(e, s) <= d
  {
    var n := Plus(s, -d);
    if 0 < ForwardDiff(e, s) <= d {
      var i := d - ForwardDiff(e, s);
      assert Range(n, d)[i] == Plus(n, i) == e;
    }
    forall i: nat | i < d ensures 0 < ForwardDiff(Plus(n, i), s) <= d {
    }
  }

  lemma KeptStaysBehind(n: SeqNum, s: SeqNum, e: SeqNum)
    requires AheadOf(s, n) && 0 < ForwardDiff(e, n) <= 1000
    ensures !JumpsOver(n, s, e) && e != s
  {
  }

  lemma OldestIsStillToCome(w: Window, log: Log)
    requires Agrees(w, log)
    ensures w.missing != [] ==> StillToCome(log, w.missing[0])
  {
    if w.missing != [] {
      assert w.missing[0] in w.missing;
    }
  }

  /** A jump ahead. */
  lemma JumpAgrees(w: Window, log: Log, s: SeqNum)
    requires Agrees(w, log) && w.newest.Some? && AheadOf(s, w.newest.value) && !HalfSpace(log, s)
    ensures Agrees(UpdateMissing(w, s), log + [Arrives(s)])
  {
    var n, more := w.newest.value, log + [Arrives(s)];
    OldestIsStillToCome(w, log);
    JumpAhead(w, s);
    KeptIsWindow(w, s);
    NewestOfMore(log, Arrives(s));
    hide UpdateMissing, InWindow, Kept, Range, Awaited, EndsWait;
    forall e: SeqNum ensures e in UpdateMissing(w, s).missing <==> StillToCome(more, e) {
      JumpAgreesOn(w, log, s, e);
    }
    AwaitedOfMore(log, Arrives(s), s);
    LastAlike(log, Arrives(s), s);
    ArrivalEnds(log, s, s);
  }

  lemma ArrivalEnds(log: Log, s: SeqNum, e: SeqNum)
    ensures var more := log + [Arrives(s)];
            && (EndsWait(more, |log|, e) <==> s == e || (Newest(log).Some? && JumpsOver(Newest(log).value, s, e)))
            && (Skips(more, |log|, e) <==> Newest(log).Some? && JumpsOver(Newest(log).value, s, e) && ForwardDiff(e, s) < 1000)
  {
    LastAlike(log, Arrives(s), e);
  }

  /** What is still to come after a jump. */
  lemma StillToComeAfterJump(log: Log, n: SeqNum, s: SeqNum, e: SeqNum)
    requires Newest(log) == Some(n) && AheadOf(s, n) && !Awaited(log, n)
    ensures StillToCome(log + [Arrives(s)], e) <==>
              || 0 < ForwardDiff(e, s) <= Skipped(n, s)
              || (StillToCome(log, e) && 0 < ForwardDiff(e, s) <= 1000)
  {
    NewestOfMore(log, Arrives(s));
    AwaitedOfMore(log, Arrives(s), e);
    ArrivalEnds(log, s, e);
    hide Awaited, EndsWait, Skips;
    if 0 < ForwardDiff(e, s) <= 1000 {
      JumpPlaces(n, s, e);
      SkippedPlaces(n, s, e);
    }
    if 0 < ForwardDiff(e, n) <= 1000 {
      KeptStaysBehind(n, s, e);
    }
    hide Plus, AheadOf, JumpsOver, Skipped;
  }

  lemma SkippedPlaces(n: SeqNum, s: SeqNum, e: SeqNum)
    requires AheadOf(s, n) && 0 < ForwardDiff(e, s) <= 1000
    ensures ForwardDiff(e, s) <= Skipped(n, s) <==> ForwardDiff(e, s) < ForwardDiff(n, s) && ForwardDiff(e, s) < 1000
    ensures ForwardDiff(e, s) <= Skipped(n, s) ==> e != n
  {
  }

  lemma JumpAgreesOn(w: Window, log: Log, s: SeqNum, e: SeqNum)
    requires Agrees(w, log) && w.newest.Some? && AheadOf(s, w.newest.value)
    requires var d := Skipped(w.newest.value, s);
             UpdateMissing(w, s) == Window(Some(s), Kept(w.missing, s) + Range(Plus(s, -d), d))
    requires forall x | x in w.missing :: x in Kept(w.missing, s) <==> ForwardDiff(x, s) <= MAX_PADDING_AGE
    ensures e in UpdateMissing(w, s).missing <==> StillToCome(log + [Arrives(s)], e)
  {
    var n, d := w.newest.value, Skipped(w.newest.value, s);
    StillToComeAfterJump(log, n, s, e);
    RangeHolds(s, d, e);
    assert e in Kept(w.missing, s) ==> e in w.missing;
    if e in w.missing {
      NotTheArrival(n, s, e);
    }
    hide UpdateMissing, Kept, Range, StillToCome, Awaited, InWindow, Plus, AheadOf, Skipped;
  }

  lemma NotTheArrival(n: SeqNum, s: SeqNum, e: SeqNum)
    ensures AheadOf(s, n) && 0 < ForwardDiff(e, n) <= 1000 ==> ForwardDiff(e, s) > 0
  {
  }

  // ----- an arrival that is no jump ahead

  lemma FoundAt(w: Window, s: SeqNum, j: nat)
    requires InWindow(w) && j < |w.missing| && w.missing[j] == s
    ensures LowerBound(65536, w.missing, s) == j
  {
    WindowIsOrdered(w);
    LowerBoundUnique(65536, w.missing, s, j);
  }

  lemma NoneTwice(w: Window, i: nat, j: nat)
    requires InWindow(w) && i < j < |w.missing|
    ensures w.missing[i] != w.missing[j]
  {
  }

  lemma NotInSuffix(missing: seq<SeqNum>, from: nat, e: SeqNum)
    requires from <= |missing| && forall k: nat | from <= k < |missing| :: missing[k] != e
    ensures e !in missing[from..]
  {
  }

  lemma EraseExact(w: Window, s: SeqNum, e: SeqNum)
    requires InWindow(w)
    ensures e in Erase(65536, w.missing, s) <==> e in w.missing && e != s
  {
    hide InWindow, AheadOf, LowerBound;
    var missing := w.missing;
    if j: nat :| j < |missing| && missing[j] == s {
      FoundAt(w, s, j);
      forall i: nat | i < |missing| && i != j ensures missing[i] != s {
        if i < j {
          NoneTwice(w, i, j);
        } else {
          NoneTwice(w, j, i);
        }
      }
      assert missing == missing[..j] + [s] + missing[j + 1..];
      NotInSuffix(missing, j + 1, s);
    }
  }

  lemma StayAgrees(w: Window, log: Log, s: SeqNum)
    requires Agrees(w, log) && (w.newest.Some? ==> !AheadOf(s, w.newest.value))
    ensures Agrees(UpdateMissing(w, s), log + [Arrives(s)])
  {
    var more := log + [Arrives(s)];
    NewestOfMore(log, Arrives(s));
    UpdateMissingKeepsWindow(w, s);
    assert UpdateMissing(w, s).missing == Erase(65536, w.missing, s);
    hide Awaited, EndsWait, Skips, InWindow, UpdateMissing, Erase;
    forall e: SeqNum ensures Awaited(more, e) <==> Awaited(log, e) && e != s {
      AwaitedOfMore(log, Arrives(s), e);
      ArrivalEnds(log, s, e);
    }
    forall e: SeqNum ensures e in UpdateMissing(w, s).missing <==> StillToCome(more, e) {
      EraseExact(w, s, e);
    }
  }

  // ----- what is given up

  lemma Indexed(w: Window, i: nat, j: nat)
    requires InWindow(w) && i < |w.missing| && j < |w.missing|
    ensures w.newest.Some?
    ensures ForwardDiff(w.missing[j], w.newest.value) < ForwardDiff(w.missing[i], w.newest.value) <==> i < j
  {
    hide ForwardDiff;
  }

  lemma InSuffixIff(w: Window, i: nat, from: nat)
    requires InWindow(w) && i < |w.missing| && from <= |w.missing|
    ensures w.missing[i] in w.missing[from..] <==> from <= i
  {
    if from <= i {
      assert w.missing[from..][i - from] == w.missing[i];
    } else {
      forall k: nat | from <= k < |w.missing| ensures w.missing[k] != w.missing[i] {
        NoneTwice(w, i, k);
      }
      NotInSuffix(w.missing, from, w.missing[i]);
    }
  }

  /** The numbers passed are the first ones, up to the first that is ahead of `s`. */
  lemma PassedIff(w: Window, log: Log, s: SeqNum, i: nat)
    requires Agrees(w, log) && i < |w.missing|
    ensures Passed(log, s, w.missing[i]) <==> i < UpperBound(65536, w.missing, s)
  {
    var missing, ub := w.missing, UpperBound(65536, w.missing, s);
    hide UpperBound, AheadOf, ForwardDiff, Awaited, StillToCome, InWindow;
    Indexed(w, i, i);
    var n := w.newest.value;
    if i < ub {
      forall older | StillToCome(log, older) && ForwardDiff(older, n) >= ForwardDiff(missing[i], n) ensures !AheadOf(older, s) {
        assert older in missing;
        var j: nat :| j < |missing| && missing[j] == older;
        Indexed(w, i, j);
      }
    } else {
      Indexed(w, i, ub);
      assert missing[ub] in missing && StillToCome(log, missing[ub]) && AheadOf(missing[ub], s);
    }
  }

  lemma OvertakenIff(w: Window, log: Log, s: SeqNum, i: nat)
    requires Agrees(w, log) && i < |w.missing|
    ensures Overtaken(log, s, w.missing[i]) <==> i + 1 < UpperBound(65536, w.missing, s)
  {
    var missing, ub := w.missing, UpperBound(65536, w.missing, s);
    hide UpperBound, AheadOf, ForwardDiff, Awaited, StillToCome, InWindow, Passed;
    if i + 1 < ub {
      Indexed(w, i, i + 1);
      PassedIff(w, log, s, i + 1);
      assert missing[i + 1] in missing && PassedYounger(log, s, missing[i], missing[i + 1]);
    } else {
      forall younger ensures !PassedYounger(log, s, missing[i], younger) {
        if StillToCome(log, younger) {
          assert younger in missing;
          var j: nat :| j < |missing| && missing[j] == younger;
          Indexed(w, i, j);
          PassedIff(w, log, s, j);
        }
      }
    }
  }

  /** The oldest numbers are erased, up to the first one ahead of `s`. */
  lemma UpTo(w: Window, log: Log, s: SeqNum, e: SeqNum)
    requires Agrees(w, log) && StillToCome(log, e)
    ensures e in w.missing[UpperBound(65536, w.missing, s)..] <==> !Passed(log, s, e)
  {
    hide UpperBound, AheadOf, ForwardDiff, Awaited, StillToCome, InWindow, Passed;
    var i: nat :| i < |w.missing| && w.missing[i] == e;
    PassedIff(w, log, s, i);
    InSuffixIff(w, i, UpperBound(65536, w.missing, s));
  }

  lemma CompletesAgrees(w: Window, log: Log, last: SeqNum)
    requires Agrees(w, log)
    ensures Agrees(Noted(w, Completes(last)), log + [Completes(last)])
  {
    var more, w' := log + [Completes(last)], Noted(w, Completes(last));
    NewestOfMore(log, Completes(last));
    assert w'.missing == w.missing[UpperBound(65536, w.missing, last)..];
    SuffixInWindow(w, UpperBound(65536, w.missing, last));
    hide UpperBound, AheadOf, ForwardDiff, Awaited, Passed, EndsWait, Noted, InWindow;
    forall e: SeqNum ensures Awaited(more, e) <==> Awaited(log, e) && !Passed(log, last, e) {
      AwaitedOfMore(log, Completes(last), e);
      CompletionEnds(log, last, e);
    }
    forall e: SeqNum ensures e in w'.missing <==> StillToCome(more, e) {
      assert e in w'.missing ==> e in w.missing;
      if StillToCome(log, e) {
        UpTo(w, log, last, e);
      }
    }
  }

  lemma CompletionEnds(log: Log, last: SeqNum, e: SeqNum)
    ensures var more := log + [Completes(last)];
            !Skips(more, |log|, e) && (EndsWait(more, |log|, e) <==> Passed(log, last, e))
  {
    LastAlike(log, Completes(last), e);
  }

  lemma SuffixInWindow(w: Window, i: nat)
    requires InWindow(w) && i <= |w.missing|
    ensures InWindow(w.(missing := w.missing[i..]))
  {
  }

  /** The same, but for the youngest of them. */
  lemma UpToBut(w: Window, log: Log, s: SeqNum, e: SeqNum)
    requires Agrees(w, log) && StillToCome(log, e)
    ensures e in EraseCleared(w.missing, s) <==> !Overtaken(log, s, e)
  {
    hide UpperBound, AheadOf, ForwardDiff, Awaited, StillToCome, InWindow, Overtaken, EraseCleared;
    var ub := UpperBound(65536, w.missing, s);
    ClearedIs(w.missing, s);
    var i: nat :| i < |w.missing| && w.missing[i] == e;
    OvertakenIff(w, log, s, i);
    InSuffixIff(w, i, if ub == 0 then 0 else ub - 1);
  }

  lemma ClearedIs(missing: seq<SeqNum>, s: SeqNum)
    ensures var ub := UpperBound(65536, missing, s); EraseCleared(missing, s) == missing[if ub == 0 then 0 else ub - 1..]
  {
  }

  lemma ClearsAgrees(w: Window, log: Log, next: SeqNum)
    requires Agrees(w, log)
    ensures Agrees(Noted(w, ClearsTo(next)), log + [ClearsTo(next)])
  {
    var more, w' := log + [ClearsTo(next)], Noted(w, ClearsTo(next));
    NewestOfMore(log, ClearsTo(next));
    var ub := UpperBound(65536, w.missing, next);
    SuffixInWindow(w, if ub == 0 then 0 else ub - 1);
    assert InWindow(w') && w'.newest == w.newest && w'.missing == EraseCleared(w.missing, next);
    assert forall e :: e in w'.missing ==> e in w.missing;
    hide UpperBound, AheadOf, ForwardDiff, Awaited, Overtaken, EndsWait, Noted, InWindow, EraseCleared;
    forall e: SeqNum ensures Awaited(more, e) <==> Awaited(log, e) && !Overtaken(log, next, e) {
      AwaitedOfMore(log, ClearsTo(next), e);
      ClearingEnds(log, next, e);
    }
    forall e: SeqNum ensures e in w'.missing <==> StillToCome(more, e) {
      assert e in w'.missing ==> e in w.missing;
      if StillToCome(log, e) {
        UpToBut(w, log, next, e);
      }
    }
  }

  lemma ClearingEnds(log: Log, next: SeqNum, e: SeqNum)
    ensures var more := log + [ClearsTo(next)];
            && !Skips(more, |log|, e)
            && (EndsWait(more, |log|, e) <==> Overtaken(log, next, e))
  {
    LastAlike(log, ClearsTo(next), e);
  }

  lemma ForgetsAgrees(log: Log)
    ensures Agrees(Window(None, []), log + [Forgets])
  {
    var more := log + [Forgets];
    NewestOfMore(log, Forgets);
    hide Awaited;
    forall e: SeqNum ensures !Awaited(more, e) {
      AwaitedOfMore(log, Forgets, e);
      LastAlike(log, Forgets, e);
    }
  }

  lemma NothingAwaited()
    ensures Agrees(Window(None, []), [])
  {
  }

  /** Behind the newest number, a number still to come is passed exactly if it is not ahead. */
  lemma PassedMeansNotAhead(log: Log, s: SeqNum, e: SeqNum)
    requires StillToCome(log, e) && AheadOrAt(Newest(log).value, s)
    ensures Passed(log, s, e) <==> !AheadOf(e, s)
  {
    var n := Newest(log).value;
    hide Awaited;
    forall older | StillToCome(log, older) && ForwardDiff(older, n) >= ForwardDiff(e, n) && !AheadOf(e, s)
      ensures !AheadOf(older, s)
    {
      OlderIsBehind(n, s, e, older);
    }
  }

  lemma OlderIsBehind(n: SeqNum, s: SeqNum, e: SeqNum, older: SeqNum)
    requires AheadOrAt(n, s) && 0 < ForwardDiff(e, n) <= ForwardDiff(older, n) <= 1000 && !AheadOf(e, s)
    ensures !AheadOf(older, s)
  {
  }

  // ----- every history

  lemma PacedBefore(log: Log)
    requires Paced(log) && log != []
    ensures var k := |log| - 1; Paced(log[..k]) && (log[k].Arrives? ==> !HalfSpace(log[..k], log[k].seqNum))
  {
    hide HalfSpace;
    var k := |log| - 1;
    forall i: nat | i < k && log[i].Arrives? ensures !HalfSpace(log[..k][..i], log[i].seqNum) {
      assert log[..k][..i] == log[..i];
    }
  }

  /** After every history without the half-space jump the buffer takes for missing exactly the numbers still to come. */
  lemma {:induction false} RecordedIsStillToCome(log: Log)
    requires Paced(log)
    ensures Agrees(Recorded(log), log)
  {
    hide Agrees, Paced, HalfSpace, Noted;
    if log == [] {
      NothingAwaited();
    } else {
      var k := |log| - 1;
      PacedBefore(log);
      RecordedIsStillToCome(log[..k]);
      NotedAgrees(Recorded(log[..k]), log[..k], log[k]);
      assert log == log[..k] + [log[k]];
    }
  }

  lemma NotedAgrees(w: Window, log: Log, note: Note)
    requires Agrees(w, log) && (note.Arrives? ==> !HalfSpace(log, note.seqNum))
    ensures Agrees(Noted(w, note), log + [note])
  {
    hide Awaited, StillToCome, UpdateMissing, InWindow, EraseCompleted, EraseCleared, HalfSpace;
    match note
    case Arrives(s) =>
      if w.newest.Some? && AheadOf(s, w.newest.value) {
        JumpAgrees(w, log, s);
      } else {
        StayAgrees(w, log, s);
      }
    case Completes(last) => CompletesAgrees(w, log, last);
    case ClearsTo(next) => ClearsAgrees(w, log, next);
    case Forgets => ForgetsAgrees(log);
  }
}
