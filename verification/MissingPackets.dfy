/** The bookkeeping of sequence numbers not yet received: `newest_inserted_seq_num_` and
    `missing_packets_` of packet_buffer.cpp. */
module MissingPackets {
  import opened SequenceNumbers
  import opened Options
  import opened OrderedNumbers

  const MAX_PADDING_AGE := 1000

  datatype Window = Window(newest: Option<SeqNum>, missing: seq<SeqNum>)

  /** Every missing number is 1 to 1000 behind the newest one, oldest first. */
  ghost predicate InWindow(w: Window) {
    match w.newest
    case None => w.missing == []
    case Some(n) =>
      && (forall i | 0 <= i < |w.missing| :: 0 < ForwardDiff(w.missing[i], n) <= MAX_PADDING_AGE)
      && (forall i, j | 0 <= i < j < |w.missing| ::
            ForwardDiff(w.missing[i], n) > ForwardDiff(w.missing[j], n))
  }

  /** The loop that records everything from `n` up to but excluding `s`. */
  function Fill(missing: seq<SeqNum>, n: SeqNum, s: SeqNum): Window
    decreases ForwardDiff(n, s)
  {
    if AheadOf(s, n) then Fill(Insert(65536, missing, n), Plus(n, 1), s) else Window(Some(n), missing)
  }

  /** UpdateMissingPackets. */
  function UpdateMissing(w: Window, s: SeqNum): Window {
    var newest := if w.newest.None? then s else w.newest.value;
    if AheadOf(s, newest) then
      var oldest := Plus(s, -MAX_PADDING_AGE);
      var kept := w.missing[LowerBound(65536, w.missing, oldest)..];
      Fill(kept, Plus(if AheadOf(oldest, newest) then oldest else newest, 1), s)
    else
      Window(Some(newest), Erase(65536, w.missing, s))
  }

  /** `missing_packets_.erase(begin, upper_bound(s))`, done when the frame ending in `s` is complete. */
  function EraseCompleted(missing: seq<SeqNum>, s: SeqNum): seq<SeqNum> {
    missing[UpperBound(65536, missing, s)..]
  }

  /** The erasure in ClearTo keeps the last number at or behind `s`. */
  function EraseCleared(missing: seq<SeqNum>, s: SeqNum): seq<SeqNum> {
    var i := UpperBound(65536, missing, s);
    if i == 0 then missing else missing[i - 1..]
  }

  // ----- the window invariant

  lemma WindowIsOrdered(w: Window)
    requires InWindow(w)
    ensures |w.missing| <= MAX_PADDING_AGE
    ensures forall i, j | 0 <= i < |w.missing| && 0 <= j < |w.missing| ::
              i < j <==> AheadOf(w.missing[j], w.missing[i])
  {
    if w.newest.Some? {
      var n := w.newest.value;
      DescendingBound(seq(|w.missing|, i requires 0 <= i < |w.missing| => ForwardDiff(w.missing[i], n)), MAX_PADDING_AGE);
      BehindIsTotalOrder(65536, w.missing, n);
    }
  }

  lemma EraseInWindow(w: Window, s: SeqNum)
    requires InWindow(w)
    ensures InWindow(w.(missing := Erase(65536, w.missing, s)))
  {
  }

  /** The numbers from `n` on, `k` of them. */
  function Range(n: SeqNum, k: nat): seq<SeqNum> {
    seq(k, (i: nat) => Plus(n, i))
  }

  lemma {:induction false} FillAppends(missing: seq<SeqNum>, n: SeqNum, s: SeqNum)
    requires ForwardDiff(n, s) <= MAX_PADDING_AGE
    requires forall i | 0 <= i < |missing| :: 0 < ForwardDiff(missing[i], s) <= MAX_PADDING_AGE
    requires forall i | 0 <= i < |missing| :: ForwardDiff(missing[i], s) > ForwardDiff(n, s)
    ensures Fill(missing, n, s) == Window(Some(s), missing + Range(n, ForwardDiff(n, s)))
    decreases ForwardDiff(n, s)
  {
    hide Fill, Range, Insert;
    var d := ForwardDiff(n, s);
    if d > 0 {
      FillOneMore(missing, n, s);
      DiffStep(n, s);
      forall i | 0 <= i < |missing + [n]|
        ensures 0 < ForwardDiff((missing + [n])[i], s) <= MAX_PADDING_AGE && ForwardDiff((missing + [n])[i], s) > d - 1
      {
        assert i < |missing| ==> (missing + [n])[i] == missing[i];
      }
      hide ForwardDiff, Plus;
      FillAppends(missing + [n], Plus(n, 1), s);
      RangeStep(n, d);
      assert missing + [n] + Range(Plus(n, 1), d - 1) == missing + ([n] + Range(Plus(n, 1), d - 1));
    } else {
      FillNothing(missing, n, s);
    }
  }

  lemma FillNothing(missing: seq<SeqNum>, n: SeqNum, s: SeqNum)
    requires ForwardDiff(n, s) == 0
    ensures Fill(missing, n, s) == Window(Some(s), missing + Range(n, 0))
  {
    assert missing + Range(n, 0) == missing;
  }

  /** A number ahead of all on record is recorded last. */
  lemma FillOneMore(missing: seq<SeqNum>, n: SeqNum, s: SeqNum)
    requires 0 < ForwardDiff(n, s) <= MAX_PADDING_AGE
    requires forall i | 0 <= i < |missing| :: ForwardDiff(n, s) < ForwardDiff(missing[i], s) <= MAX_PADDING_AGE
    ensures Fill(missing, n, s) == Fill(missing + [n], Plus(n, 1), s)
  {
    assert AheadOf(s, n);
    forall j | 0 <= j < |missing| ensures AheadOf(n, missing[j]) {
      NearerIsAhead(missing[j], n, s);
    }
    hide LowerBound, ForwardDiff, Plus;
    LowerBoundUnique(65536, missing, n, |missing|);
    assert Insert(65536, missing, n) == missing + [n];
  }

  lemma RangeStep(n: SeqNum, k: nat)
    requires k > 0
    ensures Range(n, k) == [n] + Range(Plus(n, 1), k - 1)
  {
    forall i: nat | i < k - 1 ensures Plus(Plus(n, 1), i) == Plus(n, i + 1) {
      PlusPlus(n, 1, i);
    }
  }

  lemma RangeInWindow(missing: seq<SeqNum>, n: SeqNum, s: SeqNum)
    requires ForwardDiff(n, s) <= MAX_PADDING_AGE
    requires InWindow(Window(Some(s), missing))
    requires forall i | 0 <= i < |missing| :: ForwardDiff(missing[i], s) > ForwardDiff(n, s)
    ensures InWindow(Window(Some(s), missing + Range(n, ForwardDiff(n, s))))
  {
    var d := ForwardDiff(n, s);
    forall i: nat | i < d ensures ForwardDiff(Plus(n, i), s) == d - i {
    }
  }

  /** The one jump the window does not survive: exactly half the number space, to a numerically
      larger number, while a number a full 1000 behind the newest one, across the wrap, is missing. */
  predicate HalfSpaceJump(w: Window, s: SeqNum) {
    && w.newest.Some?
    && s == w.newest.value + 32768
    && w.newest.value < MAX_PADDING_AGE
    && w.missing != []
    && w.missing[0] == Plus(w.newest.value, -MAX_PADDING_AGE)
  }

  /** How many numbers a jump from `n` to `s` newly records as missing. */
  function Skipped(n: SeqNum, s: SeqNum): (k: int)
    ensures 0 <= k < MAX_PADDING_AGE
  {
    var d := ForwardDiff(n, s);
    if d == 0 then 0 else if d <= MAX_PADDING_AGE then d - 1 else MAX_PADDING_AGE - 1
  }

  function Kept(missing: seq<SeqNum>, s: SeqNum): seq<SeqNum> {
    missing[LowerBound(65536, missing, Plus(s, -MAX_PADDING_AGE))..]
  }

  lemma JumpDistance(e: SeqNum, n: SeqNum, s: SeqNum)
    requires 0 < ForwardDiff(e, n) <= MAX_PADDING_AGE && AheadOf(s, n)
    requires !(s == n + 32768 && n < MAX_PADDING_AGE && e == Plus(n, -MAX_PADDING_AGE))
    ensures ForwardDiff(e, s) == ForwardDiff(e, n) + ForwardDiff(n, s)
    ensures AheadOf(Plus(s, -MAX_PADDING_AGE), e) <==> ForwardDiff(e, s) > MAX_PADDING_AGE
  {
  }

  lemma JumpStart(n: SeqNum, s: SeqNum)
    requires AheadOf(s, n)
    ensures var oldest := Plus(s, -MAX_PADDING_AGE);
            Plus(if AheadOf(oldest, n) then oldest else n, 1) == Plus(s, -Skipped(n, s))
    ensures ForwardDiff(Plus(s, -Skipped(n, s)), s) == Skipped(n, s) < ForwardDiff(n, s)
  {
    var d := ForwardDiff(n, s);
    StepsBack(s, Skipped(n, s));
    if d <= MAX_PADDING_AGE {
      ShortJump(n, s);
    } else {
      LongJump(n, s);
    }
    hide AheadOf, Plus, ForwardDiff;
  }

  lemma StepsBack(s: SeqNum, k: int)
    requires 0 <= k < 65536
    ensures ForwardDiff(Plus(s, -k), s) == k
  {
  }

  lemma ShortJump(n: SeqNum, s: SeqNum)
    requires 0 < ForwardDiff(n, s) <= MAX_PADDING_AGE
    ensures !AheadOf(Plus(s, -MAX_PADDING_AGE), n) && Plus(n, 1) == Plus(s, 1 - ForwardDiff(n, s))
  {
  }

  lemma LongJump(n: SeqNum, s: SeqNum)
    requires ForwardDiff(n, s) > MAX_PADDING_AGE && AheadOf(s, n)
    ensures AheadOf(Plus(s, -MAX_PADDING_AGE), n) && Plus(Plus(s, -MAX_PADDING_AGE), 1) == Plus(s, 1 - MAX_PADDING_AGE)
  {
  }

  lemma JumpDistances(w: Window, s: SeqNum)
    requires InWindow(w) && w.newest.Some? && AheadOf(s, w.newest.value) && !HalfSpaceJump(w, s)
    ensures forall i | 0 <= i < |w.missing| ::
              && ForwardDiff(w.missing[i], s) == ForwardDiff(w.missing[i], w.newest.value) + ForwardDiff(w.newest.value, s)
              && (AheadOf(Plus(s, -MAX_PADDING_AGE), w.missing[i]) <==> ForwardDiff(w.missing[i], s) > MAX_PADDING_AGE)
  {
    var n := w.newest.value;
    forall i | 0 <= i < |w.missing|
      ensures ForwardDiff(w.missing[i], s) == ForwardDiff(w.missing[i], n) + ForwardDiff(n, s)
      ensures AheadOf(Plus(s, -MAX_PADDING_AGE), w.missing[i]) <==> ForwardDiff(w.missing[i], s) > MAX_PADDING_AGE
    {
      assert i > 0 ==> ForwardDiff(w.missing[i], n) < ForwardDiff(w.missing[0], n);
      assert w.missing[i] == Plus(n, -MAX_PADDING_AGE) ==> ForwardDiff(w.missing[i], n) == MAX_PADDING_AGE;
      JumpDistance(w.missing[i], n, s);
    }
  }

  /** A number recorded as missing stays on record exactly as long as it is at most 1000 behind. */
  lemma KeptIsWindow(w: Window, s: SeqNum)
    requires InWindow(w) && w.newest.Some? && AheadOf(s, w.newest.value) && !HalfSpaceJump(w, s)
    ensures InWindow(Window(Some(s), Kept(w.missing, s)))
    ensures forall e | e in w.missing :: e in Kept(w.missing, s) <==> ForwardDiff(e, s) <= MAX_PADDING_AGE
    ensures forall e | e in Kept(w.missing, s) :: ForwardDiff(e, s) > ForwardDiff(w.newest.value, s)
  {
    var n := w.newest.value;
    var d := ForwardDiff(n, s);
    var missing := w.missing;
    var cut := LowerBound(65536, missing, Plus(s, -MAX_PADDING_AGE));
    JumpDistances(w, s);
    DescendingDistances(missing, n, s, d, cut);
  }

  /** The same with the distances to `n` and `s` as plain numbers. */
  lemma DescendingDistances(missing: seq<SeqNum>, n: SeqNum, s: SeqNum, d: int, cut: nat)
    requires d > 0 && cut <= |missing|
    requires InWindow(Window(Some(n), missing))
    requires forall i | 0 <= i < |missing| :: ForwardDiff(missing[i], s) == ForwardDiff(missing[i], n) + d
    requires forall i | 0 <= i < cut :: ForwardDiff(missing[i], s) > MAX_PADDING_AGE
    requires cut < |missing| ==> ForwardDiff(missing[cut], s) <= MAX_PADDING_AGE
    ensures InWindow(Window(Some(s), missing[cut..]))
    ensures forall e | e in missing :: e in missing[cut..] <==> ForwardDiff(e, s) <= MAX_PADDING_AGE
    ensures forall e | e in missing[cut..] :: ForwardDiff(e, s) > d
  {
    forall i | cut <= i < |missing| ensures ForwardDiff(missing[i], s) <= MAX_PADDING_AGE {
      assert i > cut ==> ForwardDiff(missing[i], n) < ForwardDiff(missing[cut], n);
    }
    forall i | 0 <= i < |missing| && missing[i] in missing[cut..] ensures i >= cut {
    }
  }

  /** After a jump ahead the record is what is kept of it, then every number jumped over that is
      fewer than 1000 behind. */
  lemma JumpAhead(w: Window, s: SeqNum)
    requires InWindow(w) && w.newest.Some? && AheadOf(s, w.newest.value) && !HalfSpaceJump(w, s)
    ensures var d := Skipped(w.newest.value, s);
            UpdateMissing(w, s) == Window(Some(s), Kept(w.missing, s) + Range(Plus(s, -d), d))
    ensures InWindow(UpdateMissing(w, s))
  {
    var n := w.newest.value;
    var kept := Kept(w.missing, s);
    JumpStart(n, s);
    KeptIsWindow(w, s);
    FillAppends(kept, Plus(s, -Skipped(n, s)), s);
    RangeInWindow(kept, Plus(s, -Skipped(n, s)), s);
  }

  /** UpdateMissingPackets keeps the window exactly when the jump is not the half-space one. */
  lemma UpdateMissingKeepsWindow(w: Window, s: SeqNum)
    requires InWindow(w)
    ensures InWindow(UpdateMissing(w, s)) <==> !HalfSpaceJump(w, s)
  {
    var newest := if w.newest.None? then s else w.newest.value;
    if !AheadOf(s, newest) {
      assert !HalfSpaceJump(w, s);
      EraseInWindow(w.(newest := Some(newest)), s);
    } else if HalfSpaceJump(w, s) {
      HalfSpaceJumpLeavesStale(w, s);
    } else {
      JumpAhead(w, s);
    }
  }

  lemma {:induction false} FillKeeps(missing: seq<SeqNum>, n: SeqNum, s: SeqNum, e: SeqNum)
    requires e in missing && AheadOrAt(s, n)
    ensures e in Fill(missing, n, s).missing && Fill(missing, n, s).newest == Some(s)
    decreases ForwardDiff(n, s)
  {
    if AheadOf(s, n) {
      var i := LowerBound(65536, missing, n);
      assert missing == missing[..i] + missing[i..];
      FillKeeps(Insert(65536, missing, n), Plus(n, 1), s, e);
    }
  }

  lemma HalfSpaceJumpLeavesStale(w: Window, s: SeqNum)
    requires InWindow(w) && HalfSpaceJump(w, s)
    ensures !InWindow(UpdateMissing(w, s))
    ensures UpdateMissing(w, s).newest == Some(s) && w.missing[0] in UpdateMissing(w, s).missing
  {
    var oldest := Plus(s, -MAX_PADDING_AGE);
    var e := w.missing[0];
    assert AheadOf(s, w.newest.value) && AheadOf(oldest, w.newest.value) && !AheadOf(oldest, e);
    assert AheadOrAt(s, Plus(oldest, 1)) && ForwardDiff(e, s) > MAX_PADDING_AGE;
    hide Fill, LowerBound, AheadOf, AheadOrAt, HalfSpaceJump, Plus, ForwardDiff;
    assert LowerBound(65536, w.missing, oldest) == 0 && w.missing[0..] == w.missing;
    FillKeeps(w.missing, Plus(oldest, 1), s, e);
    var r := UpdateMissing(w, s);
    var i :| 0 <= i < |r.missing| && r.missing[i] == e;
    assert ForwardDiff(r.missing[i], s) > MAX_PADDING_AGE;
  }
}
