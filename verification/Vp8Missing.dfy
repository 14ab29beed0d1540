/** Which picture ids the VP8 finder takes for not yet received, from what has happened: the frames that were considered, and
    those that were handed off. */
module Vp8Missing {
  import opened SequenceNumbers
  import opened OrderedNumbers
  import opened Unwrapping
  import opened Vp8RefFinderModel
  import Vp8Settled

  /** A frame is considered, or handed off. */
  datatype Note = Comes(id: PictureId) | Leaves(id: PictureId)

  type Log = seq<Note>

  /** The id, or the one 100 before it, is ahead of the newest. */
  predicate Moves(newest: PictureId, id: PictureId) {
    AheadOfMod(32768, id, newest) || AheadOfMod(32768, PlusId(id, -100), newest)
  }

  /** The newest id considered so far, or -1. */
  function Newest(log: Log): IdOrNone {
    if log == [] then -1
    else
      var before, k := Newest(log[..|log| - 1]), |log| - 1;
      if log[k].Comes? && (before == -1 || Moves(before, log[k].id)) then log[k].id else before
  }

  /** The newest id moves on to `e` or past it, fewer than 100 past it. */
  predicate MovesPast(newest: PictureId, id: PictureId, e: PictureId) {
    Moves(newest, id) && DiffMod(32768, e, id) < 100 && DiffMod(32768, e, id) < DiffMod(32768, newest, id)
  }

  predicate Passes(log: Log, i: nat, e: PictureId)
    requires i < |log|
  {
    log[i].Comes? && Newest(log[..i]) != -1 && MovesPast(Newest(log[..i]), log[i].id, e)
  }

  /** The frame `e` is handed off, or falls more than 100 behind the newest. */
  predicate EndsWait(log: Log, i: nat, e: PictureId)
    requires i < |log|
  {
    if log[i].Leaves? then log[i].id == e
    else Newest(log[..i + 1]) != -1 && DiffMod(32768, e, Newest(log[..i + 1])) > 100
  }

  /** The newest id has come to `e` or past it, and nothing has ended the wait for it since. */
  ghost predicate StillToCome(log: Log, e: PictureId) {
    exists i: nat :: i < |log| && Passes(log, i, e) && forall j: nat | i < j < |log| :: !EndsWait(log, j, e)
  }

  // ----- one more note

  lemma NewestOfMore(log: Log, note: Note)
    ensures Newest(log + [note]) ==
            if note.Comes? && (Newest(log) == -1 || Moves(Newest(log), note.id)) then note.id else Newest(log)
  {
    assert (log + [note])[..|log|] == log;
  }

  lemma EarlierAlike(log: Log, note: Note, i: nat, e: PictureId)
    requires i < |log|
    ensures Passes(log + [note], i, e) <==> Passes(log, i, e)
    ensures EndsWait(log + [note], i, e) <==> EndsWait(log, i, e)
  {
    assert (log + [note])[..i] == log[..i] && (log + [note])[i] == log[i] && (log + [note])[..i + 1] == log[..i + 1];
  }

  lemma StillToComeOfMore(log: Log, note: Note, e: PictureId)
    ensures var more := log + [note];
            StillToCome(more, e) <==> Passes(more, |log|, e) || (StillToCome(log, e) && !EndsWait(more, |log|, e))
  {
    hide Passes, EndsWait;
    var more := log + [note];
    forall i: nat | i < |log| ensures Passes(more, i, e) == Passes(log, i, e) && EndsWait(more, i, e) == EndsWait(log, i, e) {
      EarlierAlike(log, note, i, e);
    }
    if StillToCome(more, e) {
      var i: nat :| i < |more| && Passes(more, i, e) && forall j: nat | i < j < |more| :: !EndsWait(more, j, e);
      if i < |log| {
        assert Passes(log, i, e) && forall j: nat | i < j < |log| :: !EndsWait(log, j, e);
        assert !EndsWait(more, |log|, e);
      }
    }
    if StillToCome(log, e) && !EndsWait(more, |log|, e) {
      var i: nat :| i < |log| && Passes(log, i, e) && forall j: nat | i < j < |log| :: !EndsWait(log, j, e);
      assert Passes(more, i, e) && forall j: nat | i < j < |more| :: !EndsWait(more, j, e);
    }
  }

  /** What the last note passes, and which wait it ends. */
  lemma LastNote(log: Log, note: Note, e: PictureId)
    ensures var more, newest, after := log + [note], Newest(log), Newest(log + [note]);
            && (Passes(more, |log|, e) <==>
                  note.Comes? && newest != -1 && MovesPast(newest, note.id, e))
            && (EndsWait(more, |log|, e) <==>
                  if note.Comes? then after != -1 && DiffMod(32768, e, after) > 100 else note.id == e)
  {
    var more := log + [note];
    assert more[|log|] == note && more[..|log|] == log && more[..|log| + 1] == more;
  }

  // ----- what the finder records

  /** The last id and the ids not yet received. */
  datatype Record = Record(last: IdOrNone, notYet: seq<nat>)

  function Noted(r: Record, note: Note): Record {
    match note
    case Comes(id) =>
      var c := NotePictureId(Core(r.last, r.notYet, map[], NEW_UNWRAPPER, NEW_UNWRAPPER), id);
      Record(c.lastPictureId, c.notYetReceived)
    case Leaves(id) => r.(notYet := Erase(32768, r.notYet, id))
  }

  function Recorded(log: Log): Record {
    if log == [] then Record(-1, []) else Noted(Recorded(log[..|log| - 1]), log[|log| - 1])
  }

  /** The one frame that the record does not survive: its id moves the newest on, but an id still to come that it leaves more than
      100 behind is half the space or more behind the id 100 before it. */
  ghost predicate TooFar(log: Log, id: PictureId) {
    && Newest(log) != -1 && Moves(Newest(log), id)
    && exists e: PictureId :: StillToCome(log, e) && DiffMod(32768, e, id) > 100 && !AheadOfMod(32768, PlusId(id, -100), e)
  }

  /** No frame is of that kind. */
  ghost predicate Paced(log: Log) {
    forall i: nat | i < |log| && log[i].Comes? :: !TooFar(log[..i], log[i].id)
  }

  /** At most 100 behind the last id, oldest first. */
  ghost predicate Ordered(notYet: seq<nat>, last: PictureId) {
    && (forall i | 0 <= i < |notYet| :: notYet[i] < 32768 && DiffMod(32768, notYet[i], last) <= 100)
    && forall i, j | 0 <= i < j < |notYet| :: DiffMod(32768, notYet[i], last) > DiffMod(32768, notYet[j], last)
  }

  /** The record holds what is still to come. */
  ghost predicate Agrees(r: Record, log: Log) {
    && r.last == Newest(log)
    && (if r.last == -1 then r.notYet == [] else Ordered(r.notYet, r.last))
    && forall e: PictureId :: e in r.notYet <==> StillToCome(log, e)
  }

  lemma RecordedOfMore(log: Log, note: Note)
    ensures Recorded(log + [note]) == Noted(Recorded(log), note)
  {
    assert (log + [note])[..|log|] == log;
    hide Noted;
  }

  // ----- a frame is handed off

  lemma OrderedSlices(notYet: seq<nat>, last: PictureId, i: nat)
    requires Ordered(notYet, last) && i < |notYet|
    ensures Ordered(notYet[..i] + notYet[i + 1..], last)
  {
    var rest := notYet[..i] + notYet[i + 1..];
    assert forall k | 0 <= k < |rest| :: rest[k] == notYet[if k < i then k else k + 1];
    hide DiffMod;
  }

  lemma OneFewer(notYet: seq<nat>, i: nat)
    requires i < |notYet| && forall k, l | 0 <= k < l < |notYet| :: notYet[k] != notYet[l]
    ensures forall e :: e in notYet[..i] + notYet[i + 1..] <==> e in notYet && e != notYet[i]
  {
    var rest := notYet[..i] + notYet[i + 1..];
    assert forall k | 0 <= k < |rest| :: rest[k] == notYet[if k < i then k else k + 1];
    forall e | e in notYet && e != notYet[i] ensures e in rest {
      var k: nat :| k < |notYet| && notYet[k] == e;
      assert rest[if k < i then k else k - 1] == e;
    }
  }

  /** The older ids of an ordered record are behind the younger ones. */
  lemma OlderIsBehind(notYet: seq<nat>, last: PictureId, i: nat, j: nat)
    requires Ordered(notYet, last) && i < j < |notYet|
    ensures AheadOfMod(32768, notYet[j], notYet[i]) && !AheadOfMod(32768, notYet[i], notYet[j])
  {
  }

  lemma ErasesOne(notYet: seq<nat>, last: PictureId, id: PictureId)
    requires Ordered(notYet, last)
    ensures Ordered(Erase(32768, notYet, id), last)
    ensures forall e :: e in Erase(32768, notYet, id) <==> e in notYet && e != id
  {
    if k: nat :| k < |notYet| && notYet[k] == id {
      forall j | 0 <= j < |notYet| ensures AheadOfMod(32768, id, notYet[j]) <==> j < k {
        if j < k {
          OlderIsBehind(notYet, last, j, k);
        } else if k < j {
          OlderIsBehind(notYet, last, k, j);
        }
      }
      LowerBoundUnique(32768, notYet, id, k);
      OrderedSlices(notYet, last, k);
      OneFewer(notYet, k);
    }
  }

  lemma LeavingAgrees(r: Record, log: Log, id: PictureId)
    requires Agrees(r, log)
    ensures Agrees(Noted(r, Leaves(id)), log + [Leaves(id)])
  {
    NewestOfMore(log, Leaves(id));
    if r.last != -1 {
      ErasesOne(r.notYet, r.last, id);
    }
    hide Ordered, StillToCome, Passes, EndsWait, Erase;
    forall e: PictureId ensures e in Erase(32768, r.notYet, id) <==> StillToCome(log + [Leaves(id)], e) {
      StillToComeOfMore(log, Leaves(id), e);
      LastNote(log, Leaves(id), e);
      if r.last == -1 {
        NothingErased(id);
      }
    }
    if r.last == -1 {
      NothingErased(id);
    }
  }

  lemma NothingErased(id: PictureId)
    ensures Erase(32768, [], id) == []
  {
  }

  // ----- a frame is considered

  /** Where an id at most 100 behind the newest lies for a frame that does not move it. */
  lemma StaysInReach(newest: PictureId, id: PictureId, e: PictureId)
    requires !Moves(newest, id) && DiffMod(32768, e, newest) <= 100
    ensures !AheadOfMod(32768, PlusId(id, -100), e)
  {
  }

  lemma StayNoted(r: Record, id: PictureId)
    requires r.last != -1 && Ordered(r.notYet, r.last) && !Moves(r.last, id)
    ensures Noted(r, Comes(id)) == r
  {
    if r.notYet != [] {
      StaysInReach(r.last, id, r.notYet[0]);
    }
    assert LowerBound(32768, r.notYet, PlusId(id, -100)) == 0 && r.notYet[0..] == r.notYet;
    hide LowerBound, PlusId, FillGap, AheadOfMod;
  }

  lemma StayAgrees(r: Record, log: Log, id: PictureId)
    requires Agrees(r, log) && r.last != -1 && !Moves(r.last, id)
    ensures Agrees(Noted(r, Comes(id)), log + [Comes(id)])
  {
    hide *;
    var more := log + [Comes(id)];
    NewestStays(r, log, id);
    StayNoted(r, id);
    forall e: PictureId ensures StillToCome(more, e) <==> StillToCome(log, e) {
      StayAgreesOn(r, log, id, e);
    }
    SameNewest(r, log, more);
  }

  lemma NewestStays(r: Record, log: Log, id: PictureId)
    requires Agrees(r, log) && r.last != -1 && !Moves(r.last, id)
    ensures Newest(log + [Comes(id)]) == Newest(log) == r.last
    ensures Ordered(r.notYet, r.last)
  {
    NewestOfMore(log, Comes(id));
    hide Newest, Moves, StillToCome, Ordered;
  }

  lemma SameNewest(r: Record, log: Log, more: Log)
    requires Agrees(r, log) && Newest(more) == Newest(log)
    requires forall e: PictureId :: StillToCome(more, e) <==> StillToCome(log, e)
    ensures Agrees(r, more)
  {
    hide StillToCome, Ordered, Newest;
  }

  lemma StayAgreesOn(r: Record, log: Log, id: PictureId, e: PictureId)
    requires Agrees(r, log) && r.last != -1 && !Moves(r.last, id)
    ensures StillToCome(log + [Comes(id)], e) <==> StillToCome(log, e)
  {
    NewestOfMore(log, Comes(id));
    StillToComeOfMore(log, Comes(id), e);
    LastNote(log, Comes(id), e);
    hide StillToCome, Passes, EndsWait, Moves, Ordered, DiffMod;
    if StillToCome(log, e) {
      AtMostHundredBehind(r.notYet, r.last, e);
    }
  }

  lemma AtMostHundredBehind(notYet: seq<nat>, last: PictureId, e: PictureId)
    requires Ordered(notYet, last) && e in notYet
    ensures DiffMod(32768, e, last) <= 100
  {
  }

  lemma FirstAgrees(r: Record, log: Log, id: PictureId)
    requires Agrees(r, log) && r.last == -1
    ensures Agrees(Noted(r, Comes(id)), log + [Comes(id)])
  {
    NewestOfMore(log, Comes(id));
    assert Noted(r, Comes(id)) == Record(id, []);
    hide StillToCome, Passes, EndsWait, Noted, Moves;
    forall e: PictureId ensures !StillToCome(log + [Comes(id)], e) {
      StillToComeOfMore(log, Comes(id), e);
      LastNote(log, Comes(id), e);
    }
  }

  /** A frame that moves the newest id on does so by at most half the space and 100. */
  lemma MoveDistance(newest: PictureId, id: PictureId, e: PictureId)
    requires Moves(newest, id) && DiffMod(32768, e, newest) <= 100
    ensures 0 < DiffMod(32768, newest, id) <= 16484
    ensures DiffMod(32768, e, id) == DiffMod(32768, e, newest) + DiffMod(32768, newest, id)
    ensures DiffMod(32768, e, id) <= 100 ==> !AheadOfMod(32768, PlusId(id, -100), e)
  {
  }

  /** Where the recording of a gap starts. */
  lemma GapStart(newest: PictureId, id: PictureId)
    requires Moves(newest, id)
    ensures var last, d := LastConsidered(newest, id), DiffMod(32768, newest, id);
            && AheadOfMod(32768, id, last) && DiffMod(32768, last, id) == (if d < 100 then d else 100)
            && (d <= 100 ==> last == newest)
  {
  }

  /** The ids kept are those at most 100 behind. */
  lemma KeptAre(notYet: seq<nat>, last: PictureId, id: PictureId) returns (n: nat)
    requires Ordered(notYet, last) && Moves(last, id)
    requires forall e | e in notYet && DiffMod(32768, e, id) > 100 :: AheadOfMod(32768, PlusId(id, -100), e)
    ensures n <= |notYet| && n == LowerBound(32768, notYet, PlusId(id, -100))
    ensures forall i | 0 <= i < |notYet| :: i < n <==> DiffMod(32768, notYet[i], id) > 100
    ensures Ordered(notYet[n..], id)
  {
    n := LowerBound(32768, notYet, PlusId(id, -100));
    forall i | 0 <= i < |notYet|
      ensures DiffMod(32768, notYet[i], id) == DiffMod(32768, notYet[i], last) + DiffMod(32768, last, id)
      ensures DiffMod(32768, notYet[i], id) > 100 <==> AheadOfMod(32768, PlusId(id, -100), notYet[i])
    {
      MoveDistance(last, id, notYet[i]);
      assert notYet[i] in notYet;
    }
    assert forall i, j | 0 <= i < j < |notYet| :: DiffMod(32768, notYet[i], id) > DiffMod(32768, notYet[j], id);
    hide *;
    OlderFirst(notYet, id, PlusId(id, -100));
  }

  lemma OlderFirst(notYet: seq<nat>, id: PictureId, oldId: PictureId)
    requires forall i | 0 <= i < |notYet| :: notYet[i] < 32768
    requires forall i | 0 <= i < |notYet| :: DiffMod(32768, notYet[i], id) > 100 <==> AheadOfMod(32768, oldId, notYet[i])
    requires forall i, j | 0 <= i < j < |notYet| :: DiffMod(32768, notYet[i], id) > DiffMod(32768, notYet[j], id)
    ensures var n := LowerBound(32768, notYet, oldId);
            && (forall i | 0 <= i < |notYet| :: i < n <==> DiffMod(32768, notYet[i], id) > 100)
            && Ordered(notYet[n..], id)
  {
    hide DiffMod, AheadOfMod, LowerBound;
  }

  lemma MoveNoted(r: Record, id: PictureId, n: nat)
    requires r.last != -1 && Ordered(r.notYet, r.last) && Moves(r.last, id)
    requires n <= |r.notYet| && n == LowerBound(32768, r.notYet, PlusId(id, -100)) && Ordered(r.notYet[n..], id)
    ensures var last := LastConsidered(r.last, id);
            Noted(r, Comes(id)) == Record(id, r.notYet[n..] + Vp8Settled.Following(last, DiffMod(32768, last, id)))
  {
    var kept, last := r.notYet[n..], LastConsidered(r.last, id);
    GapStart(r.last, id);
    forall x | x in kept ensures x < 32768 && DiffMod(32768, x, last) <= 200 - DiffMod(32768, last, id) {
      assert x in r.notYet;
      MoveDistance(r.last, id, x);
    }
    Vp8Settled.FillGapAppends(kept, last, id);
    hide LowerBound, PlusId, FillGap, AheadOfMod, LastConsidered, Moves, DiffMod, Vp8Settled.Following;
  }

  lemma FollowingAre(last: PictureId, id: PictureId)
    requires DiffMod(32768, last, id) <= 100
    ensures var following := Vp8Settled.Following(last, DiffMod(32768, last, id));
            && Ordered(following, id)
            && (forall x | x in following :: DiffMod(32768, x, id) < DiffMod(32768, last, id))
            && forall e: PictureId :: e in following <==> DiffMod(32768, e, id) < DiffMod(32768, last, id)
  {
    var k := DiffMod(32768, last, id);
    var following := Vp8Settled.Following(last, k);
    forall i | 0 <= i < k ensures following[i] < 32768 && DiffMod(32768, following[i], id) == k - 1 - i {
    }
    forall e: PictureId | DiffMod(32768, e, id) < k ensures e in following {
      assert following[k - 1 - DiffMod(32768, e, id)] == e;
    }
  }

  lemma OrderedJoins(a: seq<nat>, b: seq<nat>, id: PictureId, d: nat)
    requires Ordered(a, id) && Ordered(b, id)
    requires forall x | x in a :: DiffMod(32768, x, id) >= d
    requires forall x | x in b :: DiffMod(32768, x, id) < d
    ensures Ordered(a + b, id)
  {
    hide DiffMod;
    forall i, j | 0 <= i < j < |a + b| ensures DiffMod(32768, (a + b)[i], id) > DiffMod(32768, (a + b)[j], id) {
      if i < |a| <= j {
        assert a[i] in a && b[j - |a|] in b;
      }
    }
  }

  lemma MoveAgrees(r: Record, log: Log, id: PictureId)
    requires Agrees(r, log) && r.last != -1 && Moves(r.last, id) && !TooFar(log, id)
    ensures Agrees(Noted(r, Comes(id)), log + [Comes(id)])
  {
    var notYet, newest := r.notYet, r.last;
    var n := KeptAre(notYet, newest, id);
    MoveNoted(r, id, n);
    var last := LastConsidered(newest, id);
    var d := DiffMod(32768, last, id);
    GapStart(newest, id);
    FollowingAre(last, id);
    forall x | x in notYet[n..] ensures x < 32768 && DiffMod(32768, x, id) >= d {
      assert x in notYet;
      MoveDistance(newest, id, x);
    }
    var following := Vp8Settled.Following(last, d);
    OrderedJoins(notYet[n..], following, id, d);
    NewestOfMore(log, Comes(id));
    forall e: PictureId ensures e in notYet[n..] + following <==> StillToCome(log + [Comes(id)], e) {
      StillToComeOfMore(log, Comes(id), e);
      LastNote(log, Comes(id), e);
      InSuffixIff(notYet, n, id, e);
    }
  }

  lemma InSuffixIff(notYet: seq<nat>, n: nat, id: PictureId, e: PictureId)
    requires n <= |notYet| && forall i | 0 <= i < |notYet| :: i < n <==> DiffMod(32768, notYet[i], id) > 100
    ensures e in notYet[n..] <==> e in notYet && DiffMod(32768, e, id) <= 100
  {
    if e in notYet && DiffMod(32768, e, id) <= 100 {
      var i: nat :| i < |notYet| && notYet[i] == e;
      assert notYet[n..][i - n] == e;
    }
  }

  // ----- every history

  lemma PacedBefore(log: Log)
    requires Paced(log) && log != []
    ensures var k := |log| - 1; Paced(log[..k]) && (log[k].Comes? ==> !TooFar(log[..k], log[k].id))
  {
    hide TooFar;
    var k := |log| - 1;
    forall i: nat | i < k && log[i].Comes? ensures !TooFar(log[..k][..i], log[i].id) {
      assert log[..k][..i] == log[..i];
    }
  }

  lemma NothingRecorded()
    ensures Agrees(Record(-1, []), [])
  {
  }

  lemma NotedAgrees(r: Record, log: Log, note: Note)
    requires Agrees(r, log) && (note.Comes? ==> !TooFar(log, note.id))
    ensures Agrees(Noted(r, note), log + [note])
  {
    match note
    case Leaves(id) => LeavingAgrees(r, log, id);
    case Comes(id) =>
      if r.last == -1 {
        FirstAgrees(r, log, id);
      } else if Moves(r.last, id) {
        MoveAgrees(r, log, id);
      } else {
        StayAgrees(r, log, id);
      }
  }

  /** After every history without such a frame the finder takes for not yet received exactly the ids still to come. */
  lemma {:induction false} RecordedIsStillToCome(log: Log)
    requires Paced(log)
    ensures Agrees(Recorded(log), log)
  {
    hide Agrees, Paced, TooFar, Noted;
    if log == [] {
      NothingRecorded();
    } else {
      var k := |log| - 1;
      PacedBefore(log);
      RecordedIsStillToCome(log[..k]);
      NotedAgrees(Recorded(log[..k]), log[..k], log[k]);
      assert log == log[..k] + [log[k]];
    }
  }

  // ----- the frame that the record does not survive

  const FAR_LOG: Log := [Comes(0), Comes(100), Comes(16486)]

  lemma {:induction false} GapKeeps(notYet: seq<nat>, last: PictureId, id: PictureId, e: nat)
    requires e in notYet
    ensures e in FillGap(notYet, last, id)
    decreases DiffMod(32768, last, id)
  {
    if last != id {
      var next := PlusId(last, 1);
      var i := LowerBound(32768, notYet, next);
      assert notYet == notYet[..i] + notYet[i..];
      GapKeeps(Insert(32768, notYet, next), next, id, e);
    }
  }

  lemma NoneRecorded()
    ensures Recorded([Comes(0)]) == Record(0, [])
  {
    RecordedOfMore([], Comes(0));
    assert [] + [Comes(0)] == [Comes(0)];
  }

  lemma HundredNoted()
    ensures Noted(Record(0, []), Comes(100)) == Record(100, Vp8Settled.Following(0, 100))
  {
    assert Ordered([], 0) && Moves(0, 100) && Ordered([], 100);
    var none: seq<nat> := [];
    assert none[0..] == none && LowerBound(32768, none, PlusId(100, -100)) == 0;
    MoveNoted(Record(0, none), 100, 0);
    GapStart(0, 100);
    hide Noted, Vp8Settled.Following, LowerBound;
    var following := Vp8Settled.Following(0, 100);
    assert none[0..] + following == following;
  }

  lemma HundredRecorded()
    ensures Recorded([Comes(0), Comes(100)]) == Record(100, Vp8Settled.Following(0, 100))
  {
    hide *;
    NoneRecorded();
    HundredNoted();
    RecordedOfMore([Comes(0)], Comes(100));
    assert [Comes(0)] + [Comes(100)] == [Comes(0), Comes(100)];
  }

  lemma FarNoted()
    ensures 1 in Noted(Record(100, Vp8Settled.Following(0, 100)), Comes(16486)).notYet
  {
    var notYet := Vp8Settled.Following(0, 100);
    assert notYet[0] == 1 && !AheadOfMod(32768, PlusId(16486, -100), 1);
    assert LowerBound(32768, notYet, PlusId(16486, -100)) == 0 && notYet[0..] == notYet;
    assert AheadOfMod(32768, 16386, 100) && LastConsidered(100, 16486) == 16386;
    hide LowerBound, FillGap, Vp8Settled.Following;
    GapKeeps(notYet, 16386, 16486, 1);
  }

  /** After these three frames id 1 is on record although it is 16485 behind the newest. */
  lemma StaleIdStays()
    ensures Newest(FAR_LOG) == 16486 && 1 in Recorded(FAR_LOG).notYet && !StillToCome(FAR_LOG, 1)
  {
    var two: Log := [Comes(0), Comes(100)];
    assert FAR_LOG == two + [Comes(16486)];
    HundredRecorded();
    RecordedOfMore(two, Comes(16486));
    FarNoted();
    NewestOfMore([], Comes(0));
    NewestOfMore([Comes(0)], Comes(100));
    assert [] + [Comes(0)] == [Comes(0)] && [Comes(0)] + [Comes(100)] == two;
    NewestOfMore(two, Comes(16486));
    StillToComeOfMore(two, Comes(16486), 1);
    LastNote(two, Comes(16486), 1);
    hide StillToCome, Recorded, Noted, Newest, Passes, EndsWait;
  }
}
