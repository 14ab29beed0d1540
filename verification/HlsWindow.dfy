/** The sliding window of media segments of cfragment_window.cpp and the playlist that lists them
    (sections 4.3.3.2 and 6.2.2 of RFC 8216). */
module HlsWindow {
  import opened Options

  /** A finished fragment as the window sees it. */
  datatype Segment = Segment(sequenceNo: int, name: string, duration: nat)

  datatype Entry = Entry(duration: nat, name: string)

  datatype Playlist = Playlist(targetDuration: nat, mediaSequence: int, entries: seq<Entry>)

  datatype Window = Window(size: nat, segments: seq<Segment>, playlist: Option<Playlist>)

  const PLAYLIST_LENGTH: nat := 5
  const MIN_PLAYLIST_LENGTH: nat := 3

  function Last<T>(s: seq<T>, n: nat): (r: seq<T>)
    ensures |r| == if |s| > n then n else |s|
  {
    if |s| > n then s[|s| - n..] else s
  }

  function MaxDuration(segments: seq<Segment>): nat {
    if segments == [] then 0
    else
      var k := |segments| - 1;
      var m := MaxDuration(segments[..k]);
      if segments[k].duration > m then segments[k].duration else m
  }

  /** Whole seconds, rounded up. */
  function Seconds(milliseconds: nat): nat {
    (milliseconds + 999) / 1000
  }

  function Entries(segments: seq<Segment>): seq<Entry> {
    seq(|segments|, i requires 0 <= i < |segments| => Entry(segments[i].duration, segments[i].name))
  }

  /** The playlist that lists these segments. */
  function Listing(segments: seq<Segment>): Playlist
    requires segments != []
  {
    Playlist(Seconds(MaxDuration(segments)), segments[0].sequenceNo, Entries(segments))
  }

  // ----- the three steps of AppendFragment, each under the lock

  function Append(w: Window, s: Segment): Window {
    w.(segments := w.segments + [s])
  }

  /** Shrink, despite its name, writes the playlist. */
  function Shrink(w: Window): Window {
    if |w.segments| < MIN_PLAYLIST_LENGTH then w
    else w.(playlist := Some(Listing(Last(w.segments, PLAYLIST_LENGTH))))
  }

  /** UpdatePlayList, despite its name, drops the oldest segments. */
  function UpdatePlayList(w: Window): Window {
    w.(segments := Last(w.segments, w.size))
  }

  function AppendFragment(w: Window, s: Segment): Window {
    UpdatePlayList(Shrink(Append(w, s)))
  }

  /** Every entry of the playlist is the entry of a segment in the window, in the same order, and the media
      sequence number is that of the first of them. */
  ghost predicate Agrees(w: Window) {
    w.playlist.Some? ==>
      var p := w.playlist.value;
      exists k: nat :: ListsFrom(w, p, k)
  }

  ghost predicate ListsFrom(w: Window, p: Playlist, k: nat) {
    && k + |p.entries| <= |w.segments| && p.entries != []
    && p.mediaSequence == w.segments[k].sequenceNo
    && forall i | 0 <= i < |p.entries| :: p.entries[i] == Entry(w.segments[k + i].duration, w.segments[k + i].name)
  }

  // ----- every run

  function After(size: nat, segments: seq<Segment>): Window {
    if segments == [] then Window(size, [], None)
    else AppendFragment(After(size, segments[..|segments| - 1]), segments[|segments| - 1])
  }

  function Min(a: nat, b: nat): nat {
    if a < b then a else b
  }

  /** How many segments the playlist lists after `n` have been appended. */
  function Listed(size: nat, n: nat): nat {
    Min(Min(n, size + 1), PLAYLIST_LENGTH)
  }

  lemma LastOfMore<T>(s: seq<T>, x: T, n: nat)
    ensures n > 0 ==> Last(Last(s, n) + [x], n) == Last(s + [x], n)
    ensures Last(s, n) + [x] == Last(s + [x], n + 1)
  {
  }

  lemma LastOfLast<T>(s: seq<T>, m: nat, n: nat)
    requires n <= m
    ensures Last(Last(s, m), n) == Last(s, n)
  {
  }

  lemma NothingHeld(size: nat)
    ensures After(size, []) == Window(size, [], None) && Last<Segment>([], size) == []
  {
  }

  lemma AfterStep(size: nat, segments: seq<Segment>, s: Segment)
    ensures After(size, segments + [s]) == AppendFragment(After(size, segments), s)
  {
    hide AppendFragment;
    assert (segments + [s])[..|segments|] == segments;
  }

  /** After any number of segments the window holds the latest ones, and the playlist lists the latest of what the
      window held when it was written. */
  lemma {:induction false} RunHoldsLatest(size: nat, segments: seq<Segment>)
    requires size > 0
    ensures After(size, segments).size == size
    ensures After(size, segments).segments == Last(segments, size)
    ensures var p := After(size, segments).playlist;
            if Min(|segments|, size + 1) < MIN_PLAYLIST_LENGTH then p == None
            else p == Some(Listing(Last(segments, Listed(size, |segments|))))
  {
    hide After, Last, Listing;
    if segments == [] {
      NothingHeld(size);
    } else {
      var k := |segments| - 1;
      var before, s := segments[..k], segments[k];
      assert segments == before + [s];
      RunHoldsLatest(size, before);
      AfterStep(size, before, s);
      LastOfMore(before, s, size);
      var appended := Last(before, size) + [s];
      assert appended == Last(segments, size + 1);
      LastAtMost(segments, size + 1);
      if |appended| >= MIN_PLAYLIST_LENGTH {
        LastOfAny(segments, size + 1, PLAYLIST_LENGTH);
      }
    }
  }

  lemma LastAtMost<T>(s: seq<T>, n: nat)
    ensures Last(s, n) == Last(s, Min(|s|, n))
  {
  }

  lemma LastOfAny<T>(s: seq<T>, m: nat, n: nat)
    ensures Last(Last(s, m), n) == Last(s, Min(Min(|s|, m), n))
  {
  }

  // ----- the playlist agrees with the window

  /** Some entry of the playlist names no segment of the window. */
  ghost predicate NamesMissing(w: Window) {
    w.playlist.Some? && exists e :: e in w.playlist.value.entries && !exists s :: s in w.segments && s.name == e.name
  }

  lemma AgreesNamesNothingMissing(w: Window)
    requires Agrees(w)
    ensures !NamesMissing(w)
  {
    if w.playlist.Some? {
      var p := w.playlist.value;
      var k: nat :| ListsFrom(w, p, k);
      forall e | e in p.entries ensures exists s :: s in w.segments && s.name == e.name {
        var i :| 0 <= i < |p.entries| && p.entries[i] == e;
        assert w.segments[k + i] in w.segments;
      }
    }
  }

  lemma ListingIsListed(w: Window, n: nat)
    requires 0 < n <= |w.segments| && w.playlist == Some(Listing(Last(w.segments, n)))
    ensures Agrees(w)
  {
    assert ListsFrom(w, w.playlist.value, |w.segments| - n);
  }

  lemma ListsMore(w: Window, s: Segment)
    requires Agrees(w)
    ensures Agrees(Append(w, s))
  {
    if w.playlist.Some? {
      var k: nat :| ListsFrom(w, w.playlist.value, k);
      assert ListsFrom(Append(w, s), w.playlist.value, k);
    }
  }

  /** With room for five segments or more every entry of the playlist is in the window: after every append, and between
      its three steps, when the lock is free for readers. */
  lemma AgreesAtEveryBoundary(size: nat, segments: seq<Segment>, s: Segment)
    requires size >= PLAYLIST_LENGTH
    ensures var w := After(size, segments);
            && Agrees(w) && Agrees(Append(w, s)) && Agrees(Shrink(Append(w, s))) && Agrees(UpdatePlayList(Shrink(Append(w, s))))
  {
    hide After, Agrees, Append, Shrink, UpdatePlayList;
    AgreesAfter(size, segments);
    ListsMore(After(size, segments), s);
    ShrinkAgrees(Append(After(size, segments), s));
    AgreesAfter(size, segments + [s]);
    AfterStep(size, segments, s);
  }

  lemma ShrinkAgrees(w: Window)
    requires Agrees(w)
    ensures Agrees(Shrink(w))
  {
    hide Agrees, Last, Listing;
    if |w.segments| >= MIN_PLAYLIST_LENGTH {
      LastAtMost(w.segments, PLAYLIST_LENGTH);
      ListingIsListed(Shrink(w), Min(|w.segments|, PLAYLIST_LENGTH));
    }
  }

  lemma AgreesAfter(size: nat, segments: seq<Segment>)
    requires size >= PLAYLIST_LENGTH
    ensures Agrees(After(size, segments))
  {
    RunHoldsLatest(size, segments);
    var n := Listed(size, |segments|);
    if Min(|segments|, size + 1) >= MIN_PLAYLIST_LENGTH {
      LastOfLast(segments, size, n);
      ListingIsListed(After(size, segments), n);
    }
  }

  lemma NoListNamesNothing(w: Window)
    ensures w.playlist == None ==> !NamesMissing(w)
  {
  }

  lemma LastLength<T>(s: seq<T>, n: nat)
    ensures |Last(s, n)| == Min(|s|, n) && (n >= |s| ==> Last(s, n) == s)
    ensures Last(s, n) == Last(s, |Last(s, n)|)
  {
  }

  lemma FirstListedIsGone(w: Window, segments: seq<Segment>, n: nat)
    requires forall i, j | 0 <= i < j < |segments| :: segments[i].name != segments[j].name
    requires |w.segments| < n <= |segments| && w.segments == Last(segments, |w.segments|)
    requires w.playlist == Some(Listing(Last(segments, n)))
    ensures NamesMissing(w)
  {
    var gone := segments[|segments| - n];
    var e := Entry(gone.duration, gone.name);
    assert w.playlist.value.entries[0] == e;
    assert e in w.playlist.value.entries;
    forall s | s in w.segments ensures s.name != e.name {
      var i :| 0 <= i < |w.segments| && w.segments[i] == s;
      assert s == segments[|segments| - |w.segments| + i];
    }
  }

  /** For every window size: the playlist names a segment that is gone exactly when the window has overflowed and is
      shorter than the playlist. */
  lemma NamesMissingIff(size: nat, segments: seq<Segment>)
    requires size > 0 && forall i, j | 0 <= i < j < |segments| :: segments[i].name != segments[j].name
    ensures NamesMissing(After(size, segments)) <==>
              |segments| > size && size + 1 >= MIN_PLAYLIST_LENGTH && size < PLAYLIST_LENGTH
  {
    RunHoldsLatest(size, segments);
    var w, n := After(size, segments), Listed(size, |segments|);
    hide After, NamesMissing, Listing, Last, Agrees;
    LastLength(segments, size);
    NoListNamesNothing(w);
    if Min(|segments|, size + 1) >= MIN_PLAYLIST_LENGTH {
      if |segments| > size && size < PLAYLIST_LENGTH {
        FirstListedIsGone(w, segments, n);
      } else {
        LastOfLast(segments, size, n);
        ListingIsListed(w, n);
        AgreesNamesNothingMissing(w);
      }
    }
  }

  // ----- sequence numbers and durations

  ghost predicate Consecutive(segments: seq<Segment>, first: int) {
    forall i | 0 <= i < |segments| :: segments[i].sequenceNo == first + i
  }

  /** From one append to the next the media sequence number advances by none or one, and it starts at the number
      of the first segment. */
  lemma MediaSequenceAdvances(size: nat, segments: seq<Segment>, s: Segment, first: int)
    requires size > 0 && Consecutive(segments + [s], first)
    ensures var p, p' := After(size, segments).playlist, After(size, segments + [s]).playlist;
            && (p.Some? ==> p'.Some? && p.value.mediaSequence <= p'.value.mediaSequence <= p.value.mediaSequence + 1)
            && (p.None? && p'.Some? ==> p'.value.mediaSequence == first)
  {
    hide After, Last, Consecutive, Entries, MaxDuration;
    RunHoldsLatest(size, segments);
    RunHoldsLatest(size, segments + [s]);
    ConsecutivePrefix(segments, s, first);
    FirstOfLast(segments, Listed(size, |segments|), first);
    FirstOfLast(segments + [s], Listed(size, |segments| + 1), first);
  }

  lemma ConsecutivePrefix(segments: seq<Segment>, s: Segment, first: int)
    requires Consecutive(segments + [s], first)
    ensures Consecutive(segments, first)
  {
    forall i | 0 <= i < |segments| ensures segments[i].sequenceNo == first + i {
      assert (segments + [s])[i] == segments[i];
    }
  }

  lemma FirstOfLast(segments: seq<Segment>, n: nat, first: int)
    requires Consecutive(segments, first) && n <= |segments|
    ensures n > 0 ==> Last(segments, n)[0].sequenceNo == first + |segments| - n
  {
  }

  lemma {:induction false} MaxBounds(segments: seq<Segment>)
    ensures forall s | s in segments :: s.duration <= MaxDuration(segments)
    ensures segments != [] && MaxDuration(segments) > 0 ==> exists s :: s in segments && s.duration == MaxDuration(segments)
  {
    if segments != [] {
      var k := |segments| - 1;
      MaxBounds(segments[..k]);
      assert segments == segments[..k] + [segments[k]];
      assert segments[k] in segments;
    }
  }

  /** No listed segment is longer than the target duration, which is as short as whole seconds allow. */
  lemma TargetDurationFits(size: nat, segments: seq<Segment>)
    requires size > 0
    ensures var p := After(size, segments).playlist;
            p.Some? ==>
              && (forall e | e in p.value.entries :: e.duration <= p.value.targetDuration * 1000)
              && (p.value.targetDuration > 0 ==>
                    exists e :: e in p.value.entries && e.duration > (p.value.targetDuration - 1) * 1000)
  {
    hide After, Last, MaxDuration;
    RunHoldsLatest(size, segments);
    var p := After(size, segments).playlist;
    if p.Some? {
      var listed := Last(segments, Listed(size, |segments|));
      MaxBounds(listed);
      forall e | e in p.value.entries ensures e.duration <= p.value.targetDuration * 1000 {
        var i :| 0 <= i < |listed| && p.value.entries[i] == e;
        assert listed[i] in listed;
      }
      if p.value.targetDuration > 0 {
        var s :| s in listed && s.duration == MaxDuration(listed);
        var i :| 0 <= i < |listed| && listed[i] == s;
        assert p.value.entries[i].duration == s.duration;
      }
    }
  }
}
