/** Fragments, the window that owns them, and the muxer that fills them (libhls): objects that are updated in place,
    move between the window and its free list, and are used again. */
module Hls {
  import opened Bytes
  import opened HlsWindow
  import opened HlsMuxerModel
  import opened Options
  import Model = HlsMuxerModel

  const INITIAL_BUFFER_SIZE: nat := 512 * 1024
  const FRAGMENT_STEP_SIZE: nat := 128 * 1024

  /** One media segment, in a block that grows in steps and is kept when the segment is reset. */
  class Fragment {
    var sequenceNo: int
    var fileName: string
    var duration: nat
    var startDts: int
    var dataSize: nat
    var bufSize: nat
    var data: Option<Block>
    var spsPpsAppended: bool

    ghost predicate Valid()
      reads this
    {
      if data.None? then dataSize == 0 else dataSize == |data.value.data| <= data.value.capacity == bufSize
    }

    /** The bytes written since the last reset. */
    function Contents(): seq<Byte>
      reads this
    {
      if data.None? then [] else data.value.data
    }

    ghost function Progress(): Current
      reads this
    {
      Current(sequenceNo, fileName, startDts, duration)
    }

    constructor ()
      ensures Valid() && Contents() == [] && Progress() == Current(0, "", -1, 0)
    {
      spsPpsAppended := false;
      sequenceNo, fileName, duration, startDts := 0, "", 0, -1;
      dataSize, bufSize, data := 0, INITIAL_BUFFER_SIZE, None;
    }

    /** Appends bytes, however many, to a larger block if the present one has no room. */
    method Write(bytes: seq<Byte>)
      requires Valid()
      modifies this`dataSize, this`bufSize, this`data
      ensures Valid() && Contents() == old(Contents()) + bytes
      ensures data.Some? && old(bufSize) <= data.value.capacity
      ensures old(dataSize) + |bytes| <= old(bufSize) ==> bufSize == old(bufSize)
    {
      if data.None? {
        data := Some(Block(bufSize, []));
      }
      if data.value.capacity - |data.value.data| < |bytes| {
        bufSize := bufSize + FRAGMENT_STEP_SIZE;
        while dataSize + |bytes| > bufSize
          invariant data == old(data) || (old(data).None? && data == Some(Block(old(bufSize), [])))
          invariant data.Some? && dataSize == old(dataSize) && bufSize > old(bufSize)
          decreases dataSize + |bytes| - bufSize
        {
          bufSize := bufSize + FRAGMENT_STEP_SIZE;
        }
        data := Some(Block(bufSize, data.value.data));
      }
      data := Some(data.value.(data := data.value.data + bytes));
      dataSize := dataSize + |bytes|;
    }

    method AppendTimestamp(pts: int)
      modifies this`startDts, this`duration
      ensures Progress() == Stamped(old(Progress()), pts)
    {
      if startDts == -1 {
        startDts := pts;
      }
      startDts := if startDts < pts then startDts else pts;
      duration := pts - startDts;
    }

    method Reset()
      requires Valid()
      modifies this`duration, this`sequenceNo, this`dataSize, this`startDts, this`data, this`spsPpsAppended
      ensures !spsPpsAppended
      ensures Valid() && Contents() == [] && data.Some? == old(data).Some?
      ensures Progress() == Current(0, fileName, -1, 0)
    {
      duration, sequenceNo, dataSize, startDts, spsPpsAppended := 0, 0, 0, -1, false;
      if data.Some? {
        data := Some(data.value.(data := []));
      }
    }

    method SetBaseFileName(name: string, now: int)
      modifies this`fileName
      ensures fileName == FileName(name, now)
    {
      fileName := name + "_" + ToString(now) + ".ts";
    }

    /** Gets the fragment ready to be filled. */
    method Open(name: string, now: int, number: int)
      requires Valid()
      modifies this
      ensures Valid() && Contents() == []
      ensures Progress() == Current(number, FileName(name, now), -1, 0)
    {
      Reset();
      SetBaseFileName(name, now);
      sequenceNo := number;
    }
  }

  ghost function SegmentsOf(fragments: seq<Fragment>): (r: seq<Segment>)
    reads fragments
    ensures |r| == |fragments|
    ensures forall i | 0 <= i < |fragments| :: r[i] == SegmentOf(fragments[i].Progress())
  {
    if fragments == [] then []
    else SegmentsOf(fragments[..|fragments| - 1]) + [SegmentOf(fragments[|fragments| - 1].Progress())]
  }

  lemma ListNone()
    ensures MaxDuration([]) == 0 && Entries([]) == []
  {
  }

  lemma ListStep(segments: seq<Segment>, n: nat)
    requires n < |segments|
    ensures var m := MaxDuration(segments[..n]);
            MaxDuration(segments[..n + 1]) == if segments[n].duration > m then segments[n].duration else m
    ensures Entries(segments[..n + 1]) == Entries(segments[..n]) + [Entry(segments[n].duration, segments[n].name)]
  {
    assert segments[..n + 1][..n] == segments[..n];
  }

  ghost predicate Distinct(fragments: seq<Fragment>) {
    forall i, j | 0 <= i < j < |fragments| :: fragments[i] != fragments[j]
  }

  ghost function Members(fragments: seq<Fragment>): set<Fragment> {
    set f | f in fragments
  }

  ghost predicate Apart(a: seq<Fragment>, b: seq<Fragment>) {
    forall f, g | f in a && g in b :: f != g
  }

  /** The first of one list moves to the end of the other. */
  lemma MoveFirst(a: seq<Fragment>, b: seq<Fragment>)
    requires a != [] && Distinct(a) && Distinct(b) && Apart(a, b)
    ensures a[0] !in a[1..] && Distinct(a[1..]) && Distinct(b + [a[0]]) && Apart(a[1..], b + [a[0]])
  {
    assert a[0] in a && forall f | f in a[1..] :: f in a;
    forall i | 0 <= i < |b| ensures b[i] != a[0] {
      assert a[0] in a && b[i] in b;
    }
  }

  lemma OneMoreApart(a: seq<Fragment>, b: seq<Fragment>, f: Fragment)
    requires Distinct(a) && Apart(a, b) && f !in a && f !in b
    ensures Distinct(a + [f]) && Apart(a + [f], b)
  {
  }

  lemma SegmentsOfMore(fragments: seq<Fragment>, f: Fragment)
    ensures SegmentsOf(fragments + [f]) == SegmentsOf(fragments) + [SegmentOf(f.Progress())]
  {
  }

  /** What dropping the oldest ones has made of the segments. */
  ghost predicate Dropped(segments: seq<Segment>, all: seq<Segment>, size: nat) {
    && |segments| <= |all| && (|segments| == |all| || |segments| >= size)
    && segments == all[|all| - |segments|..]
  }

  lemma DropOneMore(segments: seq<Segment>, all: seq<Segment>, size: nat)
    requires Dropped(segments, all, size) && |segments| > size
    ensures Dropped(segments[1..], all, size)
  {
  }

  lemma DroppedNone(all: seq<Segment>, size: nat)
    ensures Dropped(all, all, size)
  {
    assert all[0..] == all;
  }

  lemma LastIsLeft(segments: seq<Segment>, all: seq<Segment>, size: nat)
    requires Dropped(segments, all, size) && |segments| <= size
    ensures segments == Last(all, size)
  {
  }

  /** What Shrink writes, if it writes a playlist. */
  lemma ShrinkLists(w: Window)
    ensures var i := if |w.segments| > 5 then |w.segments| - 5 else 0;
            HlsWindow.Shrink(w) == if |w.segments| < 3 then w
              else w.(playlist := Some(Playlist(Seconds(MaxDuration(w.segments[i..])), w.segments[i].sequenceNo, Entries(w.segments[i..]))))
  {
    hide MaxDuration, Entries;
  }

  class FragmentWindow {
    const windowSize: nat
    var fragments: seq<Fragment>
    var freeFragments: seq<Fragment>
    var playlist: Option<Playlist>

    /** The fragments of the window and of the free list are different objects, each there once. */
    ghost predicate Separate()
      reads this
    {
      Distinct(fragments) && Distinct(freeFragments) && Apart(fragments, freeFragments)
    }

    ghost predicate Valid()
      reads this, fragments, freeFragments
    {
      Separate() && (forall f | f in fragments :: f.Valid()) && (forall f | f in freeFragments :: f.Valid())
    }

    ghost function View(): Window
      reads this, fragments
    {
      Window(windowSize, SegmentsOf(fragments), playlist)
    }

    constructor (size: nat)
      ensures Valid() && View() == Window(size, [], None) && windowSize == size && freeFragments == []
    {
      windowSize := size;
      fragments, freeFragments, playlist := [], [], None;
    }

    /** Hands out a free fragment, or a new one. */
    method GetIdleFragment() returns (f: Fragment)
      requires Valid()
      modifies this`freeFragments
      ensures Valid() && View() == old(View()) && fragments == old(fragments)
      ensures f !in fragments && f !in freeFragments && f.Valid()
      ensures fresh(f) || f in old(freeFragments)
      ensures forall g | g in freeFragments :: g in old(freeFragments)
    {
      if freeFragments == [] {
        f := new Fragment();
        return;
      }
      f := freeFragments[0];
      assert forall g | g in freeFragments[1..] :: g in freeFragments && g != f;
      assert f in freeFragments;
      freeFragments := freeFragments[1..];
    }

    method GetFragmentByName(name: string) returns (f: Fragment?)
      requires Valid()
      ensures f == null <==> forall g | g in fragments :: g.fileName != name
      ensures f != null ==> f in fragments && f.fileName == name
    {
      var i := 0;
      while i < |fragments|
        invariant 0 <= i <= |fragments| && forall j | 0 <= j < i :: fragments[j].fileName != name
      {
        if fragments[i].fileName == name {
          return fragments[i];
        }
        i := i + 1;
      }
      return null;
    }

    /** Writes the playlist of the latest fragments, unless there are too few. */
    method Shrink()
      requires Valid()
      modifies this`playlist
      ensures Valid() && View() == HlsWindow.Shrink(old(View()))
    {
      hide SegmentsOf, Distinct, Apart, HlsWindow.Shrink, MaxDuration, Entries;
      ShrinkLists(View());
      if |fragments| < 3 {
        return;
      }
      var i := if |fragments| > 5 then |fragments| - 5 else 0;
      var maxDuration, entries := List(i);
      playlist := Some(Playlist(Seconds(maxDuration), fragments[i].sequenceNo, entries));
    }

    /** The longest duration and the entries of the fragments from index `i` on. */
    method List(i: nat) returns (maxDuration: nat, entries: seq<Entry>)
      requires i < |fragments|
      ensures maxDuration == MaxDuration(SegmentsOf(fragments)[i..]) && entries == Entries(SegmentsOf(fragments)[i..])
    {
      ghost var listed := SegmentsOf(fragments)[i..];
      hide SegmentsOf, MaxDuration, Entries;
      ListNone();
      maxDuration, entries := 0, [];
      var j := i;
      assert listed[..0] == [];
      while j < |fragments|
        invariant i <= j <= |fragments|
        invariant maxDuration == MaxDuration(listed[..j - i]) && entries == Entries(listed[..j - i])
      {
        ListStep(listed, j - i);
        assert listed[j - i] == SegmentOf(fragments[j].Progress());
        maxDuration := if fragments[j].duration > maxDuration then fragments[j].duration else maxDuration;
        entries := entries + [Entry(fragments[j].duration, fragments[j].fileName)];
        j := j + 1;
      }
      assert listed[..j - i] == listed;
    }

    method EvictOldest()
      requires Valid() && fragments != []
      modifies this`fragments, this`freeFragments, Members(fragments)
      ensures Valid() && SegmentsOf(fragments) == old(SegmentsOf(fragments))[1..]
      ensures fragments == old(fragments)[1..] && freeFragments == old(freeFragments) + [old(fragments[0])]
      ensures Members(fragments) <= old(Members(fragments))
      ensures Members(freeFragments) <= old(Members(fragments)) + old(Members(freeFragments))
    {
      hide SegmentsOf, Distinct, Apart;
      MoveFirst(fragments, freeFragments);
      var p := fragments[0];
      ghost var kept := SegmentsOf(fragments)[1..];
      assert p in fragments && p !in fragments[1..];
      fragments := fragments[1..];
      assert SegmentsOf(fragments) == kept;
      p.Reset();
      assert SegmentsOf(fragments) == kept;
      freeFragments := freeFragments + [p];
    }

    /** Moves the oldest fragments to the free list until the window has its size. */
    method UpdatePlayList()
      requires Valid()
      modifies this`fragments, this`freeFragments, Members(fragments)
      ensures Valid() && View() == HlsWindow.UpdatePlayList(old(View()))
      ensures Members(fragments) <= old(Members(fragments))
      ensures Members(freeFragments) <= old(Members(fragments)) + old(Members(freeFragments))
    {
      hide SegmentsOf, Valid, Members, Last, Dropped;
      ghost var all := SegmentsOf(fragments);
      DroppedNone(all, windowSize);
      while |fragments| > windowSize
        invariant Valid() && Dropped(SegmentsOf(fragments), all, windowSize)
        invariant Members(fragments) <= old(Members(fragments))
        invariant Members(freeFragments) <= old(Members(fragments)) + old(Members(freeFragments))
        decreases |fragments|
      {
        DropOneMore(SegmentsOf(fragments), all, windowSize);
        EvictOldest();
      }
      LastIsLeft(SegmentsOf(fragments), all, windowSize);
    }

    method PushBack(f: Fragment)
      requires Valid() && f.Valid() && f !in fragments && f !in freeFragments
      modifies this`fragments
      ensures Valid() && SegmentsOf(fragments) == old(SegmentsOf(fragments)) + [SegmentOf(f.Progress())]
      ensures Members(fragments) == old(Members(fragments)) + {f}
    {
      hide Distinct, Apart;
      OneMoreApart(fragments, freeFragments, f);
      SegmentsOfMore(fragments, f);
      fragments := fragments + [f];
    }

    /** Adds a fragment, then writes the playlist, then lets the oldest fragment go. */
    method AppendFragment(f: Fragment)
      requires Valid() && f.Valid() && f !in fragments && f !in freeFragments
      modifies this, Members(fragments), f
      ensures Valid() && View() == HlsWindow.AppendFragment(old(View()), SegmentOf(old(f.Progress())))
      ensures Members(fragments) <= old(Members(fragments)) + {f}
      ensures Members(freeFragments) <= old(Members(fragments)) + old(Members(freeFragments)) + {f}
    {
      hide HlsWindow.Shrink, HlsWindow.UpdatePlayList, Valid, SegmentsOf;
      PushBack(f);
      Shrink();
      UpdatePlayList();
    }
  }

  class HlsMuxer {
    const streamName: string
    const fragmentWindow: FragmentWindow
    var currentFragment: Fragment?
    var fragmentSeqNo: int

    /** The fragment being filled is in neither list of the window. */
    ghost predicate Valid()
      reads this, fragmentWindow, fragmentWindow.fragments, fragmentWindow.freeFragments, currentFragment
    {
      && fragmentWindow.Valid()
      && (currentFragment != null ==>
            && currentFragment.Valid()
            && currentFragment !in fragmentWindow.fragments && currentFragment !in fragmentWindow.freeFragments)
    }

    ghost function View(): Muxer
      reads this, fragmentWindow, fragmentWindow.fragments, currentFragment
    {
      Muxer(streamName, fragmentWindow.View(),
            if currentFragment == null then None else Some(currentFragment.Progress()), fragmentSeqNo)
    }

    constructor (sessionName: string)
      ensures Valid() && View() == Init(sessionName) && fresh(fragmentWindow)
    {
      streamName := sessionName;
      fragmentWindow := new FragmentWindow(PLAYLIST_LENGTH);
      currentFragment, fragmentSeqNo := null, 0;
    }

    method FlushFull(isKey: bool, ghost p: Packet)
      requires Valid() && p.isKey == isKey
      modifies this`currentFragment, fragmentWindow, Members(fragmentWindow.fragments), currentFragment
      ensures Valid() && View() == Flushed(old(View()), p)
      ensures currentFragment == null <==> old(currentFragment) == null || Full(old(currentFragment.Progress()), isKey)
      ensures currentFragment != null ==>
                currentFragment == old(currentFragment) && currentFragment.Contents() == old(currentFragment.Contents())
      ensures Members(fragmentWindow.freeFragments)
              <= old(Members(fragmentWindow.fragments)) + old(Members(fragmentWindow.freeFragments))
                 + (if old(currentFragment) == null then {} else {old(currentFragment)})
    {
      hide HlsWindow.AppendFragment, SegmentsOf, FragmentWindow.Valid;
      if currentFragment != null {
        if (isKey && currentFragment.duration >= MIN_FRAGMENT_SIZE) || currentFragment.duration >= MAX_FRAGMENT_SIZE {
          fragmentWindow.AppendFragment(currentFragment);
          currentFragment := null;
        }
      }
    }

    /** An idle fragment, opened. */
    method NextFragment(now: int) returns (f: Fragment)
      requires fragmentWindow.Valid()
      modifies fragmentWindow`freeFragments, Members(fragmentWindow.freeFragments)
      ensures fragmentWindow.Valid() && fragmentWindow.View() == old(fragmentWindow.View())
      ensures f !in fragmentWindow.fragments && f !in fragmentWindow.freeFragments && f.Valid()
      ensures fresh(f) || f in old(Members(fragmentWindow.freeFragments))
      ensures f.Contents() == [] && f.Progress() == Current(fragmentSeqNo, FileName(streamName, now), -1, 0)
    {
      hide SegmentsOf, FragmentWindow.Separate, FileName;
      f := fragmentWindow.GetIdleFragment();
      f.Open(streamName, now, fragmentSeqNo);
    }

    method StartFragment(now: int, ghost p: Packet)
      requires Valid() && p.now == now && currentFragment == null
      modifies this`currentFragment, this`fragmentSeqNo, fragmentWindow`freeFragments, Members(fragmentWindow.freeFragments)
      ensures Valid() && View() == Started(old(View()), p)
      ensures currentFragment != null && currentFragment.Contents() == []
      ensures fresh(currentFragment) || currentFragment in old(Members(fragmentWindow.freeFragments))
    {
      hide SegmentsOf, FragmentWindow.Valid, FileName;
      var f := NextFragment(now);
      currentFragment := f;
      fragmentSeqNo := fragmentSeqNo + 1;
    }

    method WriteCurrent(bytes: seq<Byte>)
      requires Valid() && currentFragment != null
      modifies currentFragment
      ensures Valid() && View() == old(View())
      ensures currentFragment.Contents() == old(currentFragment.Contents()) + bytes
    {
      hide FragmentWindow.Valid, SegmentsOf;
      currentFragment.Write(bytes);
    }

    method StampCurrent(p: Packet)
      requires Valid() && currentFragment != null
      modifies currentFragment
      ensures Valid() && View() == Encoded(old(View()), p)
      ensures currentFragment.Contents() == old(currentFragment.Contents())
    {
      hide FragmentWindow.Valid, SegmentsOf, Stamped;
      if p.stamp.Some? {
        currentFragment.AppendTimestamp(p.stamp.value);
      }
    }

    /** Takes one packet: closes the current fragment if it is full, starts another if there is none, and writes what the
        encoder makes of the packet. `tables` opens every fragment. */
    method OnPacket(p: Packet, tables: seq<Byte>, encoded: seq<Byte>)
      requires Valid()
      modifies this`currentFragment, this`fragmentSeqNo, fragmentWindow, Members(fragmentWindow.fragments),
               Members(fragmentWindow.freeFragments), currentFragment
      ensures Valid() && View() == Model.OnPacket(old(View()), p)
      ensures currentFragment != null
      ensures currentFragment.Contents()
              == (if old(currentFragment) != null && !Full(old(currentFragment.Progress()), p.isKey)
                  then old(currentFragment.Contents()) else tables) + encoded
    {
      hide FragmentWindow.Valid, SegmentsOf, Flushed, FileName, Encoded, Valid, Full;
      FlushFull(p.isKey, p);
      if currentFragment == null {
        StartFragment(p.now, p);
        WriteCurrent(tables);
      }
      WriteCurrent(encoded);
      StampCurrent(p);
    }
  }
}
