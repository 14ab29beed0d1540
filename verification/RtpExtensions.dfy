/** The header extension block of an RTP packet (sections 4.2 and 4.3 of RFC 8285), how rtp_utils.cc walks it to find
    the absolute send time, and what it makes of well-formed blocks. */
module RtpExtensions {
  import opened Bytes

  /** Where the walk ends: at an element with the id that is looked for, past the last one, or at a broken one. */
  datatype Found = Element(at: nat, length: nat) | Absent | Broken

  function HeadLength(twoByte: bool): nat {
    if twoByte then 2 else 1
  }

  function IdAt(block: seq<Byte>, at: nat, twoByte: bool): nat
    requires at + 1 < |block|
  {
    if twoByte then block[at] else block[at] / 16
  }

  function LengthAt(block: seq<Byte>, at: nat, twoByte: bool): nat
    requires at + 1 < |block|
  {
    if twoByte then block[at + 1] else block[at] % 16 + 1
  }

  /** Padding bytes are zero. */
  function SkipPadding(block: seq<Byte>, at: nat): (r: nat)
    requires at <= |block|
    ensures at <= r <= |block|
    ensures r < |block| ==> block[r] != 0
    ensures forall i | at <= i < r :: block[i] == 0
    decreases |block| - at
  {
    if at < |block| && block[at] == 0 then SkipPadding(block, at + 1) else at
  }

  function Find(block: seq<Byte>, at: nat, twoByte: bool, id: int): (f: Found)
    requires at <= |block|
    ensures f.Element? ==> at + HeadLength(twoByte) <= f.at && f.at + f.length <= |block|
    decreases |block| - at
  {
    if at + 1 >= |block| then Absent
    else
      var data := at + HeadLength(twoByte);
      var length := LengthAt(block, at, twoByte);
      if data + length > |block| then Broken
      else if IdAt(block, at, twoByte) == id then Element(data, length)
      else Find(block, SkipPadding(block, data + length), twoByte, id)
  }

  // ----- well-formed blocks

  /** An element and the padding behind it. */
  datatype Extension = Extension(id: nat, data: seq<Byte>, padding: nat)

  predicate WellFormed(e: Extension, twoByte: bool) {
    if twoByte then 1 <= e.id < 256 && |e.data| < 256 else 1 <= e.id < 16 && 1 <= |e.data| <= 16
  }

  function Zeros(n: nat): (z: seq<Byte>)
    ensures |z| == n && forall i | 0 <= i < n :: z[i] == 0
  {
    if n == 0 then [] else [0] + Zeros(n - 1)
  }

  function Head(e: Extension, twoByte: bool): (h: seq<Byte>)
    requires WellFormed(e, twoByte)
    ensures |h| == HeadLength(twoByte) && h[0] != 0
  {
    if twoByte then [e.id, |e.data|] else [e.id * 16 + |e.data| - 1]
  }

  function EncodeOne(e: Extension, twoByte: bool): (s: seq<Byte>)
    requires WellFormed(e, twoByte)
    ensures |s| == HeadLength(twoByte) + |e.data| + e.padding
  {
    Head(e, twoByte) + e.data + Zeros(e.padding)
  }

  function Encode(extensions: seq<Extension>, twoByte: bool): (s: seq<Byte>)
    requires forall e | e in extensions :: WellFormed(e, twoByte)
    ensures s != [] ==> s[0] != 0
  {
    if extensions == [] then [] else EncodeOne(extensions[0], twoByte) + Encode(extensions[1..], twoByte)
  }

  /** What the walk should find: the data of the first element with the id. */
  function Place(extensions: seq<Extension>, at: nat, twoByte: bool, id: int): Found
    requires forall e | e in extensions :: WellFormed(e, twoByte)
    decreases |extensions|
  {
    if extensions == [] then Absent
    else if extensions[0].id == id then Element(at + HeadLength(twoByte), |extensions[0].data|)
    else Place(extensions[1..], at + |EncodeOne(extensions[0], twoByte)|, twoByte, id)
  }

  lemma {:induction false} PaddingIsSkipped(block: seq<Byte>, at: nat, n: nat)
    requires at + n <= |block| && (forall i | at <= i < at + n :: block[i] == 0)
    requires at + n < |block| ==> block[at + n] != 0
    ensures SkipPadding(block, at) == at + n
    decreases n
  {
    if n > 0 {
      PaddingIsSkipped(block, at + 1, n - 1);
    }
  }

  /** What the walk reads of one element, wherever it stands. */
  lemma ReadsElement(before: seq<Byte>, e: Extension, after: seq<Byte>, twoByte: bool)
    requires WellFormed(e, twoByte) && (after != [] ==> after[0] != 0)
    ensures var block := before + EncodeOne(e, twoByte) + after;
            var data := |before| + HeadLength(twoByte);
            && |before| + 1 < |block| && data + |e.data| <= |block|
            && IdAt(block, |before|, twoByte) == e.id && LengthAt(block, |before|, twoByte) == |e.data|
            && SkipPadding(block, data + |e.data|) == |before + EncodeOne(e, twoByte)|
  {
    var block := before + EncodeOne(e, twoByte) + after;
    var data := |before| + HeadLength(twoByte);
    forall i | data + |e.data| <= i < data + |e.data| + e.padding ensures block[i] == 0 {
      assert block[i] == Zeros(e.padding)[i - data - |e.data|];
    }
    PaddingIsSkipped(block, data + |e.data|, e.padding);
    assert block[|before|] == Head(e, twoByte)[0];
    assert twoByte ==> block[|before| + 1] == Head(e, twoByte)[1];
  }

  /** One step of the walk. */
  lemma FindStep(before: seq<Byte>, e: Extension, after: seq<Byte>, twoByte: bool, id: int)
    requires WellFormed(e, twoByte) && (after != [] ==> after[0] != 0)
    ensures var one := EncodeOne(e, twoByte);
            Find((before + one) + after, |before|, twoByte, id)
            == if e.id == id then Element(|before| + HeadLength(twoByte), |e.data|)
               else Find((before + one) + after, |before + one|, twoByte, id)
  {
    hide *;
    var block := (before + EncodeOne(e, twoByte)) + after;
    ReadsElement(before, e, after, twoByte);
    FindOnce(block, |before|, twoByte, id, e.id, |e.data|, |before + EncodeOne(e, twoByte)|);
  }

  /** The walk, unfolded once where a whole element lies. */
  lemma FindOnce(block: seq<Byte>, at: nat, twoByte: bool, id: int, elementId: int, length: nat, next: nat)
    requires at + 1 < |block| && at + HeadLength(twoByte) + length <= |block|
    requires IdAt(block, at, twoByte) == elementId && LengthAt(block, at, twoByte) == length
    requires SkipPadding(block, at + HeadLength(twoByte) + length) == next
    ensures Find(block, at, twoByte, id)
            == if elementId == id then Element(at + HeadLength(twoByte), length) else Find(block, next, twoByte, id)
  {
    hide SkipPadding, IdAt, LengthAt;
  }

  lemma EncodeStep(before: seq<Byte>, extensions: seq<Extension>, twoByte: bool)
    requires extensions != [] && forall e | e in extensions :: WellFormed(e, twoByte)
    ensures WellFormed(extensions[0], twoByte)
    ensures before + Encode(extensions, twoByte)
            == (before + EncodeOne(extensions[0], twoByte)) + Encode(extensions[1..], twoByte)
  {
    hide EncodeOne, WellFormed;
  }

  lemma NothingToFind(before: seq<Byte>, twoByte: bool, id: int)
    ensures Find(before + Encode([], twoByte), |before|, twoByte, id) == Place([], |before|, twoByte, id)
  {
  }

  lemma PlaceStep(extensions: seq<Extension>, at: nat, twoByte: bool, id: int)
    requires extensions != [] && forall e | e in extensions :: WellFormed(e, twoByte)
    ensures WellFormed(extensions[0], twoByte)
    ensures Place(extensions, at, twoByte, id)
            == if extensions[0].id == id then Element(at + HeadLength(twoByte), |extensions[0].data|)
               else Place(extensions[1..], at + |EncodeOne(extensions[0], twoByte)|, twoByte, id)
  {
    hide EncodeOne, WellFormed;
  }

  /** On a well-formed block the walk finds the first element with the id, or that there is none. */
  lemma {:induction false} FindsFirst(before: seq<Byte>, extensions: seq<Extension>, twoByte: bool, id: int)
    requires forall e | e in extensions :: WellFormed(e, twoByte)
    ensures Find(before + Encode(extensions, twoByte), |before|, twoByte, id)
            == Place(extensions, |before|, twoByte, id)
    decreases |extensions|
  {
    hide *;
    if extensions == [] {
      NothingToFind(before, twoByte, id);
    } else {
      EncodeStep(before, extensions, twoByte);
      PlaceStep(extensions, |before|, twoByte, id);
      var one := EncodeOne(extensions[0], twoByte);
      FindStep(before, extensions[0], Encode(extensions[1..], twoByte), twoByte, id);
      FindsFirst(before + one, extensions[1..], twoByte, id);
    }
  }

  /** The extensions with the data of the first element of that id replaced. */
  function Replaced(extensions: seq<Extension>, id: int, data: seq<Byte>): seq<Extension> {
    if extensions == [] then []
    else if extensions[0].id == id then [extensions[0].(data := data)] + extensions[1..]
    else [extensions[0]] + Replaced(extensions[1..], id, data)
  }

  lemma PatchedElement(before: seq<Byte>, e: Extension, after: seq<Byte>, twoByte: bool, data: seq<Byte>)
    requires WellFormed(e, twoByte) && |data| == |e.data|
    ensures Patched(before + EncodeOne(e, twoByte) + after, |before| + HeadLength(twoByte), data)
            == before + EncodeOne(e.(data := data), twoByte) + after
  {
    var head, zeros := Head(e, twoByte), Zeros(e.padding);
    assert Head(e.(data := data), twoByte) == head;
    hide Head, Zeros, Patched;
    MiddleRegroups(before, head, e.data, zeros, after);
    MiddleRegroups(before, head, data, zeros, after);
    PatchMiddle(before + head, e.data, zeros + after, data);
  }

  lemma MiddleRegroups(a: seq<Byte>, b: seq<Byte>, c: seq<Byte>, d: seq<Byte>, e: seq<Byte>)
    ensures a + (b + c + d) + e == (a + b) + c + (d + e)
  {
  }

  lemma PatchMiddle(a: seq<Byte>, b: seq<Byte>, c: seq<Byte>, data: seq<Byte>)
    requires |data| == |b|
    ensures Patched(a + b + c, |a|, data) == a + data + c
  {
  }

  lemma ReplacedStep(extensions: seq<Extension>, twoByte: bool, id: int, data: seq<Byte>)
    requires extensions != [] && forall e | e in extensions :: WellFormed(e, twoByte)
    requires extensions[0].id == id ==> |data| == |extensions[0].data|
    requires forall e | e in Replaced(extensions[1..], id, data) :: extensions[0].id != id ==> WellFormed(e, twoByte)
    ensures forall e | e in Replaced(extensions, id, data) :: WellFormed(e, twoByte)
    ensures var first := if extensions[0].id == id then extensions[0].(data := data) else extensions[0];
            var rest := if extensions[0].id == id then extensions[1..] else Replaced(extensions[1..], id, data);
            && WellFormed(first, twoByte) && Replaced(extensions, id, data) == [first] + rest
            && Encode(Replaced(extensions, id, data), twoByte) == EncodeOne(first, twoByte) + Encode(rest, twoByte)
  {
    var first := if extensions[0].id == id then extensions[0].(data := data) else extensions[0];
    var rest := if extensions[0].id == id then extensions[1..] else Replaced(extensions[1..], id, data);
    hide EncodeOne;
    assert ([first] + rest)[1..] == rest;
  }

  /** Patching the found place is replacing the data of that element, and of no other. */
  lemma {:induction false} PatchReplaces(
      before: seq<Byte>, extensions: seq<Extension>, twoByte: bool, id: int, data: seq<Byte>)
    requires forall e | e in extensions :: WellFormed(e, twoByte)
    requires var f := Place(extensions, |before|, twoByte, id); f.Element? && f.length == |data|
    ensures forall e | e in Replaced(extensions, id, data) :: WellFormed(e, twoByte)
    ensures var f := Place(extensions, |before|, twoByte, id);
            && f.at + |data| <= |before + Encode(extensions, twoByte)|
            && Patched(before + Encode(extensions, twoByte), f.at, data)
               == before + Encode(Replaced(extensions, id, data), twoByte)
    decreases |extensions|
  {
    if extensions == [] {
      assert false;
    }
    hide Encode, EncodeOne, Place, Patched, Replaced, WellFormed;
    EncodeStep(before, extensions, twoByte);
    PlaceStep(extensions, |before|, twoByte, id);
    var e := extensions[0];
    var one, rest := EncodeOne(e, twoByte), Encode(extensions[1..], twoByte);
    if e.id == id {
      PatchedElement(before, e, rest, twoByte, data);
      ReplacedStep(extensions, twoByte, id, data);
      SeqAssociates(before, EncodeOne(e.(data := data), twoByte), rest);
    } else {
      PatchReplaces(before + one, extensions[1..], twoByte, id, data);
      ReplacedStep(extensions, twoByte, id, data);
      SeqAssociates(before, one, Encode(Replaced(extensions[1..], id, data), twoByte));
    }
  }

  lemma SeqAssociates(a: seq<Byte>, b: seq<Byte>, c: seq<Byte>)
    ensures a + (b + c) == (a + b) + c
  {
  }

  // ----- padding before the first element

  /** Two or more zeros are read as an empty or one-byte element of id 0 and the padding behind it. */
  lemma LeadingZerosAreSkipped(padding: nat, after: seq<Byte>, twoByte: bool, id: int)
    requires padding >= 2 && id != 0 && (after != [] ==> after[0] != 0)
    ensures Find(Zeros(padding) + after, 0, twoByte, id) == Find(Zeros(padding) + after, padding, twoByte, id)
  {
    var block := Zeros(padding) + after;
    assert block[0] == 0 && block[1] == 0;
    PaddingIsSkipped(block, 2, padding - 2);
  }

  /** A single zero is read as the header of an element of id 0 that takes in the header of the first element. */
  lemma LoneZeroHidesFirst(e: Extension, after: seq<Byte>, twoByte: bool, id: int)
    requires WellFormed(e, twoByte) && id != 0
    ensures var block := Zeros(1) + (EncodeOne(e, twoByte) + after);
            Find(block, 0, twoByte, id) != Element(1 + HeadLength(twoByte), |e.data|)
  {
    var block := Zeros(1) + (EncodeOne(e, twoByte) + after);
    assert block[0] == 0;
    assert twoByte ==> block[1] == Head(e, twoByte)[0];
    hide SkipPadding, EncodeOne;
  }

  /** Behind leading padding the walk finds the first element with the id unless the padding is a single byte:
      then it never finds the first element of the block. */
  lemma FindsFirstBehindPadding(padding: nat, extensions: seq<Extension>, twoByte: bool, id: int)
    requires id != 0 && forall e | e in extensions :: WellFormed(e, twoByte)
    ensures padding != 1 ==>
              Find(Zeros(padding) + Encode(extensions, twoByte), 0, twoByte, id) == Place(extensions, padding, twoByte, id)
    ensures extensions != [] && extensions[0].id == id ==>
              (Find(Zeros(padding) + Encode(extensions, twoByte), 0, twoByte, id) == Place(extensions, padding, twoByte, id)
               <==> padding != 1)
  {
    var rest := Encode(extensions, twoByte);
    FindsFirst(Zeros(padding), extensions, twoByte, id);
    if padding >= 2 {
      LeadingZerosAreSkipped(padding, rest, twoByte, id);
    } else if padding == 1 && extensions != [] {
      EncodeStep([], extensions, twoByte);
      LoneZeroHidesFirst(extensions[0], Encode(extensions[1..], twoByte), twoByte, id);
    }
  }

  /** What the walk finds in a well-formed block can be patched in place. */
  lemma FoundIsReplaced(padding: nat, extensions: seq<Extension>, twoByte: bool, id: int, data: seq<Byte>)
    requires (padding == 0 || (padding >= 2 && id != 0)) && forall e | e in extensions :: WellFormed(e, twoByte)
    ensures var block := Zeros(padding) + Encode(extensions, twoByte);
            var f := Find(block, 0, twoByte, id);
            && f != Broken
            && (f.Absent? <==> !exists e :: e in extensions && e.id == id)
            && (f.Element? && f.length == |data| ==>
                  && (forall e | e in Replaced(extensions, id, data) :: WellFormed(e, twoByte))
                  && Patched(block, f.at, data) == Zeros(padding) + Encode(Replaced(extensions, id, data), twoByte))
  {
    FindsFirst(Zeros(padding), extensions, twoByte, id);
    if padding >= 2 {
      LeadingZerosAreSkipped(padding, Encode(extensions, twoByte), twoByte, id);
    }
    PlaceIsAbsent(extensions, padding, twoByte, id);
    var f := Place(extensions, padding, twoByte, id);
    if f.Element? && f.length == |data| {
      PatchReplaces(Zeros(padding), extensions, twoByte, id, data);
    }
  }

  lemma {:induction false} PlaceIsAbsent(extensions: seq<Extension>, at: nat, twoByte: bool, id: int)
    requires forall e | e in extensions :: WellFormed(e, twoByte)
    ensures Place(extensions, at, twoByte, id) != Broken
    ensures Place(extensions, at, twoByte, id).Absent? <==> !exists e :: e in extensions && e.id == id
    decreases |extensions|
  {
    if extensions != [] {
      PlaceIsAbsent(extensions[1..], at + |EncodeOne(extensions[0], twoByte)|, twoByte, id);
    }
  }
}
