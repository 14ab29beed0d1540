/** Updating the absolute send time inside an RTP packet (rtp_utils.cc), in place. */
module RtpUtils {
  import opened Bytes
  import opened Options
  import opened RtpExtensions
  import opened SendTime

  const MIN_RTP_PACKET_LEN: nat := 12
  const RTP_EXTENSION_HEADER_LEN: nat := 4
  const ABS_SEND_TIME_EXTENSION_LEN: nat := 3
  const ONE_BYTE_PROFILE: nat := 0xBEDE
  const TWO_BYTE_PROFILE: nat := 0x1000

  function BigEndian16At(s: seq<Byte>, at: nat): nat
    requires at + 2 <= |s|
  {
    var high: int := s[at];
    high * 256 + s[at + 1]
  }

  /** The length of the fixed header and the contributing sources. */
  function FixedLength(rtp: seq<Byte>): (n: nat)
    requires rtp != []
    ensures MIN_RTP_PACKET_LEN <= n <= MIN_RTP_PACKET_LEN + 60
  {
    var count: int := rtp[0] % 16;
    MIN_RTP_PACKET_LEN + 4 * count
  }

  predicate HasExtensions(rtp: seq<Byte>)
    requires rtp != []
  {
    rtp[0] / 16 % 2 == 1
  }

  /** The length of the whole RTP header, if the packet is long enough for it. */
  function ValidateRtpHeader(rtp: seq<Byte>): (length: Option<nat>)
    ensures length.Some? ==> MIN_RTP_PACKET_LEN <= length.value <= |rtp|
  {
    if |rtp| < MIN_RTP_PACKET_LEN then None
    else if FixedLength(rtp) > |rtp| then None
    else if !HasExtensions(rtp) then Some(FixedLength(rtp))
    else if FixedLength(rtp) + RTP_EXTENSION_HEADER_LEN > |rtp| then None
    else
      var length := BigEndian16At(rtp, FixedLength(rtp) + 2) * 4 + FixedLength(rtp) + RTP_EXTENSION_HEADER_LEN;
      if length > |rtp| then None else Some(length)
  }

  /** Where the extension block starts and ends in a valid packet. */
  function BlockStart(rtp: seq<Byte>): nat
    requires rtp != []
  {
    FixedLength(rtp) + RTP_EXTENSION_HEADER_LEN
  }

  function Block(rtp: seq<Byte>): seq<Byte>
    requires ValidateRtpHeader(rtp).Some? && HasExtensions(rtp)
  {
    rtp[BlockStart(rtp)..ValidateRtpHeader(rtp).value]
  }

  function Profile(rtp: seq<Byte>): nat
    requires ValidateRtpHeader(rtp).Some? && HasExtensions(rtp)
  {
    BigEndian16At(rtp, FixedLength(rtp))
  }

  /** The place of the extension in the packet's block. */
  function FindExtension(rtp: seq<Byte>, id: int): (f: Found)
    requires ValidateRtpHeader(rtp).Some? && HasExtensions(rtp)
    ensures f.Element? ==> BlockStart(rtp) + f.at + f.length <= ValidateRtpHeader(rtp).value
  {
    if Profile(rtp) == ONE_BYTE_PROFILE then Find(Block(rtp), 0, false, id)
    else if Profile(rtp) == TWO_BYTE_PROFILE then Find(Block(rtp), 0, true, id)
    else Absent
  }

  /** The packet after the update, and whether the update succeeded. */
  function Updated(rtp: seq<Byte>, id: int, timeUs: nat): (r: (seq<Byte>, bool))
    requires ValidateRtpHeader(rtp).Some?
    ensures |r.0| == |rtp|
  {
    if !HasExtensions(rtp) then (rtp, true)
    else
      match FindExtension(rtp, id)
      case Element(at, length) =>
        (if length == ABS_SEND_TIME_EXTENSION_LEN then Patched(rtp, BlockStart(rtp) + at, TimeBytes(timeUs)) else rtp, true)
      case _ => (rtp, false)
  }

  /** Only header bytes change, and a packet that was valid stays valid. */
  lemma UpdateStaysInHeader(rtp: seq<Byte>, id: int, timeUs: nat)
    requires ValidateRtpHeader(rtp).Some?
    ensures var updated := Updated(rtp, id, timeUs).0;
            && ValidateRtpHeader(updated) == ValidateRtpHeader(rtp)
            && updated[ValidateRtpHeader(rtp).value..] == rtp[ValidateRtpHeader(rtp).value..]
  {
    hide Find, TimeBytes;
  }

  /** The packet has a block of the elements behind so many bytes of padding. */
  ghost predicate HasBlock(rtp: seq<Byte>, padding: nat, extensions: seq<Extension>) {
    && ValidateRtpHeader(rtp).Some? && HasExtensions(rtp)
    && (Profile(rtp) == ONE_BYTE_PROFILE || Profile(rtp) == TWO_BYTE_PROFILE)
    && var twoByte := Profile(rtp) == TWO_BYTE_PROFILE;
       (forall e | e in extensions :: WellFormed(e, twoByte)) && Block(rtp) == Zeros(padding) + Encode(extensions, twoByte)
  }

  /** In a packet whose block is well formed the update gives the first send time element the new time
      and leaves every other element as it was; it succeeds exactly when there is an element with the id. */
  lemma UpdateReplacesSendTime(rtp: seq<Byte>, padding: nat, extensions: seq<Extension>, id: int, timeUs: nat)
    requires HasBlock(rtp, padding, extensions) && (padding == 0 || (padding >= 2 && id != 0))
    ensures var twoByte := Profile(rtp) == TWO_BYTE_PROFILE;
            var (updated, ok) := Updated(rtp, id, timeUs);
            && (ok <==> exists e :: e in extensions && e.id == id)
            && (ok && FindExtension(rtp, id).length == ABS_SEND_TIME_EXTENSION_LEN ==>
                  var replaced := Replaced(extensions, id, TimeBytes(timeUs));
                  && (forall e | e in replaced :: WellFormed(e, twoByte))
                  && updated[BlockStart(rtp)..ValidateRtpHeader(rtp).value] == Zeros(padding) + Encode(replaced, twoByte))
  {
    hide Find, TimeBytes, Encode, WellFormed, Replaced, Patched, ValidateRtpHeader, BlockStart, Block, HasExtensions, Profile, Zeros;
    var twoByte := Profile(rtp) == TWO_BYTE_PROFILE;
    BlockLies(rtp);
    FoundIsReplaced(padding, extensions, twoByte, id, TimeBytes(timeUs));
    var f := FindExtension(rtp, id);
    if f.Element? && f.length == ABS_SEND_TIME_EXTENSION_LEN {
      PatchInside(rtp, BlockStart(rtp), ValidateRtpHeader(rtp).value, f.at, TimeBytes(timeUs));
    }
  }

  /** The update reaches a send time element that comes first in its block unless exactly one byte of padding is
      before it. */
  lemma UpdateReachesFirst(rtp: seq<Byte>, padding: nat, extensions: seq<Extension>, id: int)
    requires HasBlock(rtp, padding, extensions) && extensions != [] && extensions[0].id == id
    ensures var data := padding + HeadLength(Profile(rtp) == TWO_BYTE_PROFILE);
            FindExtension(rtp, id) == Element(data, |extensions[0].data|) <==> padding != 1
  {
    var twoByte := Profile(rtp) == TWO_BYTE_PROFILE;
    hide Find, Encode, Zeros, ValidateRtpHeader, BlockStart, Block, HasExtensions, Profile;
    assert extensions[0] in extensions;
    FindsFirstBehindPadding(padding, extensions, twoByte, id);
    PlaceStep(extensions, padding, twoByte, id);
  }

  lemma BlockLies(rtp: seq<Byte>)
    requires ValidateRtpHeader(rtp).Some? && HasExtensions(rtp)
    ensures RTP_EXTENSION_HEADER_LEN <= BlockStart(rtp) <= ValidateRtpHeader(rtp).value <= |rtp|
    ensures Block(rtp) == rtp[BlockStart(rtp)..ValidateRtpHeader(rtp).value]
    ensures ValidateRtpHeader(rtp).value == BlockStart(rtp) + BigEndian16At(rtp, BlockStart(rtp) - 2) * 4
    ensures Profile(rtp) == BigEndian16At(rtp, BlockStart(rtp) - RTP_EXTENSION_HEADER_LEN)
  {
  }

  lemma PatchInside(s: seq<Byte>, from: nat, to: nat, at: nat, bytes: seq<Byte>)
    requires from + at + |bytes| <= to <= |s|
    ensures Patched(s, from + at, bytes)[from..to] == Patched(s[from..to], at, bytes)
  {
  }

  lemma PacketIsNotEmpty(rtp: seq<Byte>)
    requires ValidateRtpHeader(rtp).Some?
    ensures rtp != []
  {
  }

  lemma NothingToUpdate(rtp: seq<Byte>, id: int, timeUs: nat)
    requires ValidateRtpHeader(rtp).Some?
    ensures !HasExtensions(rtp) ==> Updated(rtp, id, timeUs) == (rtp, true)
  {
  }

  lemma UpdatedIs(rtp: seq<Byte>, id: int, timeUs: nat)
    requires ValidateRtpHeader(rtp).Some? && HasExtensions(rtp)
    ensures var f := FindExtension(rtp, id);
            Updated(rtp, id, timeUs)
            == (if f.Element? && f.length == ABS_SEND_TIME_EXTENSION_LEN
                then Patched(rtp, BlockStart(rtp) + f.at, TimeBytes(timeUs)) else rtp, f.Element?)
    ensures FindExtension(rtp, id)
            == if Profile(rtp) == ONE_BYTE_PROFILE || Profile(rtp) == TWO_BYTE_PROFILE
               then Find(Block(rtp), 0, Profile(rtp) == TWO_BYTE_PROFILE, id) else Absent
    ensures ABS_SEND_TIME_EXTENSION_LEN == 3 && RTP_EXTENSION_HEADER_LEN == 4
  {
    hide Find, TimeBytes, Patched, ValidateRtpHeader;
  }

  // ----- in place

  method UpdateAbsSendTimeExtensionValue(rtp: array<Byte>, at: nat, length: nat, timeUs: nat)
    requires at + length <= rtp.Length
    modifies rtp
    ensures rtp[..] == if length == ABS_SEND_TIME_EXTENSION_LEN then Patched(old(rtp[..]), at, TimeBytes(timeUs))
                       else old(rtp[..])
  {
    if length != ABS_SEND_TIME_EXTENSION_LEN {
      return;
    }
    var sendTime: int := ToSendTime(timeUs);
    ghost var before := rtp[..];
    hide ToSendTime;
    rtp[at] := sendTime / 0x1_0000;
    rtp[at + 1] := sendTime / 256 % 256;
    rtp[at + 2] := sendTime % 256;
    assert rtp[..] == Patched(before, at, TimeBytes(timeUs));
  }

  /** Walks the extension block to the element with the id and overwrites its value. */
  method UpdateRtpAbsSendTimeExtension(rtp: array<Byte>, extensionId: int, timeUs: nat) returns (ok: bool)
    requires ValidateRtpHeader(rtp[..]).Some?
    modifies rtp
    ensures (rtp[..], ok) == Updated(old(rtp[..]), extensionId, timeUs)
  {
    hide *;
    var packet := rtp[..];
    PacketIsNotEmpty(packet);
    NothingToUpdate(packet, extensionId, timeUs);
    if !HasExtensions(packet) {
      return true;
    }
    var (start, block, profile) := ReadExtensionHeader(packet);
    UpdatedIs(packet, extensionId, timeUs);
    if profile == ONE_BYTE_PROFILE || profile == TWO_BYTE_PROFILE {
      ok := UpdateInBlock(rtp, start, block, profile == TWO_BYTE_PROFILE, extensionId, timeUs);
    } else {
      ok := false;
    }
  }

  /** Where the block starts, the block, and the profile that says how its elements look. */
  function ReadExtensionHeader(rtp: seq<Byte>): (h: (nat, seq<Byte>, nat))
    requires ValidateRtpHeader(rtp).Some? && HasExtensions(rtp)
    ensures h == (BlockStart(rtp), Block(rtp), Profile(rtp)) && h.0 + |h.1| <= |rtp|
  {
    var start := FixedLength(rtp) + RTP_EXTENSION_HEADER_LEN;
    var length := BigEndian16At(rtp, FixedLength(rtp) + 2) * 4;
    (start, rtp[start..start + length], BigEndian16At(rtp, FixedLength(rtp)))
  }

  /** One step of the walk. */
  lemma WalkStep(block: seq<Byte>, at: nat, twoByte: bool, id: int)
    requires at <= |block|
    ensures if at + 1 >= |block| then Find(block, at, twoByte, id) == Absent
            else
              var data, length := at + HeadLength(twoByte), LengthAt(block, at, twoByte);
              if data + length > |block| then Find(block, at, twoByte, id) == Broken
              else if IdAt(block, at, twoByte) == id then Find(block, at, twoByte, id) == Element(data, length)
              else Find(block, at, twoByte, id) == Find(block, SkipPadding(block, data + length), twoByte, id)
  {
    hide SkipPadding, IdAt, LengthAt;
  }

  /** Walks the extension block to the element with the id. */
  method FindInBlock(block: seq<Byte>, twoByte: bool, extensionId: int) returns (f: Found)
    ensures f == Find(block, 0, twoByte, extensionId)
  {
    hide Find, SkipPadding;
    var headLength := if twoByte then 2 else 1;
    var p := 0;
    while p + 1 < |block|
      invariant p <= |block| && Find(block, 0, twoByte, extensionId) == Find(block, p, twoByte, extensionId)
      decreases |block| - p
    {
      WalkStep(block, p, twoByte, extensionId);
      var id := if twoByte then block[p] else block[p] / 16;
      var length := if twoByte then block[p + 1] else block[p] % 16 + 1;
      if p + headLength + length > |block| {
        return Broken;
      }
      if id == extensionId {
        return Element(p + headLength, length);
      }
      p := p + headLength + length;
      p := SkipZeros(block, p);
    }
    WalkStep(block, p, twoByte, extensionId);
    return Absent;
  }

  method SkipZeros(block: seq<Byte>, from: nat) returns (p: nat)
    requires from <= |block|
    ensures p == SkipPadding(block, from)
  {
    p := from;
    while p < |block| && block[p] == 0
      invariant from <= p <= |block| && SkipPadding(block, from) == SkipPadding(block, p)
    {
      p := p + 1;
    }
  }

  method UpdateInBlock(rtp: array<Byte>, start: nat, block: seq<Byte>, twoByte: bool, extensionId: int, timeUs: nat)
    returns (found: bool)
    requires start + |block| <= rtp.Length
    modifies rtp
    ensures var f := Find(block, 0, twoByte, extensionId);
            && (found <==> f.Element?)
            && rtp[..] == if f.Element? && f.length == ABS_SEND_TIME_EXTENSION_LEN
                          then Patched(old(rtp[..]), start + f.at, TimeBytes(timeUs))
                          else old(rtp[..])
  {
    var f := FindInBlock(block, twoByte, extensionId);
    found := f.Element?;
    if found {
      UpdateAbsSendTimeExtensionValue(rtp, start + f.at, f.length, timeUs);
    }
  }
}
