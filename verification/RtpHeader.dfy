/** RTP packets as sections 5.1 and 5.3.1 of RFC 3550 lay them out, and what rtp_utils.cc reads of their headers. */
module RtpHeader {
  import opened Bytes
  import opened Options
  import opened RtpUtils

  type Bits16 = x: int | 0 <= x < 65536

  /** A header extension: its profile, and a block of whole 32-bit words. */
  datatype Extended = Extended(profile: Bits16, block: seq<Byte>)

  /** The version, the padding flag, the other eleven bytes of the fixed header, four bytes for each contributing
      source, the header extension, if any, and the payload. */
  datatype Packet = Packet(version: nat, padded: bool, fixed: seq<Byte>, sources: seq<seq<Byte>>,
                           extended: Option<Extended>, payload: seq<Byte>)

  ghost predicate Proper(p: Packet) {
    && p.version < 4 && |p.fixed| == 11 && |p.sources| < 16
    && (forall s | s in p.sources :: |s| == 4)
    && (p.extended.Some? ==> |p.extended.value.block| % 4 == 0 && |p.extended.value.block| / 4 < 65536)
  }

  function Flag(isSet: bool, weight: nat): nat {
    if isSet then weight else 0
  }

  function BigEndian16(v: Bits16): seq<Byte> {
    [v / 256, v % 256]
  }

  function Joined(parts: seq<seq<Byte>>): seq<Byte> {
    if parts == [] then [] else parts[0] + Joined(parts[1..])
  }

  function ExtensionBytes(extended: Option<Extended>): seq<Byte>
    requires extended.Some? ==> |extended.value.block| / 4 < 65536
  {
    match extended
    case None => []
    case Some(e) => (BigEndian16(e.profile) + BigEndian16(|e.block| / 4)) + e.block
  }

  ghost function Header(p: Packet): seq<Byte>
    requires Proper(p)
  {
    [p.version * 64 + Flag(p.padded, 32) + Flag(p.extended.Some?, 16) + |p.sources|]
    + p.fixed + Joined(p.sources) + ExtensionBytes(p.extended)
  }

  lemma {:induction false} JoinedLength(parts: seq<seq<Byte>>)
    requires forall s | s in parts :: |s| == 4
    ensures |Joined(parts)| == 4 * |parts|
  {
    if parts != [] {
      JoinedLength(parts[1..]);
    }
  }

  lemma BigEndian16Lies(v: Bits16, s: seq<Byte>, at: nat)
    requires at + 2 <= |s| && s[at] == BigEndian16(v)[0] && s[at + 1] == BigEndian16(v)[1]
    ensures BigEndian16At(s, at) == v
  {
  }

  lemma FirstByteParts(version: nat, padded: bool, extended: bool, count: nat)
    requires version < 4 && count < 16
    ensures var b := version * 64 + Flag(padded, 32) + Flag(extended, 16) + count;
            b < 256 && b % 16 == count && (b / 16 % 2 == 1 <==> extended)
  {
    var high := version * 4 + Flag(padded, 2) + Flag(extended, 1);
    assert version * 64 + Flag(padded, 32) + Flag(extended, 16) + count == 16 * high + count;
  }

  /** The first byte says how many sources there are and whether there is an extension. */
  lemma FirstByteSays(p: Packet, rtp: seq<Byte>)
    requires Proper(p) && rtp != [] && rtp[0] == Header(p)[0]
    ensures FixedLength(rtp) == MIN_RTP_PACKET_LEN + 4 * |p.sources| && (HasExtensions(rtp) <==> p.extended.Some?)
  {
    hide Flag, Joined, ExtensionBytes;
    FirstByteParts(p.version, p.padded, p.extended.Some?, |p.sources|);
  }

  /** Where the parts of the header lie. */
  lemma HeaderLies(p: Packet)
    requires Proper(p)
    ensures var fixed := MIN_RTP_PACKET_LEN + 4 * |p.sources|;
            && |Header(p)| == fixed + |ExtensionBytes(p.extended)| && Header(p)[fixed..] == ExtensionBytes(p.extended)
  {
    JoinedLength(p.sources);
    hide ExtensionBytes, Joined;
  }

  lemma ExtensionLies(e: Extended, rtp: seq<Byte>, at: nat)
    requires |e.block| / 4 < 65536 && at + 4 + |e.block| <= |rtp|
    requires rtp[at..at + 4 + |e.block|] == ExtensionBytes(Some(e))
    ensures BigEndian16At(rtp, at) == e.profile && BigEndian16At(rtp, at + 2) == |e.block| / 4
    ensures rtp[at + 4..at + 4 + |e.block|] == e.block
  {
    var bytes := ExtensionBytes(Some(e));
    var s := rtp[at..at + 4 + |e.block|];
    assert s[0] == rtp[at] && s[1] == rtp[at + 1] && s[2] == rtp[at + 2] && s[3] == rtp[at + 3];
    assert s[4..] == rtp[at + 4..at + 4 + |e.block|];
    assert bytes[4..] == e.block;
    BigEndian16Lies(e.profile, rtp, at);
    BigEndian16Lies(|e.block| / 4, rtp, at + 2);
  }

  /** The header of a packet is read as it was laid out: its length, its profile and its block. */
  lemma HeaderIsRead(p: Packet)
    requires Proper(p)
    ensures var rtp := Header(p) + p.payload;
            && ValidateRtpHeader(rtp) == Some(|Header(p)|)
            && (HasExtensions(rtp) <==> p.extended.Some?)
            && (p.extended.Some? ==> Profile(rtp) == p.extended.value.profile && RtpUtils.Block(rtp) == p.extended.value.block)
  {
    var rtp := Header(p) + p.payload;
    HeaderLies(p);
    FirstByteSays(p, rtp);
    var fixed := MIN_RTP_PACKET_LEN + 4 * |p.sources|;
    if p.extended.Some? {
      var e := p.extended.value;
      assert rtp[fixed..fixed + 4 + |e.block|] == Header(p)[fixed..];
      ExtensionLies(e, rtp, fixed);
    }
  }

  /** The first four bytes of the extension say how long its block is. */
  lemma LengthLies(p: Packet, rtp: seq<Byte>)
    requires Proper(p) && p.extended.Some?
    requires var fixed := MIN_RTP_PACKET_LEN + 4 * |p.sources|; |rtp| >= fixed + 4 && rtp[..fixed + 4] <= Header(p)
    ensures BigEndian16At(rtp, MIN_RTP_PACKET_LEN + 4 * |p.sources| + 2) == |p.extended.value.block| / 4
  {
    HeaderLies(p);
    var e, fixed := p.extended.value, MIN_RTP_PACKET_LEN + 4 * |p.sources|;
    var bytes := ExtensionBytes(Some(e));
    assert Header(p)[fixed..][2] == bytes[2] && Header(p)[fixed..][3] == bytes[3];
    assert bytes[2] == BigEndian16(|e.block| / 4)[0] && bytes[3] == BigEndian16(|e.block| / 4)[1];
    assert rtp[..fixed + 4][fixed + 2] == bytes[2] && rtp[..fixed + 4][fixed + 3] == bytes[3];
    hide Header, ExtensionBytes;
    BigEndian16Lies(|e.block| / 4, rtp, fixed + 2);
  }

  /** A packet that ends inside its header is not valid. */
  lemma CutHeaderIsInvalid(p: Packet, n: nat)
    requires Proper(p) && n < |Header(p)|
    ensures ValidateRtpHeader(Header(p)[..n]) == None
  {
    HeaderLies(p);
    var rtp := Header(p)[..n];
    var fixed := MIN_RTP_PACKET_LEN + 4 * |p.sources|;
    if n >= MIN_RTP_PACKET_LEN {
      FirstByteSays(p, rtp);
      if p.extended.Some? && n >= fixed + 4 {
        LengthLies(p, rtp);
      }
    }
    hide Header, BigEndian16At, FixedLength, HasExtensions, Joined;
  }
}
