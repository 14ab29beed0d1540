/** The routing tables of `RtpDemuxer` (rtp_demuxer.cpp) and what registration, removal and packet
    reception do to them. */
module DemuxerModel {
  import opened Options

  /** The identity of a packet sink. */
  type Sink = nat

  /** Which packets a sink asks for; an empty string asks for nothing. */
  datatype Criteria = Criteria(mid: string, rsid: string, ssrcs: set<nat>, payloadTypes: set<nat>)

  datatype Packet = Packet(
    ssrc: nat, payloadType: nat, mid: Option<string>, rsid: Option<string>, repairedRsid: Option<string>)

  datatype Tables = Tables(
    byMid: map<string, Sink>,
    bySsrc: map<nat, Sink>,
    byPayloadType: map<nat, seq<Sink>>,
    byMidAndRsid: map<(string, string), Sink>,
    byRsid: map<string, Sink>,
    knownMids: set<string>,
    midOf: map<nat, string>,
    rsidOf: map<nat, string>)

  const EMPTY := Tables(map[], map[], map[], map[], map[], {}, map[], map[])

  const MAX_SSRC_BINDINGS: nat := 1000

  // ----- registration

  function Lookup<K, V>(m: map<K, V>, k: K): Option<V> {
    if k in m then Some(m[k]) else None
  }

  /** Adds an entry unless the key is taken. */
  function Emplace<K, V>(m: map<K, V>, k: K, v: V): map<K, V> {
    if k in m then m else m[k := v]
  }

  /** The sinks registered for a payload type, in order of registration. */
  function Sharing(m: map<nat, seq<Sink>>, payloadType: nat): seq<Sink> {
    if payloadType in m then m[payloadType] else []
  }

  function MidsOf(byMid: map<string, Sink>, byMidAndRsid: map<(string, string), Sink>): set<string> {
    byMid.Keys + set k | k in byMidAndRsid :: k.0
  }

  predicate Conflicts(t: Tables, c: Criteria) {
    || (c.mid != ""
        && if c.rsid == "" then c.mid in t.knownMids else (c.mid, c.rsid) in t.byMidAndRsid || c.mid in t.byMid)
    || exists s :: s in c.ssrcs && s in t.bySsrc
  }

  function EmplaceSsrcs(bySsrc: map<nat, Sink>, ssrcs: set<nat>, sink: Sink): map<nat, Sink> {
    map s | s in bySsrc.Keys + ssrcs :: if s in bySsrc then bySsrc[s] else sink
  }

  function EmplacePayloadTypes(m: map<nat, seq<Sink>>, types: set<nat>, sink: Sink): map<nat, seq<Sink>> {
    map p | p in m.Keys + types :: if p in types then Sharing(m, p) + [sink] else m[p]
  }

  function Register(t: Tables, c: Criteria, sink: Sink): Tables {
    var byMid := if c.mid != "" && c.rsid == "" then Emplace(t.byMid, c.mid, sink) else t.byMid;
    var byBoth := if c.mid != "" && c.rsid != "" then Emplace(t.byMidAndRsid, (c.mid, c.rsid), sink) else t.byMidAndRsid;
    t.(byMid := byMid, byMidAndRsid := byBoth,
       byRsid := if c.mid == "" && c.rsid != "" then Emplace(t.byRsid, c.rsid, sink) else t.byRsid,
       bySsrc := EmplaceSsrcs(t.bySsrc, c.ssrcs, sink),
       byPayloadType := EmplacePayloadTypes(t.byPayloadType, c.payloadTypes, sink),
       knownMids := MidsOf(byMid, byBoth))
  }

  function AddSink(t: Tables, c: Criteria, sink: Sink): (Tables, bool) {
    if Conflicts(t, c) then (t, false) else (Register(t, c, sink), true)
  }

  // ----- removal

  function WithoutValue<K>(m: map<K, Sink>, sink: Sink): map<K, Sink> {
    map k | k in m && m[k] != sink :: m[k]
  }

  function Without(s: seq<Sink>, sink: Sink): seq<Sink> {
    if s == [] then [] else (if s[0] == sink then [] else [s[0]]) + Without(s[1..], sink)
  }

  /** Payload types that lose their last sink disappear. */
  function WithoutShared(m: map<nat, seq<Sink>>, sink: Sink): map<nat, seq<Sink>> {
    map p | p in m && Without(m[p], sink) != [] :: Without(m[p], sink)
  }

  predicate Listed(t: Tables, sink: Sink) {
    || sink in t.byMid.Values || sink in t.bySsrc.Values || sink in t.byMidAndRsid.Values || sink in t.byRsid.Values
    || exists p :: p in t.byPayloadType && sink in t.byPayloadType[p]
  }

  function RemoveSink(t: Tables, sink: Sink): (Tables, bool) {
    var byMid, byBoth := WithoutValue(t.byMid, sink), WithoutValue(t.byMidAndRsid, sink);
    (t.(byMid := byMid, byMidAndRsid := byBoth, byRsid := WithoutValue(t.byRsid, sink),
        bySsrc := WithoutValue(t.bySsrc, sink), byPayloadType := WithoutShared(t.byPayloadType, sink),
        knownMids := MidsOf(byMid, byBoth)),
     Listed(t, sink))
  }

  // ----- packets

  /** The stream id a packet carries; that of a repair packet is the repaired stream's. */
  function StreamId(p: Packet): (r: Option<string>)
    ensures r == p.repairedRsid || (p.repairedRsid == None && r == p.rsid)
  {
    if p.repairedRsid.Some? then p.repairedRsid else p.rsid
  }

  function MediaId(p: Packet, useMid: bool): Option<string> {
    if useMid then p.mid else None
  }

  predicate UnknownMid(t: Tables, p: Packet, useMid: bool) {
    MediaId(p, useMid).Some? && MediaId(p, useMid).value !in t.knownMids
  }

  /** Remembers the ids a packet carries for its SSRC. */
  function Learn(t: Tables, p: Packet, useMid: bool): Tables {
    var mid, rsid := MediaId(p, useMid), StreamId(p);
    t.(midOf := if mid.Some? then t.midOf[p.ssrc := mid.value] else t.midOf,
       rsidOf := if rsid.Some? then t.rsidOf[p.ssrc := rsid.value] else t.rsidOf)
  }

  /** Binds an SSRC to a sink, replacing an earlier binding, unless the table is full. */
  function Bind(t: Tables, ssrc: nat, sink: Sink): Tables {
    if |t.bySsrc| >= MAX_SSRC_BINDINGS then t else t.(bySsrc := t.bySsrc[ssrc := sink])
  }

  function SinkByPayloadType(t: Tables, payloadType: nat): Option<Sink> {
    var sinks := Sharing(t.byPayloadType, payloadType);
    if |sinks| == 1 then Some(sinks[0]) else None
  }

  function Bound(t: Tables, ssrc: nat, sink: Option<Sink>): (Tables, Option<Sink>) {
    if sink.Some? then (Bind(t, ssrc, sink.value), sink) else (t, None)
  }

  /** Where the ids latched for its SSRC, its binding and at last its payload type send a packet. */
  function Route(t: Tables, ssrc: nat, payloadType: nat): (Tables, Option<Sink>) {
    var mid, rsid := Lookup(t.midOf, ssrc), Lookup(t.rsidOf, ssrc);
    if mid.Some? then
      if mid.value in t.byMid then Bound(t, ssrc, Some(t.byMid[mid.value]))
      else if rsid.Some? then Bound(t, ssrc, Lookup(t.byMidAndRsid, (mid.value, rsid.value)))
      else (t, None)
    else if rsid.Some? && rsid.value in t.byRsid then Bound(t, ssrc, Some(t.byRsid[rsid.value]))
    else if ssrc in t.bySsrc then (t, Some(t.bySsrc[ssrc]))
    else Bound(t, ssrc, SinkByPayloadType(t, payloadType))
  }

  function ResolveSink(t: Tables, p: Packet, useMid: bool): (Tables, Option<Sink>) {
    if UnknownMid(t, p, useMid) then (t, None)
    else Route(Learn(t, p, useMid), p.ssrc, p.payloadType)
  }
}
