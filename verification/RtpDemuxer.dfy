/** The demuxer of rtp_demuxer.cpp: routing tables updated in place, proved to do what DemuxerModel says. */
module RtpDemuxer {
  import opened Options
  import opened DemuxerModel

  lemma {:induction false} WithoutSplit(s: seq<Sink>, i: nat, sink: Sink)
    requires i < |s|
    ensures Without(s[..i + 1], sink) == Without(s[..i], sink) + if s[i] == sink then [] else [s[i]]
  {
    if i > 0 {
      WithoutSplit(s[1..], i - 1, sink);
      assert s[1..][..i] == s[..i + 1][1..] && s[1..][..i - 1] == s[..i][1..];
    }
  }

  /** The first `i` sinks of a payload type that differ from `sink`. */
  method RemoveFromSharing(sinks: seq<Sink>, sink: Sink) returns (kept: seq<Sink>, count: nat)
    ensures kept == Without(sinks, sink)
    ensures count > 0 <==> sink in sinks
  {
    kept, count := [], 0;
    var i := 0;
    while i < |sinks|
      invariant 0 <= i <= |sinks| && kept == Without(sinks[..i], sink)
      invariant count > 0 <==> sink in sinks[..i]
    {
      WithoutSplit(sinks, i, sink);
      assert sinks[..i + 1] == sinks[..i] + [sinks[i]];
      if sinks[i] == sink {
        count := count + 1;
      } else {
        kept := kept + [sinks[i]];
      }
      i := i + 1;
    }
    assert sinks[..i] == sinks;
  }

  method RemoveFromMultimapByValue(m: map<nat, seq<Sink>>, sink: Sink) returns (kept: map<nat, seq<Sink>>, count: nat)
    ensures kept == WithoutShared(m, sink)
    ensures count > 0 <==> exists p :: p in m && sink in m[p]
  {
    hide Without;
    kept, count := map[], 0;
    var rest := m.Keys;
    while rest != {}
      invariant rest <= m.Keys
      invariant kept == map p | p in m.Keys - rest && Without(m[p], sink) != [] :: Without(m[p], sink)
      invariant count > 0 <==> exists p :: p in m.Keys - rest && sink in m[p]
      decreases |rest|
    {
      var p :| p in rest;
      var sinks, removed := RemoveFromSharing(m[p], sink);
      kept := if sinks == [] then kept else kept[p := sinks];
      count := count + removed;
      rest := rest - {p};
    }
  }

  method RemoveFromMapByValue<K(==)>(m: map<K, Sink>, sink: Sink) returns (kept: map<K, Sink>, count: nat)
    ensures kept == WithoutValue(m, sink)
    ensures count > 0 <==> sink in m.Values
  {
    var gone := set k | k in m && m[k] == sink;
    kept, count := map k | k in m && m[k] != sink :: m[k], |gone|;
    if sink in m.Values {
      var k :| k in m && m[k] == sink;
      assert k in gone;
    }
    if gone != {} {
      var k :| k in gone;
      assert m[k] in m.Values;
    }
  }

  lemma EmplaceNoSsrcs(m: map<nat, Sink>, sink: Sink)
    ensures EmplaceSsrcs(m, {}, sink) == m
  {
  }

  lemma EmplaceOneMore(m: map<nat, Sink>, done: set<nat>, ssrc: nat, sink: Sink)
    ensures EmplaceSsrcs(m, done + {ssrc}, sink) == Emplace(EmplaceSsrcs(m, done, sink), ssrc, sink)
  {
  }

  lemma EmplaceNoTypes(m: map<nat, seq<Sink>>, sink: Sink)
    ensures EmplacePayloadTypes(m, {}, sink) == m
  {
  }

  lemma EmplaceOneMoreType(m: map<nat, seq<Sink>>, done: set<nat>, payloadType: nat, sink: Sink)
    requires payloadType !in done
    ensures var m' := EmplacePayloadTypes(m, done, sink);
            EmplacePayloadTypes(m, done + {payloadType}, sink) == m'[payloadType := Sharing(m', payloadType) + [sink]]
  {
  }

  function Firsts(pairs: set<(string, string)>): set<string> {
    set k | k in pairs :: k.0
  }

  lemma NoFirsts()
    ensures Firsts({}) == {}
  {
  }

  lemma OneMoreFirst(pairs: set<(string, string)>, pair: (string, string))
    ensures Firsts(pairs + {pair}) == Firsts(pairs) + {pair.0}
  {
  }

  /** The loop over the MIDs asked for alone. */
  method InsertAll(known: set<string>, keys: set<string>) returns (mids: set<string>)
    ensures mids == known + keys
  {
    mids := known;
    var rest := keys;
    while rest != {}
      invariant rest <= keys && mids + rest == known + keys
      decreases |rest|
    {
      var mid :| mid in rest;
      mids := mids + {mid};
      rest := rest - {mid};
    }
  }

  /** The loop over the MIDs asked for with RSIDs. */
  method InsertFirsts(known: set<string>, keys: set<(string, string)>) returns (mids: set<string>)
    ensures mids == known + Firsts(keys)
  {
    hide Firsts;
    mids := known;
    var rest := keys;
    ghost var done: set<(string, string)> := {};
    NoFirsts();
    while rest != {}
      invariant done + rest == keys && mids == known + Firsts(done)
      decreases |rest|
    {
      var pair :| pair in rest;
      OneMoreFirst(done, pair);
      mids := mids + {pair.0};
      done := done + {pair};
      rest := rest - {pair};
    }
    assert done == keys;
  }

  lemma MidsAreFirsts(byMid: map<string, Sink>, byBoth: map<(string, string), Sink>)
    ensures MidsOf(byMid, byBoth) == byMid.Keys + Firsts(byBoth.Keys)
  {
  }

  lemma CountedIfListed(t: Tables, sink: Sink, mids: nat, ssrcs: nat, pts: nat, pairs: nat, rsids: nat)
    requires mids > 0 <==> sink in t.byMid.Values
    requires ssrcs > 0 <==> sink in t.bySsrc.Values
    requires pts > 0 <==> exists p :: p in t.byPayloadType && sink in t.byPayloadType[p]
    requires pairs > 0 <==> sink in t.byMidAndRsid.Values
    requires rsids > 0 <==> sink in t.byRsid.Values
    ensures mids + ssrcs + pts + pairs + rsids > 0 <==> Listed(t, sink)
  {
  }

  class RtpDemuxer {
    const useMid: bool
    var sinkByMid: map<string, Sink>
    var sinkBySsrc: map<nat, Sink>
    var sinksByPt: map<nat, seq<Sink>>
    var sinkByMidAndRsid: map<(string, string), Sink>
    var sinkByRsid: map<string, Sink>
    var knownMids: set<string>
    var midBySsrc: map<nat, string>
    var rsidBySsrc: map<nat, string>

    ghost function View(): Tables
      reads this
    {
      Tables(sinkByMid, sinkBySsrc, sinksByPt, sinkByMidAndRsid, sinkByRsid, knownMids, midBySsrc, rsidBySsrc)
    }

    constructor (useMid: bool)
      ensures View() == EMPTY && this.useMid == useMid
    {
      this.useMid := useMid;
      sinkByMid, sinkBySsrc, sinksByPt, sinkByMidAndRsid, sinkByRsid := map[], map[], map[], map[], map[];
      knownMids, midBySsrc, rsidBySsrc := {}, map[], map[];
    }

    method CriteriaWouldConflict(criteria: Criteria) returns (conflict: bool)
      ensures conflict == Conflicts(View(), criteria)
    {
      if criteria.mid != "" {
        if criteria.rsid == "" {
          if criteria.mid in knownMids {
            return true;
          }
        } else {
          if (criteria.mid, criteria.rsid) in sinkByMidAndRsid {
            return true;
          }
          if criteria.mid in sinkByMid {
            return true;
          }
        }
      }
      var rest := criteria.ssrcs;
      while rest != {}
        invariant rest <= criteria.ssrcs
        invariant forall s | s in criteria.ssrcs - rest :: s !in sinkBySsrc
        decreases |rest|
      {
        var ssrc :| ssrc in rest;
        if ssrc in sinkBySsrc {
          return true;
        }
        rest := rest - {ssrc};
      }
      return false;
    }

    method RefreshKnownMids()
      modifies this`knownMids
      ensures knownMids == MidsOf(sinkByMid, sinkByMidAndRsid)
    {
      hide MidsOf, Firsts;
      MidsAreFirsts(sinkByMid, sinkByMidAndRsid);
      knownMids := InsertAll({}, sinkByMid.Keys);
      knownMids := InsertFirsts(knownMids, sinkByMidAndRsid.Keys);
    }

    method EmplaceAllSsrcs(ssrcs: set<nat>, sink: Sink)
      modifies this`sinkBySsrc
      ensures sinkBySsrc == EmplaceSsrcs(old(sinkBySsrc), ssrcs, sink)
    {
      hide EmplaceSsrcs;
      EmplaceNoSsrcs(sinkBySsrc, sink);
      assert ssrcs - ssrcs == {} && ssrcs - {} == ssrcs;
      var rest := ssrcs;
      while rest != {}
        invariant rest <= ssrcs && sinkBySsrc == EmplaceSsrcs(old(sinkBySsrc), ssrcs - rest, sink)
        decreases |rest|
      {
        var ssrc :| ssrc in rest;
        EmplaceOneMore(old(sinkBySsrc), ssrcs - rest, ssrc, sink);
        sinkBySsrc := Emplace(sinkBySsrc, ssrc, sink);
        assert ssrcs - (rest - {ssrc}) == (ssrcs - rest) + {ssrc};
        rest := rest - {ssrc};
      }
    }

    method EmplaceAllPayloadTypes(types: set<nat>, sink: Sink)
      modifies this`sinksByPt
      ensures sinksByPt == EmplacePayloadTypes(old(sinksByPt), types, sink)
    {
      hide EmplacePayloadTypes;
      EmplaceNoTypes(sinksByPt, sink);
      assert types - types == {} && types - {} == types;
      var rest := types;
      while rest != {}
        invariant rest <= types && sinksByPt == EmplacePayloadTypes(old(sinksByPt), types - rest, sink)
        decreases |rest|
      {
        var pt :| pt in rest;
        EmplaceOneMoreType(old(sinksByPt), types - rest, pt, sink);
        assert types - (rest - {pt}) == (types - rest) + {pt};
        sinksByPt := sinksByPt[pt := Sharing(sinksByPt, pt) + [sink]];
        rest := rest - {pt};
      }
    }

    /** Registers a sink, unless its criteria conflict with what is registered already. */
    method AddSink(criteria: Criteria, sink: Sink) returns (added: bool)
      modifies this
      ensures (View(), added) == DemuxerModel.AddSink(old(View()), criteria, sink)
    {
      hide EmplaceSsrcs, EmplacePayloadTypes, MidsOf, Conflicts, Emplace;
      var conflict := CriteriaWouldConflict(criteria);
      if conflict {
        return false;
      }
      if criteria.mid != "" {
        if criteria.rsid == "" {
          sinkByMid := Emplace(sinkByMid, criteria.mid, sink);
        } else {
          sinkByMidAndRsid := Emplace(sinkByMidAndRsid, (criteria.mid, criteria.rsid), sink);
        }
      } else {
        if criteria.rsid != "" {
          sinkByRsid := Emplace(sinkByRsid, criteria.rsid, sink);
        }
      }
      EmplaceAllSsrcs(criteria.ssrcs, sink);
      EmplaceAllPayloadTypes(criteria.payloadTypes, sink);
      RefreshKnownMids();
      return true;
    }

    method RemoveSink(sink: Sink) returns (removed: bool)
      modifies this
      ensures (View(), removed) == DemuxerModel.RemoveSink(old(View()), sink)
    {
      hide WithoutValue, WithoutShared, MidsOf, Listed;
      var byMid, mids := RemoveFromMapByValue(sinkByMid, sink);
      var bySsrc, ssrcs := RemoveFromMapByValue(sinkBySsrc, sink);
      var byPt, pts := RemoveFromMultimapByValue(sinksByPt, sink);
      var byBoth, pairs := RemoveFromMapByValue(sinkByMidAndRsid, sink);
      var byRsid, rsids := RemoveFromMapByValue(sinkByRsid, sink);
      CountedIfListed(View(), sink, mids, ssrcs, pts, pairs, rsids);
      sinkByMid, sinkBySsrc, sinksByPt, sinkByMidAndRsid, sinkByRsid := byMid, bySsrc, byPt, byBoth, byRsid;
      RefreshKnownMids();
      removed := mids + ssrcs + pts + pairs + rsids > 0;
    }

    method AddSsrcSinkBinding(ssrc: nat, sink: Sink)
      modifies this`sinkBySsrc
      ensures View() == Bind(old(View()), ssrc, sink)
    {
      if |sinkBySsrc| >= MAX_SSRC_BINDINGS {
        return;
      }
      var inserted := ssrc !in sinkBySsrc;
      sinkBySsrc := Emplace(sinkBySsrc, ssrc, sink);
      if !inserted && sinkBySsrc[ssrc] != sink {
        sinkBySsrc := sinkBySsrc[ssrc := sink];
      }
    }

    method ResolveSinkByMid(mid: string, ssrc: nat) returns (sink: Option<Sink>)
      modifies this`sinkBySsrc
      ensures (View(), sink) == Bound(old(View()), ssrc, Lookup(sinkByMid, mid))
    {
      if mid in sinkByMid {
        AddSsrcSinkBinding(ssrc, sinkByMid[mid]);
        return Some(sinkByMid[mid]);
      }
      return None;
    }

    method ResolveSinkByMidRsid(mid: string, rsid: string, ssrc: nat) returns (sink: Option<Sink>)
      modifies this`sinkBySsrc
      ensures (View(), sink) == Bound(old(View()), ssrc, Lookup(sinkByMidAndRsid, (mid, rsid)))
    {
      if (mid, rsid) in sinkByMidAndRsid {
        AddSsrcSinkBinding(ssrc, sinkByMidAndRsid[(mid, rsid)]);
        return Some(sinkByMidAndRsid[(mid, rsid)]);
      }
      return None;
    }

    method ResolveSinkByRsid(rsid: string, ssrc: nat) returns (sink: Option<Sink>)
      modifies this`sinkBySsrc
      ensures (View(), sink) == Bound(old(View()), ssrc, Lookup(sinkByRsid, rsid))
    {
      if rsid in sinkByRsid {
        AddSsrcSinkBinding(ssrc, sinkByRsid[rsid]);
        return Some(sinkByRsid[rsid]);
      }
      return None;
    }

    method ResolveSinkByPayloadType(payloadType: nat, ssrc: nat) returns (sink: Option<Sink>)
      modifies this`sinkBySsrc
      ensures (View(), sink) == Bound(old(View()), ssrc, SinkByPayloadType(old(View()), payloadType))
    {
      var sinks := Sharing(sinksByPt, payloadType);
      if sinks != [] {
        if |sinks| == 1 {
          AddSsrcSinkBinding(ssrc, sinks[0]);
          return Some(sinks[0]);
        }
      }
      return None;
    }

    /** Routes by the ids that are latched for the SSRC, then by the SSRC, then by the payload type. */
    method RouteLatched(ssrc: nat, payloadType: nat) returns (sink: Option<Sink>)
      modifies this`sinkBySsrc
      ensures (View(), sink) == Route(old(View()), ssrc, payloadType)
    {
      var mid, rsid := Lookup(midBySsrc, ssrc), Lookup(rsidBySsrc, ssrc);
      if mid.Some? {
        sink := ResolveSinkByMid(mid.value, ssrc);
        if sink.Some? {
          return;
        }
        if rsid.Some? {
          sink := ResolveSinkByMidRsid(mid.value, rsid.value, ssrc);
          if sink.Some? {
            return;
          }
        }
        return None;
      }
      if rsid.Some? {
        sink := ResolveSinkByRsid(rsid.value, ssrc);
        if sink.Some? {
          return;
        }
      }
      if ssrc in sinkBySsrc {
        return Some(sinkBySsrc[ssrc]);
      }
      sink := ResolveSinkByPayloadType(payloadType, ssrc);
    }

    /** Learns the ids the packet carries and finds the sink it is for. */
    method ResolveSink(packet: Packet) returns (sink: Option<Sink>)
      modifies this`midBySsrc, this`rsidBySsrc, this`sinkBySsrc
      ensures (View(), sink) == DemuxerModel.ResolveSink(old(View()), packet, useMid)
    {
      hide Route;
      var packetMid := if useMid then packet.mid else None;
      var packetRsid := packet.repairedRsid;
      if packetRsid.None? {
        packetRsid := packet.rsid;
      }
      if packetMid.Some? && packetMid.value !in knownMids {
        return None;
      }
      if packetMid.Some? {
        midBySsrc := midBySsrc[packet.ssrc := packetMid.value];
      }
      if packetRsid.Some? {
        rsidBySsrc := rsidBySsrc[packet.ssrc := packetRsid.value];
      }
      sink := RouteLatched(packet.ssrc, packet.payloadType);
    }

    /** Forwards the packet to its sink, if it has one. */
    method OnRtpPacket(packet: Packet) returns (forwarded: bool, to: Option<Sink>)
      modifies this`midBySsrc, this`rsidBySsrc, this`sinkBySsrc
      ensures (View(), to) == DemuxerModel.ResolveSink(old(View()), packet, useMid)
      ensures forwarded <==> to.Some?
    {
      to := ResolveSink(packet);
      forwarded := to.Some?;
    }
  }
}
