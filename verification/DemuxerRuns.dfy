/** What routing does over every run of registrations, removals and packets. */
module DemuxerRuns {
  import opened Options
  import opened DemuxerModel

  /** An accepted registration whose sink has not been removed since. */
  datatype Registration = Registration(criteria: Criteria, sink: Sink)

  type Live = seq<Registration>

  predicate AsksForMid(r: Registration, mid: string) {
    mid != "" && r.criteria.mid == mid && r.criteria.rsid == ""
  }

  predicate AsksForBoth(r: Registration, mid: string, rsid: string) {
    mid != "" && rsid != "" && r.criteria.mid == mid && r.criteria.rsid == rsid
  }

  predicate AsksForRsid(r: Registration, rsid: string) {
    rsid != "" && r.criteria.mid == "" && r.criteria.rsid == rsid
  }

  predicate Mentions(r: Registration, mid: string) {
    mid != "" && r.criteria.mid == mid
  }

  /** The sinks asking for a payload type, in order of registration. */
  function Asking(live: Live, payloadType: nat): seq<Sink> {
    if live == [] then []
    else (if payloadType in live[0].criteria.payloadTypes then [live[0].sink] else []) + Asking(live[1..], payloadType)
  }

  function StillLive(live: Live, sink: Sink): Live {
    if live == [] then [] else (if live[0].sink == sink then [] else [live[0]]) + StillLive(live[1..], sink)
  }

  ghost predicate IsLive(live: Live, sink: Sink) {
    exists r :: r in live && r.sink == sink
  }

  // ----- the tables agree with the registrations

  ghost predicate MidsAgree(t: Tables, live: Live) {
    && (forall mid | mid in t.byMid :: exists r :: r in live && AsksForMid(r, mid))
    && (forall r, mid | r in live && AsksForMid(r, mid) :: mid in t.byMid && t.byMid[mid] == r.sink)
  }

  ghost predicate PairsAgree(t: Tables, live: Live) {
    && (forall k | k in t.byMidAndRsid :: exists r :: r in live && AsksForBoth(r, k.0, k.1))
    && (forall r, mid, rsid | r in live && AsksForBoth(r, mid, rsid) ::
          (mid, rsid) in t.byMidAndRsid && t.byMidAndRsid[(mid, rsid)] == r.sink)
  }

  /** A MID is either asked for alone or together with RSIDs, never both. */
  ghost predicate Unshadowed(t: Tables) {
    forall k | k in t.byMidAndRsid :: k.0 !in t.byMid
  }

  ghost predicate RsidsAgree(t: Tables, live: Live) {
    forall rsid | rsid in t.byRsid :: exists r :: r in live && AsksForRsid(r, rsid) && t.byRsid[rsid] == r.sink
  }

  ghost predicate SsrcsAgree(t: Tables, live: Live) {
    forall s | s in t.bySsrc :: IsLive(live, t.bySsrc[s])
  }

  ghost predicate PayloadTypesAgree(t: Tables, live: Live) {
    forall p :: Sharing(t.byPayloadType, p) == Asking(live, p)
  }

  ghost predicate Agrees(t: Tables, live: Live) {
    && MidsAgree(t, live)
    && PairsAgree(t, live)
    && Unshadowed(t)
    && RsidsAgree(t, live)
    && SsrcsAgree(t, live)
    && PayloadTypesAgree(t, live)
    && t.knownMids == MidsOf(t.byMid, t.byMidAndRsid)
  }

  /** The known MIDs are those of the live registrations. */
  lemma KnownMeansMentioned(t: Tables, live: Live, mid: string)
    requires Agrees(t, live)
    ensures mid in t.knownMids <==> exists r :: r in live && Mentions(r, mid)
  {
    if mid in t.knownMids && mid !in t.byMid {
      var k :| k in t.byMidAndRsid && k.0 == mid;
      var r :| r in live && AsksForBoth(r, k.0, k.1);
      assert Mentions(r, mid);
    } else if mid in t.byMid {
      var r :| r in live && AsksForMid(r, mid);
      assert Mentions(r, mid);
    }
    forall r | r in live && Mentions(r, mid) ensures mid in t.knownMids {
      if r.criteria.rsid == "" {
        assert AsksForMid(r, mid);
      } else {
        assert AsksForBoth(r, mid, r.criteria.rsid);
        assert (mid, r.criteria.rsid) in t.byMidAndRsid;
      }
    }
  }

  /** A registration is accepted exactly when it neither shadows nor is shadowed by a live one, does not repeat
      its MID and RSID, and claims no bound SSRC. A repeated RSID alone is not turned away, whatever the header says. */
  lemma AcceptedIffUnshadowed(t: Tables, live: Live, c: Criteria, sink: Sink)
    requires Agrees(t, live)
    ensures AddSink(t, c, sink).1 <==>
              && (c.mid != "" && c.rsid == "" ==> !exists r :: r in live && Mentions(r, c.mid))
              && (c.mid != "" && c.rsid != "" ==>
                    !exists r :: r in live && (AsksForMid(r, c.mid) || AsksForBoth(r, c.mid, c.rsid)))
              && c.ssrcs !! t.bySsrc.Keys
  {
    KnownMeansMentioned(t, live, c.mid);
    assert c.ssrcs !! t.bySsrc.Keys <==> !exists s :: s in c.ssrcs && s in t.bySsrc;
    if c.mid in t.byMid {
      var r :| r in live && AsksForMid(r, c.mid);
    }
    if (c.mid, c.rsid) in t.byMidAndRsid {
      var r :| r in live && AsksForBoth(r, c.mid, c.rsid);
    }
  }

  lemma {:induction false} AskingAppend(live: Live, r: Registration, p: nat)
    ensures Asking(live + [r], p) == Asking(live, p) + if p in r.criteria.payloadTypes then [r.sink] else []
  {
    if live != [] {
      AskingAppend(live[1..], r, p);
      assert (live + [r])[1..] == live[1..] + [r];
    }
  }

  lemma {:induction false} StillLiveMembers(live: Live, sink: Sink)
    ensures forall r :: r in StillLive(live, sink) <==> r in live && r.sink != sink
  {
    if live != [] {
      StillLiveMembers(live[1..], sink);
    }
  }

  lemma {:induction false} AskingStillLive(live: Live, sink: Sink, p: nat)
    ensures Asking(StillLive(live, sink), p) == Without(Asking(live, p), sink)
  {
    if live != [] {
      AskingStillLive(live[1..], sink, p);
      var rest, asking := StillLive(live[1..], sink), Asking(live[1..], p);
      assert ([live[0]] + rest)[1..] == rest && [] + rest == rest;
      assert ([live[0].sink] + asking)[1..] == asking && [] + asking == asking;
    }
  }

  lemma RegisterKeepsAgrees(t: Tables, live: Live, c: Criteria, sink: Sink)
    requires Agrees(t, live) && !Conflicts(t, c)
    ensures Agrees(Register(t, c, sink), live + [Registration(c, sink)])
  {
    var t', r' := Register(t, c, sink), Registration(c, sink);
    var live' := live + [r'];
    assert r' in live';
    assert forall r :: r in live' <==> r in live || r == r';
    RegisterKeepsMids(t, live, c, sink);
    RegisterKeepsUnshadowed(t, live, c, sink);
    RegisterKeepsPairs(t, live, c, sink);
    forall p ensures Sharing(t'.byPayloadType, p) == Asking(live', p) {
      AskingAppend(live, r', p);
    }
    forall rsid | rsid in t'.byRsid ensures exists r :: r in live' && AsksForRsid(r, rsid) && t'.byRsid[rsid] == r.sink {
      if rsid in t.byRsid {
        var r :| r in live && AsksForRsid(r, rsid) && t.byRsid[rsid] == r.sink;
      } else {
        assert AsksForRsid(r', rsid);
      }
    }
  }

  lemma RegisterKeepsMids(t: Tables, live: Live, c: Criteria, sink: Sink)
    requires Agrees(t, live) && !Conflicts(t, c)
    ensures MidsAgree(Register(t, c, sink), live + [Registration(c, sink)])
  {
    KnownKeys(t);
    hide EmplaceSsrcs, EmplacePayloadTypes, MidsOf, PairsAgree, RsidsAgree, SsrcsAgree, PayloadTypesAgree, Unshadowed;
    var t', r' := Register(t, c, sink), Registration(c, sink);
    var live' := live + [r'];
    assert r' in live';
    forall mid | mid in t'.byMid ensures exists r :: r in live' && AsksForMid(r, mid) {
      if mid in t.byMid {
        var r :| r in live && AsksForMid(r, mid);
        assert r in live';
      } else {
        assert AsksForMid(r', mid);
      }
    }
  }

  lemma RegisterKeepsUnshadowed(t: Tables, live: Live, c: Criteria, sink: Sink)
    requires Agrees(t, live) && !Conflicts(t, c)
    ensures Unshadowed(Register(t, c, sink))
  {
    KnownKeys(t);
    hide EmplaceSsrcs, EmplacePayloadTypes, MidsOf, MidsAgree, PairsAgree, RsidsAgree, SsrcsAgree, PayloadTypesAgree;
  }

  lemma KnownKeys(t: Tables)
    requires t.knownMids == MidsOf(t.byMid, t.byMidAndRsid)
    ensures forall mid | mid in t.byMid :: mid in t.knownMids
    ensures forall k | k in t.byMidAndRsid :: k.0 in t.knownMids
  {
  }

  lemma RegisterKeepsPairs(t: Tables, live: Live, c: Criteria, sink: Sink)
    requires Agrees(t, live) && !Conflicts(t, c)
    ensures PairsAgree(Register(t, c, sink), live + [Registration(c, sink)])
  {
    hide EmplaceSsrcs, EmplacePayloadTypes, MidsOf, MidsAgree, Unshadowed, RsidsAgree, SsrcsAgree, PayloadTypesAgree;
    var t', r' := Register(t, c, sink), Registration(c, sink);
    var live' := live + [r'];
    assert r' in live';
    forall k | k in t'.byMidAndRsid ensures exists r :: r in live' && AsksForBoth(r, k.0, k.1) {
      if k in t.byMidAndRsid {
        var r :| r in live && AsksForBoth(r, k.0, k.1);
        assert r in live';
      } else {
        assert AsksForBoth(r', k.0, k.1);
      }
    }
  }

  lemma RemoveKeepsAgrees(t: Tables, live: Live, sink: Sink)
    requires Agrees(t, live)
    ensures Agrees(RemoveSink(t, sink).0, StillLive(live, sink))
  {
    var t', live' := RemoveSink(t, sink).0, StillLive(live, sink);
    StillLiveMembers(live, sink);
    forall p ensures Sharing(t'.byPayloadType, p) == Asking(live', p) {
      AskingStillLive(live, sink, p);
      assert Sharing(t.byPayloadType, p) == Asking(live, p);
    }
    forall mid | mid in t'.byMid ensures exists r :: r in live' && AsksForMid(r, mid) {
      var r :| r in live && AsksForMid(r, mid);
    }
    forall k | k in t'.byMidAndRsid ensures exists r :: r in live' && AsksForBoth(r, k.0, k.1) {
      var r :| r in live && AsksForBoth(r, k.0, k.1);
    }
    forall rsid | rsid in t'.byRsid ensures exists r :: r in live' && AsksForRsid(r, rsid) && t'.byRsid[rsid] == r.sink {
      var r :| r in live && AsksForRsid(r, rsid) && t.byRsid[rsid] == r.sink;
    }
    forall s | s in t'.bySsrc ensures IsLive(live', t'.bySsrc[s]) {
      var r :| r in live && r.sink == t.bySsrc[s];
    }
  }

  lemma {:induction false} WithoutIsGone(s: seq<Sink>, sink: Sink)
    ensures sink !in Without(s, sink)
    ensures sink !in s ==> Without(s, sink) == s
  {
    if s != [] {
      WithoutIsGone(s[1..], sink);
    }
  }

  lemma WithoutAbsent<K>(m: map<K, Sink>, sink: Sink)
    ensures sink !in m.Values ==> WithoutValue(m, sink) == m
  {
    if sink !in m.Values {
      assert forall k | k in m :: m[k] in m.Values;
    }
  }

  /** A removed sink is in no table any more. */
  lemma RemovedIsUnlisted(t: Tables, sink: Sink)
    ensures !Listed(RemoveSink(t, sink).0, sink)
    ensures var (t', removed) := RemoveSink(t, sink);
            !removed ==>
              && (t'.byMid, t'.bySsrc, t'.byMidAndRsid, t'.byRsid) == (t.byMid, t.bySsrc, t.byMidAndRsid, t.byRsid)
              && forall p :: Sharing(t'.byPayloadType, p) == Sharing(t.byPayloadType, p)
  {
    forall p | p in t.byPayloadType
      ensures sink !in Without(t.byPayloadType[p], sink)
      ensures sink !in t.byPayloadType[p] ==> Without(t.byPayloadType[p], sink) == t.byPayloadType[p]
    {
      WithoutIsGone(t.byPayloadType[p], sink);
    }
    WithoutAbsent(t.byMid, sink);
    WithoutAbsent(t.bySsrc, sink);
    WithoutAbsent(t.byMidAndRsid, sink);
    WithoutAbsent(t.byRsid, sink);
    hide Without, MidsOf;
  }

  // ----- routing

  /** Packets are routed by the rules of the header: MID, then MID and RSID, then RSID, then SSRC, then payload type,
      each as the live registrations ask. */
  lemma RouteFollowsRules(t: Tables, live: Live, ssrc: nat, payloadType: nat, sink: Sink)
    requires Agrees(t, live)
    ensures var routed := Route(t, ssrc, payloadType).1 == Some(sink);
            match (Lookup(t.midOf, ssrc), Lookup(t.rsidOf, ssrc))
            case (Some(mid), None) => routed <==> exists r :: r in live && r.sink == sink && AsksForMid(r, mid)
            case (Some(mid), Some(rsid)) =>
              routed <==> exists r :: r in live && r.sink == sink && (AsksForMid(r, mid) || AsksForBoth(r, mid, rsid))
            case (None, Some(rsid)) =>
              && (rsid in t.byRsid ==>
                    (routed <==> t.byRsid[rsid] == sink) && (routed ==> exists r :: r in live && r.sink == sink && AsksForRsid(r, rsid)))
              && (rsid !in t.byRsid && ssrc in t.bySsrc ==> (routed <==> t.bySsrc[ssrc] == sink))
              && (rsid !in t.byRsid && ssrc !in t.bySsrc ==> (routed <==> Asking(live, payloadType) == [sink]))
            case (None, None) =>
              if ssrc in t.bySsrc then routed <==> t.bySsrc[ssrc] == sink
              else routed <==> Asking(live, payloadType) == [sink]
  {
    if ssrc in t.midOf {
      RouteByMid(t, live, ssrc, payloadType, sink);
    } else {
      RouteWithoutMid(t, live, ssrc, payloadType, sink);
    }
    hide Route, Agrees, Asking;
  }

  lemma RouteByMid(t: Tables, live: Live, ssrc: nat, payloadType: nat, sink: Sink)
    requires Agrees(t, live) && ssrc in t.midOf
    ensures Route(t, ssrc, payloadType).1 == Some(sink) <==>
              exists r :: r in live && r.sink == sink &&
                (AsksForMid(r, t.midOf[ssrc]) || (ssrc in t.rsidOf && AsksForBoth(r, t.midOf[ssrc], t.rsidOf[ssrc])))
  {
    hide Bind, MidsOf, SsrcsAgree, RsidsAgree, Asking, Sharing, PayloadTypesAgree;
    var mid := t.midOf[ssrc];
    if mid in t.byMid {
      var r :| r in live && AsksForMid(r, mid);
    } else if ssrc in t.rsidOf && (mid, t.rsidOf[ssrc]) in t.byMidAndRsid {
      var r :| r in live && AsksForBoth(r, mid, t.rsidOf[ssrc]);
    }
  }

  lemma RouteWithoutMid(t: Tables, live: Live, ssrc: nat, payloadType: nat, sink: Sink)
    requires Agrees(t, live) && ssrc !in t.midOf
    ensures var routed := Route(t, ssrc, payloadType).1 == Some(sink);
            if ssrc in t.rsidOf && t.rsidOf[ssrc] in t.byRsid then
              var rsid := t.rsidOf[ssrc];
              && (routed <==> t.byRsid[rsid] == sink)
              && (routed ==> exists r :: r in live && r.sink == sink && AsksForRsid(r, rsid))
            else if ssrc in t.bySsrc then routed <==> t.bySsrc[ssrc] == sink
            else routed <==> Asking(live, payloadType) == [sink]
  {
    assert Sharing(t.byPayloadType, payloadType) == Asking(live, payloadType);
    assert RsidsAgree(t, live);
    hide Bind, Agrees, SsrcsAgree, Asking, Sharing, AsksForRsid;
  }

  lemma {:induction false} AskingIsLive(live: Live, payloadType: nat, sink: Sink)
    ensures sink in Asking(live, payloadType) ==> IsLive(live, sink)
  {
    if live != [] {
      AskingIsLive(live[1..], payloadType, sink);
      if IsLive(live[1..], sink) {
        var r :| r in live[1..] && r.sink == sink;
        assert r in live;
      }
    }
  }

  /** The sink that the latched ids or the binding of an SSRC lead to, whatever the payload type. */
  function Anchor(t: Tables, ssrc: nat): Option<Sink> {
    var mid, rsid := Lookup(t.midOf, ssrc), Lookup(t.rsidOf, ssrc);
    if mid.Some? then
      if mid.value in t.byMid then Some(t.byMid[mid.value])
      else if rsid.Some? then Lookup(t.byMidAndRsid, (mid.value, rsid.value))
      else None
    else if rsid.Some? && rsid.value in t.byRsid then Some(t.byRsid[rsid.value])
    else Lookup(t.bySsrc, ssrc)
  }

  /** The payload type only matters where nothing else leads to a sink. */
  lemma RouteByAnchor(t: Tables, ssrc: nat, payloadType: nat)
    ensures var (t', sink) := Route(t, ssrc, payloadType);
            && sink == (if Anchor(t, ssrc).Some? then Anchor(t, ssrc)
                        else if ssrc in t.midOf then None
                        else SinkByPayloadType(t, payloadType))
            && (if sink.Some? then t' == Bind(t, ssrc, sink.value) || (t' == t && Lookup(t.bySsrc, ssrc) == sink) else t' == t)
  {
    hide Bind, SinkByPayloadType;
  }

  lemma BindKeepsAgrees(t: Tables, live: Live, ssrc: nat, sink: Sink)
    requires Agrees(t, live) && IsLive(live, sink)
    ensures Agrees(Bind(t, ssrc, sink), live)
  {
    hide IsLive, AsksForMid, AsksForBoth, AsksForRsid, Sharing, MidsOf;
  }

  lemma RouteKeepsAgrees(t: Tables, live: Live, ssrc: nat, payloadType: nat)
    requires Agrees(t, live)
    ensures var (t', sink) := Route(t, ssrc, payloadType);
            Agrees(t', live) && (sink.Some? ==> IsLive(live, sink.value))
  {
    var sink := Route(t, ssrc, payloadType).1;
    RouteByAnchor(t, ssrc, payloadType);
    if sink.Some? {
      RoutedIsLive(t, live, ssrc, payloadType);
      BindKeepsAgrees(t, live, ssrc, sink.value);
      hide *;
    }
  }

  lemma RoutedIsLive(t: Tables, live: Live, ssrc: nat, payloadType: nat)
    requires Agrees(t, live) && Route(t, ssrc, payloadType).1.Some?
    ensures IsLive(live, Route(t, ssrc, payloadType).1.value)
  {
    var sink := Route(t, ssrc, payloadType).1.value;
    RouteFollowsRules(t, live, ssrc, payloadType, sink);
    AskingIsLive(live, payloadType, sink);
    hide Route, MidsAgree, PairsAgree, Unshadowed, RsidsAgree, PayloadTypesAgree, Asking, Sharing, MidsOf;
  }

  lemma ReceiveKeepsAgrees(t: Tables, live: Live, p: Packet, useMid: bool)
    requires Agrees(t, live)
    ensures var (t', sink) := ResolveSink(t, p, useMid);
            Agrees(t', live) && (sink.Some? ==> IsLive(live, sink.value))
  {
    if !UnknownMid(t, p, useMid) {
      assert Agrees(Learn(t, p, useMid), live);
      RouteKeepsAgrees(Learn(t, p, useMid), live, p.ssrc, p.payloadType);
    }
  }

  // ----- every run

  datatype Op = Add(criteria: Criteria, sink: Sink) | Remove(sink: Sink) | Receive(packet: Packet)

  function Step(t: Tables, op: Op, useMid: bool): Tables {
    match op
    case Add(c, sink) => AddSink(t, c, sink).0
    case Remove(sink) => RemoveSink(t, sink).0
    case Receive(p) => ResolveSink(t, p, useMid).0
  }

  /** The tables of a new demuxer after a run. */
  function After(ops: seq<Op>, useMid: bool): Tables {
    if ops == [] then EMPTY
    else var k := |ops| - 1; Step(After(ops[..k], useMid), ops[k], useMid)
  }

  /** Operation `i` of the run registered the sink. */
  predicate AcceptedAt(ops: seq<Op>, i: nat, sink: Sink, useMid: bool)
    requires i < |ops|
  {
    ops[i].Add? && ops[i].sink == sink && AddSink(After(ops[..i], useMid), ops[i].criteria, sink).1
  }

  /** Accepted by operation `i` and not removed since. */
  ghost predicate ActiveSince(ops: seq<Op>, i: nat, sink: Sink, useMid: bool) {
    i < |ops| && AcceptedAt(ops, i, sink, useMid) && forall j | i < j < |ops| :: ops[j] != Remove(sink)
  }

  /** The sink has been accepted and not removed since. */
  ghost predicate Active(ops: seq<Op>, sink: Sink, useMid: bool) {
    exists i: nat :: ActiveSince(ops, i, sink, useMid)
  }

  function LiveAfter(ops: seq<Op>, useMid: bool): Live {
    if ops == [] then []
    else
      var k := |ops| - 1;
      var live := LiveAfter(ops[..k], useMid);
      match ops[k]
      case Add(c, sink) =>
        if AddSink(After(ops[..k], useMid), c, sink).1 then live + [Registration(c, sink)] else live
      case Remove(sink) => StillLive(live, sink)
      case Receive(_) => live
  }

  lemma ActiveSinceStep(ops: seq<Op>, i: nat, sink: Sink, useMid: bool)
    requires i + 1 < |ops|
    ensures var k := |ops| - 1;
            ActiveSince(ops, i, sink, useMid) <==> ActiveSince(ops[..k], i, sink, useMid) && ops[k] != Remove(sink)
  {
    hide AcceptedAt;
    AcceptedInPrefix(ops, i, sink, useMid);
    var before := ops[..|ops| - 1];
    assert forall j | i < j < |before| :: before[j] == ops[j];
  }

  lemma AcceptedInPrefix(ops: seq<Op>, i: nat, sink: Sink, useMid: bool)
    requires i + 1 < |ops|
    ensures AcceptedAt(ops[..|ops| - 1], i, sink, useMid) <==> AcceptedAt(ops, i, sink, useMid)
  {
    hide After, AddSink;
    assert ops[..|ops| - 1][..i] == ops[..i];
  }

  lemma ActiveStep(ops: seq<Op>, sink: Sink, useMid: bool)
    requires ops != []
    ensures var k := |ops| - 1;
            Active(ops, sink, useMid) <==>
              AcceptedAt(ops, k, sink, useMid) || (Active(ops[..k], sink, useMid) && ops[k] != Remove(sink))
  {
    var k := |ops| - 1;
    forall i: nat | i < k
      ensures ActiveSince(ops, i, sink, useMid) <==> ActiveSince(ops[..k], i, sink, useMid) && ops[k] != Remove(sink)
    {
      ActiveSinceStep(ops, i, sink, useMid);
    }
    assert ActiveSince(ops, k, sink, useMid) <==> AcceptedAt(ops, k, sink, useMid);
    hide AcceptedAt;
  }

  lemma IsLiveAppend(live: Live, r: Registration, sink: Sink)
    ensures IsLive(live + [r], sink) <==> IsLive(live, sink) || r.sink == sink
  {
    if IsLive(live, sink) {
      var q :| q in live && q.sink == sink;
      assert q in live + [r];
    }
    assert r in live + [r];
  }

  /** The live registrations are those of the sinks accepted and not removed since. */
  lemma {:induction false} LiveIsActive(ops: seq<Op>, sink: Sink, useMid: bool)
    ensures IsLive(LiveAfter(ops, useMid), sink) <==> Active(ops, sink, useMid)
  {
    if ops != [] {
      var k := |ops| - 1;
      LiveIsActive(ops[..k], sink, useMid);
      ActiveStep(ops, sink, useMid);
      var live := LiveAfter(ops[..k], useMid);
      match ops[k]
      case Add(c, added) => IsLiveAppend(live, Registration(c, added), sink);
      case Remove(gone) => StillLiveMembers(live, gone);
      case Receive(_) =>
    }
  }

  /** Over every run the tables say exactly what the live registrations ask for. */
  lemma {:induction false} RunKeepsAgrees(ops: seq<Op>, useMid: bool)
    ensures Agrees(After(ops, useMid), LiveAfter(ops, useMid))
  {
    if ops != [] {
      var k := |ops| - 1;
      RunKeepsAgrees(ops[..k], useMid);
      var t, live := After(ops[..k], useMid), LiveAfter(ops[..k], useMid);
      match ops[k]
      case Add(c, sink) =>
        if !Conflicts(t, c) {
          RegisterKeepsAgrees(t, live, c, sink);
        }
      case Remove(sink) => RemoveKeepsAgrees(t, live, sink);
      case Receive(p) => ReceiveKeepsAgrees(t, live, p, useMid);
    }
  }

  /** After every run a packet only goes to a sink that was accepted and has not been removed since. */
  lemma RunRoutesToActive(ops: seq<Op>, p: Packet, useMid: bool, sink: Sink)
    ensures ResolveSink(After(ops, useMid), p, useMid).1 == Some(sink) ==> Active(ops, sink, useMid)
  {
    RunKeepsAgrees(ops, useMid);
    ReceiveKeepsAgrees(After(ops, useMid), LiveAfter(ops, useMid), p, useMid);
    LiveIsActive(ops, sink, useMid);
  }

  // ----- who holds an RSID or an SSRC

  /** What an entry of the two tables that packets without a MID are routed by stands for. */
  datatype Key = ByRsid(rsid: string) | BySsrc(ssrc: nat)

  function Holder(t: Tables, key: Key): Option<Sink> {
    match key
    case ByRsid(rsid) => Lookup(t.byRsid, rsid)
    case BySsrc(ssrc) => Lookup(t.bySsrc, ssrc)
  }

  /** The operation claims the key for the sink: an accepted registration for the SSRC, or for the RSID alone while
      nobody holds it; or a packet of the SSRC that goes to the sink while the binding table has room. */
  predicate Claims(t: Tables, op: Op, key: Key, sink: Sink, useMid: bool) {
    match op
    case Add(c, added) =>
      && added == sink && AddSink(t, c, added).1
      && (match key
          case ByRsid(rsid) => c.mid == "" && c.rsid == rsid && rsid != "" && rsid !in t.byRsid
          case BySsrc(ssrc) => ssrc in c.ssrcs)
    case Remove(_) => false
    case Receive(p) =>
      key == BySsrc(p.ssrc) && ResolveSink(t, p, useMid).1 == Some(sink) && |t.bySsrc| < MAX_SSRC_BINDINGS
  }

  /** Claimed for the sink by operation `i`, and since then neither the sink removed nor the key claimed for another. */
  ghost predicate HeldSince(ops: seq<Op>, i: nat, key: Key, sink: Sink, useMid: bool) {
    && i < |ops| && Claims(After(ops[..i], useMid), ops[i], key, sink, useMid)
    && forall j: nat | i < j < |ops| :: LeavesHeld(ops, j, key, sink, useMid)
  }

  ghost predicate LeavesHeld(ops: seq<Op>, j: nat, key: Key, sink: Sink, useMid: bool)
    requires j < |ops|
  {
    && ops[j] != Remove(sink)
    && forall other | Claims(After(ops[..j], useMid), ops[j], key, other, useMid) :: other == sink
  }

  ghost predicate Holds(ops: seq<Op>, key: Key, sink: Sink, useMid: bool) {
    exists i: nat :: HeldSince(ops, i, key, sink, useMid)
  }

  lemma RegisterHolder(t: Tables, c: Criteria, added: Sink, key: Key, sink: Sink, useMid: bool)
    ensures Holder(AddSink(t, c, added).0, key) == Some(sink) <==>
              || Claims(t, Add(c, added), key, sink, useMid)
              || (Holder(t, key) == Some(sink) && forall other | Claims(t, Add(c, added), key, other, useMid) :: other == sink)
  {
    hide EmplacePayloadTypes, MidsOf;
  }

  lemma ReceiveHolder(t: Tables, p: Packet, key: Key, sink: Sink, useMid: bool)
    ensures Holder(ResolveSink(t, p, useMid).0, key) == Some(sink) <==>
              || Claims(t, Receive(p), key, sink, useMid)
              || (Holder(t, key) == Some(sink) && forall other | Claims(t, Receive(p), key, other, useMid) :: other == sink)
  {
    var (t', routed) := ResolveSink(t, p, useMid);
    ResolveBinds(t, p, useMid);
    hide ResolveSink;
    if routed.Some? && key == BySsrc(p.ssrc) && |t.bySsrc| < MAX_SSRC_BINDINGS {
      assert Claims(t, Receive(p), key, routed.value, useMid);
      assert Holder(t', key) == routed;
    } else {
      assert Holder(t', key) == Holder(t, key);
      assert forall other :: !Claims(t, Receive(p), key, other, useMid);
    }
  }

  lemma LearnKeepsTables(t: Tables, p: Packet, useMid: bool)
    ensures SameRegistrations(t, Learn(t, p, useMid)) && Learn(t, p, useMid).bySsrc == t.bySsrc
  {
  }

  /** A routed packet binds its SSRC while there is room, and nothing else changes the two tables. */
  lemma ResolveBinds(t: Tables, p: Packet, useMid: bool)
    ensures var (t', routed) := ResolveSink(t, p, useMid);
            && SameRegistrations(t, t')
            && t'.bySsrc == if routed.Some? && |t.bySsrc| < MAX_SSRC_BINDINGS then t.bySsrc[p.ssrc := routed.value] else t.bySsrc
  {
    LearnKeepsTables(t, p, useMid);
    if !UnknownMid(t, p, useMid) {
      RouteByAnchor(Learn(t, p, useMid), p.ssrc, p.payloadType);
      hide Learn, Route, Anchor, SinkByPayloadType, UnknownMid;
    }
  }

  lemma StepHolder(t: Tables, op: Op, key: Key, sink: Sink, useMid: bool)
    ensures Holder(Step(t, op, useMid), key) == Some(sink) <==>
              || Claims(t, op, key, sink, useMid)
              || (&& Holder(t, key) == Some(sink) && op != Remove(sink)
                  && forall other | Claims(t, op, key, other, useMid) :: other == sink)
  {
    match op
    case Add(c, added) => RegisterHolder(t, c, added, key, sink, useMid);
    case Remove(gone) => hide MidsOf, WithoutShared, Listed;
    case Receive(p) => ReceiveHolder(t, p, key, sink, useMid);
  }

  lemma HoldsStep(ops: seq<Op>, key: Key, sink: Sink, useMid: bool)
    requires ops != []
    ensures var k := |ops| - 1;
            Holds(ops, key, sink, useMid) <==>
              || Claims(After(ops[..k], useMid), ops[k], key, sink, useMid)
              || (Holds(ops[..k], key, sink, useMid) && LeavesHeld(ops, k, key, sink, useMid))
  {
    hide Claims, After;
    var k := |ops| - 1;
    forall i: nat | i < k
      ensures HeldSince(ops, i, key, sink, useMid) <==>
                HeldSince(ops[..k], i, key, sink, useMid) && LeavesHeld(ops, k, key, sink, useMid)
    {
      assert ops[..k][..i] == ops[..i];
      forall j: nat | j < k
        ensures LeavesHeld(ops[..k], j, key, sink, useMid) <==> LeavesHeld(ops, j, key, sink, useMid)
      {
        assert ops[..k][..j] == ops[..j];
      }
    }
    assert HeldSince(ops, k, key, sink, useMid) <==> Claims(After(ops[..k], useMid), ops[k], key, sink, useMid);
  }

  /** After every run an RSID or SSRC is bound to the sink it was last claimed for, unless that has been removed. */
  lemma {:induction false} HolderIsLatest(ops: seq<Op>, key: Key, sink: Sink, useMid: bool)
    ensures Holder(After(ops, useMid), key) == Some(sink) <==> Holds(ops, key, sink, useMid)
  {
    if ops != [] {
      var k := |ops| - 1;
      HolderIsLatest(ops[..k], key, sink, useMid);
      HoldsStep(ops, key, sink, useMid);
      StepHolder(After(ops[..k], useMid), ops[k], key, sink, useMid);
    }
  }

  ghost predicate IsHeld(ops: seq<Op>, key: Key, useMid: bool) {
    exists sink :: Holds(ops, key, sink, useMid)
  }

  // ----- where a packet goes

  /** The packet carries a MID that no live registration mentions; such a packet is turned away. */
  ghost predicate TurnedAway(live: Live, p: Packet, useMid: bool) {
    MediaId(p, useMid).Some? && forall r | r in live :: !Mentions(r, MediaId(p, useMid).value)
  }

  /** The MID last carried by a packet of the SSRC that was not turned away. */
  ghost function LastMid(ops: seq<Op>, ssrc: nat, useMid: bool): Option<string> {
    if ops == [] then None
    else
      var k := |ops| - 1;
      if && ops[k].Receive? && ops[k].packet.ssrc == ssrc && MediaId(ops[k].packet, useMid).Some?
         && !TurnedAway(LiveAfter(ops[..k], useMid), ops[k].packet, useMid)
      then MediaId(ops[k].packet, useMid)
      else LastMid(ops[..k], ssrc, useMid)
  }

  /** The stream id last carried by a packet of the SSRC that was not turned away. */
  ghost function LastRsid(ops: seq<Op>, ssrc: nat, useMid: bool): Option<string> {
    if ops == [] then None
    else
      var k := |ops| - 1;
      if && ops[k].Receive? && ops[k].packet.ssrc == ssrc && StreamId(ops[k].packet).Some?
         && !TurnedAway(LiveAfter(ops[..k], useMid), ops[k].packet, useMid)
      then StreamId(ops[k].packet)
      else LastRsid(ops[..k], ssrc, useMid)
  }

  lemma TurnedAwayIffUnknown(t: Tables, live: Live, p: Packet, useMid: bool)
    requires Agrees(t, live)
    ensures UnknownMid(t, p, useMid) <==> TurnedAway(live, p, useMid)
  {
    hide Agrees, Mentions;
    if MediaId(p, useMid).Some? {
      KnownMeansMentioned(t, live, MediaId(p, useMid).value);
    }
  }

  function OrElse(carried: Option<string>, latched: Option<string>): Option<string> {
    if carried.Some? then carried else latched
  }

  /** Only packets that are not turned away touch the latched ids, by what they carry. */
  lemma StepLatches(t: Tables, op: Op, ssrc: nat, useMid: bool)
    ensures var t' := Step(t, op, useMid);
            if op.Receive? && op.packet.ssrc == ssrc && !UnknownMid(t, op.packet, useMid) then
              && Lookup(t'.midOf, ssrc) == OrElse(MediaId(op.packet, useMid), Lookup(t.midOf, ssrc))
              && Lookup(t'.rsidOf, ssrc) == OrElse(StreamId(op.packet), Lookup(t.rsidOf, ssrc))
            else Lookup(t'.midOf, ssrc) == Lookup(t.midOf, ssrc) && Lookup(t'.rsidOf, ssrc) == Lookup(t.rsidOf, ssrc)
  {
    match op
    case Add(c, sink) => hide MidsOf, Conflicts, Lookup, UnknownMid, EmplaceSsrcs, EmplacePayloadTypes;
    case Remove(sink) => hide MidsOf, WithoutShared, Listed, Lookup, UnknownMid, WithoutValue;
    case Receive(p) =>
      RoutingKeepsLatched(Learn(t, p, useMid), p.ssrc, p.payloadType);
      LearnedIds(t, p, useMid);
      hide MediaId, StreamId, Route, UnknownMid, OrElse, Lookup;
      LearnsForOne(t, p, ssrc, useMid);
  }

  lemma RoutingKeepsLatched(t: Tables, ssrc: nat, payloadType: nat)
    ensures var t' := Route(t, ssrc, payloadType).0; t'.midOf == t.midOf && t'.rsidOf == t.rsidOf
  {
    RouteByAnchor(t, ssrc, payloadType);
    hide Route, Anchor;
  }

  lemma LearnsForOne(t: Tables, p: Packet, ssrc: nat, useMid: bool)
    ensures var learned := Learn(t, p, useMid);
            ssrc != p.ssrc ==> Lookup(learned.midOf, ssrc) == Lookup(t.midOf, ssrc) && Lookup(learned.rsidOf, ssrc) == Lookup(t.rsidOf, ssrc)
  {
  }

  /** After every run the ids latched for an SSRC are those its packets last carried. */
  lemma {:induction false} LatchedIsLast(ops: seq<Op>, ssrc: nat, useMid: bool)
    ensures Lookup(After(ops, useMid).midOf, ssrc) == LastMid(ops, ssrc, useMid)
    ensures Lookup(After(ops, useMid).rsidOf, ssrc) == LastRsid(ops, ssrc, useMid)
  {
    if ops != [] {
      var k := |ops| - 1;
      LatchedIsLast(ops[..k], ssrc, useMid);
      StepLatches(After(ops[..k], useMid), ops[k], ssrc, useMid);
      RunKeepsAgrees(ops[..k], useMid);
      hide Agrees, UnknownMid, TurnedAway, Step, MediaId, StreamId;
      if ops[k].Receive? {
        TurnedAwayIffUnknown(After(ops[..k], useMid), LiveAfter(ops[..k], useMid), ops[k].packet, useMid);
      }
    }
  }

  /** The registration asks for the MID alone, or for it together with the RSID. */
  predicate AsksForIds(r: Registration, mid: string, rsid: Option<string>) {
    AsksForMid(r, mid) || (rsid.Some? && AsksForBoth(r, mid, rsid.value))
  }

  ghost predicate GoesWithoutMid(ops: seq<Op>, live: Live, p: Packet, rsid: Option<string>, sink: Sink, useMid: bool) {
    if rsid.Some? && IsHeld(ops, ByRsid(rsid.value), useMid) then Holds(ops, ByRsid(rsid.value), sink, useMid)
    else if IsHeld(ops, BySsrc(p.ssrc), useMid) then Holds(ops, BySsrc(p.ssrc), sink, useMid)
    else Asking(live, p.payloadType) == [sink]
  }

  /** After every run any packet is routed by what the run did. One whose MID no live registration mentions goes
      nowhere. Else its ids are those it carries, or those last carried by a packet of its SSRC; with a MID it goes as the
      live registrations for it ask; with an RSID, to the sink that holds the RSID; else to the sink that holds its SSRC;
      and else to the only sink asking for its payload type. */
  lemma RouteFollowsHistory(ops: seq<Op>, p: Packet, sink: Sink, useMid: bool)
    ensures var live := LiveAfter(ops, useMid);
            var routed := ResolveSink(After(ops, useMid), p, useMid).1 == Some(sink);
            if TurnedAway(live, p, useMid) then !routed
            else
              var mid, rsid := OrElse(MediaId(p, useMid), LastMid(ops, p.ssrc, useMid)), OrElse(StreamId(p), LastRsid(ops, p.ssrc, useMid));
              routed <==>
                if mid.Some? then exists r :: r in live && r.sink == sink && AsksForIds(r, mid.value, rsid)
                else GoesWithoutMid(ops, live, p, rsid, sink, useMid)
  {
    var t, live := After(ops, useMid), LiveAfter(ops, useMid);
    hide Agrees, Route, Asking, After, LiveAfter, Learn, MediaId, StreamId, TurnedAway, UnknownMid, Holder, Lookup;
    RunKeepsAgrees(ops, useMid);
    TurnedAwayIffUnknown(t, live, p, useMid);
    if !UnknownMid(t, p, useMid) {
      LearnedIds(t, p, useMid);
      LearnKeepsAgrees(t, live, p, useMid);
      LatchedIsLast(ops, p.ssrc, useMid);
      LearnKeepsTables(t, p, useMid);
      HolderIsLatest(ops, BySsrc(p.ssrc), sink, useMid);
      HeldIffBound(ops, BySsrc(p.ssrc), useMid);
      var rsid := OrElse(StreamId(p), LastRsid(ops, p.ssrc, useMid));
      if rsid.Some? {
        HolderIsLatest(ops, ByRsid(rsid.value), sink, useMid);
        HeldIffBound(ops, ByRsid(rsid.value), useMid);
      }
      RouteByHolders(Learn(t, p, useMid), live, p.ssrc, p.payloadType, sink);
      SameHolders(t, Learn(t, p, useMid));
    }
  }

  lemma SameHolders(t: Tables, t': Tables)
    requires SameRegistrations(t, t') && t'.bySsrc == t.bySsrc
    ensures forall key :: Holder(t', key) == Holder(t, key)
  {
  }

  /** The routing rules, with the holders of RSID and SSRC. */
  lemma RouteByHolders(t: Tables, live: Live, ssrc: nat, payloadType: nat, sink: Sink)
    requires Agrees(t, live)
    ensures var routed := Route(t, ssrc, payloadType).1 == Some(sink);
            var mid, rsid := Lookup(t.midOf, ssrc), Lookup(t.rsidOf, ssrc);
            routed <==>
              if mid.Some? then exists r :: r in live && r.sink == sink && AsksForIds(r, mid.value, rsid)
              else if rsid.Some? && Holder(t, ByRsid(rsid.value)).Some? then Holder(t, ByRsid(rsid.value)) == Some(sink)
              else if Holder(t, BySsrc(ssrc)).Some? then Holder(t, BySsrc(ssrc)) == Some(sink)
              else Asking(live, payloadType) == [sink]
  {
    RouteFollowsRules(t, live, ssrc, payloadType, sink);
    hide Agrees, Route, Asking, AsksForMid, AsksForBoth;
  }

  lemma LearnedIds(t: Tables, p: Packet, useMid: bool)
    ensures var learned := Learn(t, p, useMid);
            && Lookup(learned.midOf, p.ssrc) == OrElse(MediaId(p, useMid), Lookup(t.midOf, p.ssrc))
            && Lookup(learned.rsidOf, p.ssrc) == OrElse(StreamId(p), Lookup(t.rsidOf, p.ssrc))
  {
  }

  lemma LearnKeepsAgrees(t: Tables, live: Live, p: Packet, useMid: bool)
    requires Agrees(t, live)
    ensures Agrees(Learn(t, p, useMid), live)
  {
  }

  lemma HeldIffBound(ops: seq<Op>, key: Key, useMid: bool)
    ensures IsHeld(ops, key, useMid) <==> Holder(After(ops, useMid), key).Some?
  {
    hide After, Holds, Holder;
    forall sink: Sink ensures Holder(After(ops, useMid), key) == Some(sink) <==> Holds(ops, key, sink, useMid) {
      HolderIsLatest(ops, key, sink, useMid);
    }
    if Holder(After(ops, useMid), key).Some? {
      assert Holds(ops, key, Holder(After(ops, useMid), key).value, useMid);
    }
  }

  // ----- learned bindings

  function ReceiveAll(t: Tables, packets: seq<Packet>, useMid: bool): Tables
    decreases |packets|
  {
    if packets == [] then t else ReceiveAll(ResolveSink(t, packets[0], useMid).0, packets[1..], useMid)
  }

  /** The tables that only registration and removal may change. */
  ghost predicate SameRegistrations(t: Tables, t': Tables) {
    && t'.byMid == t.byMid && t'.byMidAndRsid == t.byMidAndRsid && t'.byRsid == t.byRsid
    && t'.byPayloadType == t.byPayloadType && t'.knownMids == t.knownMids
  }

  /** Reception never grows the SSRC table past the cap, nor the other tables at all. */
  lemma {:induction false} ReceptionIsBounded(t: Tables, packets: seq<Packet>, useMid: bool)
    ensures var t' := ReceiveAll(t, packets, useMid);
            && |t'.bySsrc| <= (if |t.bySsrc| > MAX_SSRC_BINDINGS then |t.bySsrc| else MAX_SSRC_BINDINGS)
            && t.bySsrc.Keys <= t'.bySsrc.Keys
            && SameRegistrations(t, t')
    decreases |packets|
  {
    if packets != [] {
      BindIsBounded(t, packets[0], useMid);
      ReceptionIsBounded(ResolveSink(t, packets[0], useMid).0, packets[1..], useMid);
    }
  }

  lemma BindIsBounded(t: Tables, p: Packet, useMid: bool)
    ensures var t' := ResolveSink(t, p, useMid).0;
            && |t'.bySsrc| <= (if |t.bySsrc| > MAX_SSRC_BINDINGS then |t.bySsrc| else MAX_SSRC_BINDINGS)
            && t.bySsrc.Keys <= t'.bySsrc.Keys
            && SameRegistrations(t, t')
  {
    ResolveBinds(t, p, useMid);
    var (t', routed) := ResolveSink(t, p, useMid);
    hide ResolveSink;
    if routed.Some? {
      UpdateGrowsByOne(t.bySsrc, p.ssrc, routed.value);
    }
  }

  lemma UpdateGrowsByOne(m: map<nat, Sink>, k: nat, v: Sink)
    ensures |m[k := v]| <= |m| + 1 && m.Keys <= m[k := v].Keys
  {
    assert m[k := v].Keys == m.Keys + {k};
  }

  /** Only its payload type can route the SSRC, and no binding can be learned for it. */
  predicate Unbindable(t: Tables, ssrc: nat) {
    ssrc !in t.midOf && Anchor(t, ssrc).None? && |t.bySsrc| >= MAX_SSRC_BINDINGS
  }

  /** The packet carries no id its SSRC is not known by; one with an unknown MID is dropped unread. */
  predicate CarriesNothingNew(t: Tables, ssrc: nat, p: Packet, useMid: bool) {
    p.ssrc == ssrc ==>
      || UnknownMid(t, p, useMid)
      || (&& (MediaId(p, useMid).Some? ==> MediaId(p, useMid) == Lookup(t.midOf, ssrc))
          && (StreamId(p).Some? ==> StreamId(p) == Lookup(t.rsidOf, ssrc)))
  }

  /** Nothing that decides the route of `ssrc` differs between the two tables. */
  ghost predicate SameFor(t: Tables, t': Tables, ssrc: nat) {
    && SameRegistrations(t, t')
    && Lookup(t'.midOf, ssrc) == Lookup(t.midOf, ssrc)
    && Lookup(t'.rsidOf, ssrc) == Lookup(t.rsidOf, ssrc)
    && Anchor(t', ssrc) == Anchor(t, ssrc)
    && (Unbindable(t, ssrc) ==> Unbindable(t', ssrc))
  }

  lemma {:induction false} StaysSame(t: Tables, ssrc: nat, packets: seq<Packet>, useMid: bool)
    requires Anchor(t, ssrc).Some? || Unbindable(t, ssrc)
    requires forall p | p in packets :: CarriesNothingNew(t, ssrc, p, useMid)
    ensures SameFor(t, ReceiveAll(t, packets, useMid), ssrc)
    decreases |packets|
  {
    if packets != [] {
      var t1 := ResolveSink(t, packets[0], useMid).0;
      assert CarriesNothingNew(t, ssrc, packets[0], useMid);
      OneStaysSame(t, ssrc, packets[0], useMid);
      hide ResolveSink, Anchor, Lookup;
      forall p | p in packets[1..] ensures CarriesNothingNew(t1, ssrc, p, useMid) {
        assert CarriesNothingNew(t, ssrc, p, useMid);
      }
      StaysSame(t1, ssrc, packets[1..], useMid);
    }
  }

  /** Learning ids that are known already changes nothing for the SSRC. */
  lemma LearnNothingNew(t: Tables, ssrc: nat, p: Packet, useMid: bool)
    requires CarriesNothingNew(t, ssrc, p, useMid) && !UnknownMid(t, p, useMid)
    ensures SameFor(t, Learn(t, p, useMid), ssrc) && Learn(t, p, useMid).bySsrc == t.bySsrc
  {
  }

  lemma OneStaysSame(t: Tables, ssrc: nat, p: Packet, useMid: bool)
    requires Anchor(t, ssrc).Some? || Unbindable(t, ssrc)
    requires CarriesNothingNew(t, ssrc, p, useMid)
    ensures SameFor(t, ResolveSink(t, p, useMid).0, ssrc)
  {
    if !UnknownMid(t, p, useMid) {
      LearnNothingNew(t, ssrc, p, useMid);
      var t1 := Learn(t, p, useMid);
      RouteByAnchor(t1, p.ssrc, p.payloadType);
      BindIsBounded(t, p, useMid);
      hide Learn, Route, SinkByPayloadType, UnknownMid, CarriesNothingNew;
    }
  }

  /** What routed a packet keeps routing its SSRC, unless the packet fell through to its payload type
      when the binding table was full. */
  lemma RoutedIsAnchored(t: Tables, p: Packet, useMid: bool)
    requires ResolveSink(t, p, useMid).1.Some?
    ensures var (t', sink) := ResolveSink(t, p, useMid);
            if Unbindable(Learn(t, p, useMid), p.ssrc) then Unbindable(t', p.ssrc) else Anchor(t', p.ssrc) == sink
  {
    RouteByAnchor(Learn(t, p, useMid), p.ssrc, p.payloadType);
    hide Learn, Route, SinkByPayloadType, UnknownMid;
  }

  /** Once a packet has been routed to a sink, later packets of its SSRC that carry no other id follow it, whatever
      packets arrive in between, as long as the registrations stay as they are. The exception: a packet that only its
      payload type could route, at a time when the binding table was full, leaves no trace. */
  lemma RoutingSticks(t: Tables, p: Packet, between: seq<Packet>, q: Packet, useMid: bool, sink: Sink)
    requires ResolveSink(t, p, useMid).1 == Some(sink)
    requires var t1 := ResolveSink(t, p, useMid).0;
             && (forall r | r in between :: CarriesNothingNew(t1, p.ssrc, r, useMid))
             && q.ssrc == p.ssrc && CarriesNothingNew(t1, p.ssrc, q, useMid) && !UnknownMid(t1, q, useMid)
    ensures var t2 := ReceiveAll(ResolveSink(t, p, useMid).0, between, useMid);
            ResolveSink(t2, q, useMid).1 == Some(sink) <==>
              !Unbindable(Learn(t, p, useMid), p.ssrc) || SinkByPayloadType(t, q.payloadType) == Some(sink)
  {
    var t1 := ResolveSink(t, p, useMid).0;
    RoutedIsAnchored(t, p, useMid);
    StaysSame(t1, p.ssrc, between, useMid);
    BindIsBounded(t, p, useMid);
    var t2 := ReceiveAll(t1, between, useMid);
    assert CarriesNothingNew(t2, p.ssrc, q, useMid) && !UnknownMid(t2, q, useMid);
    LearnNothingNew(t2, p.ssrc, q, useMid);
    RouteByAnchor(Learn(t2, q, useMid), p.ssrc, q.payloadType);
    hide Learn, Route, UnknownMid, CarriesNothingNew, ReceiveAll;
  }

  function FirstSsrcs(n: nat): (s: set<nat>)
    ensures |s| == n && forall ssrc | ssrc in s :: ssrc < n
  {
    if n == 0 then {} else FirstSsrcs(n - 1) + {n - 1}
  }

  lemma AddSsrcsOnly(ssrcs: set<nat>, sink: Sink)
    ensures var t := AddSink(EMPTY, Criteria("", "", ssrcs, {}), sink).0;
            t == EMPTY.(bySsrc := t.bySsrc) && t.bySsrc.Keys == ssrcs
  {
  }

  lemma AddPayloadTypeOnly(t: Tables, payloadType: nat, sink: Sink)
    requires t == EMPTY.(bySsrc := t.bySsrc)
    ensures AddSink(t, Criteria("", "", {}, {payloadType}), sink).0 == t.(byPayloadType := map[payloadType := [sink]])
  {
    assert EmplaceSsrcs(t.bySsrc, {}, sink) == t.bySsrc;
    assert [] + [sink] == [sink];
    assert EmplacePayloadTypes(map[], {payloadType}, sink) == map[payloadType := [sink]];
  }

  /** Every SSRC below `n` is bound, and one sink asks for payload type 96. */
  function BoundBelow(n: nat): (t: Tables)
    ensures |t.bySsrc| == n && forall ssrc | ssrc in t.bySsrc :: ssrc < n
    ensures t == EMPTY.(bySsrc := t.bySsrc, byPayloadType := map[96 := [2]])
  {
    var t := AddSink(EMPTY, Criteria("", "", FirstSsrcs(n), {}), 1).0;
    AddSsrcsOnly(FirstSsrcs(n), 1);
    AddPayloadTypeOnly(t, 96, 2);
    hide AddSink;
    AddSink(t, Criteria("", "", {}, {96}), 2).0
  }

  /** The exception is real: where the table is full, the second packet of an SSRC does not follow the first,
      although that one carried an RSID. */
  lemma FullTableForgets(n: nat, p: Packet, q: Packet)
    requires n >= MAX_SSRC_BINDINGS
    requires p == Packet(n, 96, None, Some("x"), None) && q == Packet(n, 97, None, None, None)
    ensures var (t, first) := ResolveSink(BoundBelow(n), p, true);
            first == Some(2) && ResolveSink(t, q, true).1 == None
  {
    var t := BoundBelow(n);
    hide BoundBelow;
    RouteByAnchor(Learn(t, p, true), n, 96);
    RouteByAnchor(ResolveSink(t, p, true).0, n, 97);
  }

  /** A packet only goes to a sink that is in a table. */
  lemma RoutedIsListed(t: Tables, p: Packet, useMid: bool, sink: Sink)
    requires ResolveSink(t, p, useMid).1 == Some(sink)
    ensures Listed(t, sink)
  {
    hide Bind, Learn;
    LearnKeepsTables(t, p, useMid);
    if SinkByPayloadType(t, p.payloadType) == Some(sink) {
      assert sink in t.byPayloadType[p.payloadType];
    }
  }

  /** No packets make a sink that is in no table appear in one. */
  lemma {:induction false} UnlistedStaysUnlisted(t: Tables, packets: seq<Packet>, useMid: bool, sink: Sink)
    requires !Listed(t, sink)
    ensures !Listed(ReceiveAll(t, packets, useMid), sink)
    decreases |packets|
  {
    if packets != [] {
      OneStaysUnlisted(t, packets[0], useMid, sink);
      UnlistedStaysUnlisted(ResolveSink(t, packets[0], useMid).0, packets[1..], useMid, sink);
    }
  }

  lemma OneStaysUnlisted(t: Tables, p: Packet, useMid: bool, sink: Sink)
    requires !Listed(t, sink)
    ensures !Listed(ResolveSink(t, p, useMid).0, sink)
  {
    var (t', routed) := ResolveSink(t, p, useMid);
    BindIsBounded(t, p, useMid);
    forall s | s in t'.bySsrc ensures t'.bySsrc[s] != sink {
      ReceiveHolder(t, p, BySsrc(s), sink, useMid);
      if routed == Some(sink) {
        RoutedIsListed(t, p, useMid, sink);
      }
      assert Lookup(t.bySsrc, s) == Some(sink) ==> sink in t.bySsrc.Values;
    }
  }

  /** A second sink that asks for an RSID only is accepted, but never gets a packet, not even once the first is gone. */
  lemma SecondRsidSinkIsShadowed(t: Tables, rsid: string, second: Sink, packets: seq<Packet>, p: Packet, useMid: bool)
    requires rsid != "" && rsid in t.byRsid && !Listed(t, second)
    ensures var (t', added) := AddSink(t, Criteria("", rsid, {}, {}), second);
            && added
            && ResolveSink(ReceiveAll(t', packets, useMid), p, useMid).1 != Some(second)
            && ResolveSink(ReceiveAll(RemoveSink(t', t.byRsid[rsid]).0, packets, useMid), p, useMid).1 != Some(second)
  {
    var t' := AddSink(t, Criteria("", rsid, {}, {}), second).0;
    ShadowedIsUnlisted(t, rsid, second);
    var t'' := RemoveSink(t', t.byRsid[rsid]).0;
    hide Listed, AddSink, RemoveSink;
    UnlistedStaysUnlisted(t', packets, useMid, second);
    UnlistedStaysUnlisted(t'', packets, useMid, second);
    if ResolveSink(ReceiveAll(t', packets, useMid), p, useMid).1 == Some(second) {
      RoutedIsListed(ReceiveAll(t', packets, useMid), p, useMid, second);
    }
    if ResolveSink(ReceiveAll(t'', packets, useMid), p, useMid).1 == Some(second) {
      RoutedIsListed(ReceiveAll(t'', packets, useMid), p, useMid, second);
    }
  }

  lemma ShadowedIsUnlisted(t: Tables, rsid: string, second: Sink)
    requires rsid != "" && rsid in t.byRsid && !Listed(t, second)
    ensures var (t', added) := AddSink(t, Criteria("", rsid, {}, {}), second);
            added && !Listed(t', second) && !Listed(RemoveSink(t', t.byRsid[rsid]).0, second)
  {
    var t' := AddSink(t, Criteria("", rsid, {}, {}), second).0;
    assert EmplaceSsrcs(t.bySsrc, {}, second) == t.bySsrc;
    assert EmplacePayloadTypes(t.byPayloadType, {}, second) == t.byPayloadType;
    hide MidsOf;
    RemovalKeepsUnlisted(t', t.byRsid[rsid], second);
  }

  lemma RemovalKeepsUnlisted(t: Tables, gone: Sink, sink: Sink)
    requires !Listed(t, sink)
    ensures !Listed(RemoveSink(t, gone).0, sink)
  {
    hide MidsOf;
    var t' := RemoveSink(t, gone).0;
    forall p | p in t'.byPayloadType ensures sink !in t'.byPayloadType[p] {
      WithoutIsPart(t.byPayloadType[p], gone, sink);
    }
    ValuesShrink(t.byMid, gone, sink);
    ValuesShrink(t.bySsrc, gone, sink);
    ValuesShrink(t.byMidAndRsid, gone, sink);
    ValuesShrink(t.byRsid, gone, sink);
  }

  lemma ValuesShrink<K>(m: map<K, Sink>, gone: Sink, sink: Sink)
    requires sink !in m.Values
    ensures sink !in WithoutValue(m, gone).Values
  {
    forall k | k in WithoutValue(m, gone) ensures WithoutValue(m, gone)[k] != sink {
      assert m[k] in m.Values;
    }
  }

  lemma {:induction false} WithoutIsPart(s: seq<Sink>, gone: Sink, sink: Sink)
    requires sink !in s
    ensures sink !in Without(s, gone)
  {
    if s != [] {
      WithoutIsPart(s[1..], gone, sink);
    }
  }
}
