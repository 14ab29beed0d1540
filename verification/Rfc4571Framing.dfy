/** The framing of RTP over TCP that GB28181 sessions read (section 2 of RFC 4571): each packet is preceded by
    its length in two bytes. */
module Rfc4571Framing {
  import opened Bytes

  type Payload = seq<Byte>

  /** The two length bytes read as a signed 16-bit number, as the session does. */
  function PayloadSize(high: Byte, low: Byte): (size: int)
    ensures -32768 <= size < 32768
  {
    var v := high * 256 + low;
    if v < 32768 then v else v - 65536
  }

  /** `astray` if the parser has come by a length of 32768 or more. It reads that as a negative size and then looks at and
      moves to what lies outside the payload; the model stays before that length. */
  datatype Drained = Drained(payloads: seq<Payload>, residue: seq<Byte>, astray: bool)

  const NOTHING := Drained([], [], false)

  /** Takes payloads off the front for as long as more than two bytes, and the whole next payload, are there. */
  function Drain(s: seq<Byte>): (d: Drained)
    ensures |d.residue| <= |s| && (!d.astray ==> |d.residue| <= 32768)
    decreases |s|
  {
    if |s| <= 2 then Drained([], s, false)
    else
      var size := PayloadSize(s[0], s[1]);
      if |s| < size + 2 then Drained([], s, false)
      else if size < 0 then Drained([], s, true)
      else Then([s[2..size + 2]], Drain(s[size + 2..]))
  }

  /** What has been drained before, followed by what is drained next. */
  function Then(payloads: seq<Payload>, d: Drained): Drained {
    d.(payloads := payloads + d.payloads)
  }

  lemma ThenThen(a: seq<Payload>, b: seq<Payload>, d: Drained)
    ensures Then(a, Then(b, d)) == Then(a + b, d)
  {
    assert a + (b + d.payloads) == (a + b) + d.payloads;
  }

  lemma EmptyThen(d: Drained)
    ensures Then([], d) == d
  {
  }

  /** One step of the parser. */
  lemma DrainStep(s: seq<Byte>)
    ensures Drain(s) ==
            if |s| <= 2 then Drained([], s, false)
            else
              var size := PayloadSize(s[0], s[1]);
              if |s| < size + 2 then Drained([], s, false)
              else if size < 0 then Drained([], s, true)
              else Then([s[2..size + 2]], Drain(s[size + 2..]))
  {
  }

  lemma PayloadOfPrefix(a: seq<Byte>, b: seq<Byte>, n: nat)
    requires 2 <= n <= |a|
    ensures (a + b)[2..n] == a[2..n] && (a + b)[n..] == a[n..] + b && (a + b)[0] == a[0] && (a + b)[1] == a[1]
  {
  }

  /** More bytes never change what has been taken already: draining in two steps is draining at once. */
  lemma {:induction false} DrainInSteps(a: seq<Byte>, b: seq<Byte>)
    ensures Drain(a + b) == Then(Drain(a).payloads, Drain(Drain(a).residue + b))
    decreases |a|
  {
    hide Drain, PayloadSize, Then;
    DrainStep(a);
    EmptyThen(Drain(a + b));
    if |a| > 2 {
      DrainStep(a + b);
      PayloadOfPrefix(a, b, 2);
      var size := PayloadSize(a[0], a[1]);
      if 0 <= size && |a| >= size + 2 {
        PayloadOfPrefix(a, b, size + 2);
        DrainInSteps(a[size + 2..], b);
        var first := [a[2..size + 2]];
        StepsCompose(first, Drain(a[size + 2..]), Drain(Drain(a[size + 2..]).residue + b));
      }
    }
  }

  lemma StepsCompose(first: seq<Payload>, d: Drained, later: Drained)
    ensures Then(first, Then(d.payloads, later)) == Then(Then(first, d).payloads, later)
    ensures Then(first, d).residue == d.residue
  {
    ThenThen(first, d.payloads, later);
  }

  // ----- every run

  /** What has come out after the reads of `chunks`, each of which continues the residue of the one before. */
  function DrainAll(d: Drained, chunks: seq<seq<Byte>>): Drained
    decreases |chunks|
  {
    if chunks == [] then d else DrainAll(Then(d.payloads, Drain(d.residue + chunks[0])), chunks[1..])
  }

  /** What a residue yields on its own: nothing. */
  predicate Undrainable(residue: seq<Byte>, astray: bool) {
    Drain(residue) == Drained([], residue, astray)
  }

  lemma {:induction false} ResidueIsUndrainable(s: seq<Byte>)
    ensures Undrainable(Drain(s).residue, Drain(s).astray)
    decreases |s|
  {
    hide PayloadSize;
    if |s| > 2 {
      var size := PayloadSize(s[0], s[1]);
      if 0 <= size && |s| >= size + 2 {
        ResidueIsUndrainable(s[size + 2..]);
      }
    }
  }

  lemma NoChunks(d: Drained)
    requires Undrainable(d.residue, d.astray)
    ensures d == Then(d.payloads, Drain(d.residue + Concat([])))
  {
    assert d.residue + Concat([]) == d.residue;
  }

  lemma ConcatStep(residue: seq<Byte>, chunks: seq<seq<Byte>>)
    requires chunks != []
    ensures residue + Concat(chunks) == (residue + chunks[0]) + Concat(chunks[1..])
  {
  }

  /** However the stream is split into reads, the same payloads come out and the same residue stays. */
  lemma {:induction false} SplitIsIrrelevant(d: Drained, chunks: seq<seq<Byte>>)
    requires Undrainable(d.residue, d.astray)
    ensures DrainAll(d, chunks) == Then(d.payloads, Drain(d.residue + Concat(chunks)))
    decreases |chunks|
  {
    hide Drain, Concat, Undrainable;
    if chunks == [] {
      NoChunks(d);
    } else {
      ConcatStep(d.residue, chunks);
      DrainInSteps(d.residue + chunks[0], Concat(chunks[1..]));
      ResidueIsUndrainable(d.residue + chunks[0]);
      var now := Drain(d.residue + chunks[0]);
      SplitIsIrrelevant(Then(d.payloads, now), chunks[1..]);
      ThenThen(d.payloads, now.payloads, Drain(now.residue + Concat(chunks[1..])));
    }
  }

  // ----- round trip

  /** What the framing can carry. */
  predicate Fits(p: Payload) {
    |p| < 65536
  }

  /** What the parser can read. */
  predicate Short(p: Payload) {
    |p| < 32768
  }

  function Frame(p: Payload): seq<Byte>
    requires Fits(p)
  {
    [|p| / 256, |p| % 256] + p
  }

  function Encode(payloads: seq<Payload>): seq<Byte>
    requires forall p | p in payloads :: Fits(p)
  {
    if payloads == [] then [] else Frame(payloads[0]) + Encode(payloads[1..])
  }

  lemma FrameHeader(p: Payload, rest: seq<Byte>)
    requires Fits(p)
    ensures var s := Frame(p) + rest;
            && |s| == 2 + |p| + |rest|
            && PayloadSize(s[0], s[1]) == (if Short(p) then |p| else |p| - 65536)
            && s[2..|p| + 2] == p && s[|p| + 2..] == rest
  {
  }

  /** What the parser makes of a sender's payloads: it goes astray at the first one that is not short, and it waits for a
      third byte, so that an empty payload at the very end stays behind. */
  function Arriving(payloads: seq<Payload>): (d: Drained)
    requires forall p | p in payloads :: Fits(p)
  {
    if payloads == [] then NOTHING
    else if payloads == [[]] then Drained([], [0, 0], false)
    else if !Short(payloads[0]) then Drained([], Encode(payloads), true)
    else Then([payloads[0]], Arriving(payloads[1..]))
  }

  lemma {:induction false} EncodeThenDrain(payloads: seq<Payload>)
    requires forall p | p in payloads :: Fits(p)
    ensures Drain(Encode(payloads)) == Arriving(payloads)
  {
    if payloads == [[]] {
      assert Encode(payloads) == [0, 0];
    } else if payloads != [] {
      var p, rest := payloads[0], payloads[1..];
      EncodeThenDrain(rest);
      FrameHeader(p, Encode(rest));
      EncodingIsLong(payloads);
      assert Encode(payloads) == Frame(p) + Encode(rest);
      hide Encode, Frame, PayloadSize, Drain;
      DrainStep(Encode(payloads));
    }
  }

  lemma EncodingIsLong(payloads: seq<Payload>)
    requires payloads != [] && payloads != [[]] && forall p | p in payloads :: Fits(p)
    ensures |Encode(payloads)| > 2
  {
    assert |payloads| > 1 ==> |Encode(payloads[1..])| >= 2;
  }

  /** Of a sender's payloads the first ones arrive, in order; all of them exactly if all are short and the last one is not
      empty. */
  lemma {:induction false} AllArriveIff(payloads: seq<Payload>)
    requires forall p | p in payloads :: Fits(p)
    ensures var d := Arriving(payloads);
            && d.payloads <= payloads
            && (d.astray <==> exists p :: p in payloads && !Short(p))
            && (d.payloads == payloads <==>
                  (forall p | p in payloads :: Short(p)) && (payloads == [] || payloads[|payloads| - 1] != []))
  {
    if payloads != [] && payloads != [[]] {
      var p, rest := payloads[0], payloads[1..];
      assert payloads == [p] + rest;
      if Short(p) {
        AllArriveIff(rest);
        assert rest == [] ==> p != [];
        assert forall q :: q in payloads <==> q == p || q in rest;
      } else {
        assert p in payloads;
      }
    }
  }

  /** Over every run of reads the first payloads of a sender arrive, each once and in order; all of them exactly if none has
      32768 bytes or more and the last one is not empty. */
  lemma EveryPayloadArrives(payloads: seq<Payload>, chunks: seq<seq<Byte>>)
    requires forall p | p in payloads :: Fits(p)
    requires Concat(chunks) == Encode(payloads)
    ensures var d := DrainAll(NOTHING, chunks);
            && d.payloads <= payloads
            && (d.astray <==> exists p :: p in payloads && !Short(p))
            && (d.payloads == payloads <==>
                  (forall p | p in payloads :: Short(p)) && (payloads == [] || payloads[|payloads| - 1] != []))
  {
    hide Encode, Short, Arriving;
    assert [] + Concat(chunks) == Encode(payloads);
    SplitIsIrrelevant(NOTHING, chunks);
    EmptyThen(Drain(Encode(payloads)));
    EncodeThenDrain(payloads);
    AllArriveIff(payloads);
  }
}
