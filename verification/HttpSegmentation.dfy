/** However TCP splits the bytes, the same messages and chunks come out of the HTTP parser. */
module HttpSegmentation {
  import opened Bytes
  import opened Options
  import opened HttpText
  import opened HttpParserModel

  // ----- the size limits

  /** A delimiter is at most `limit` bytes away from complete: short of it no more than `limit` bytes gather. */
  predicate EndsWithin(pattern: seq<Byte>, buf: seq<Byte>, limit: nat)
    requires pattern != []
  {
    var at := Find(pattern, buf);
    if at.Some? then at.value + |pattern| <= limit + 1 else |buf| <= limit
  }

  /** The header block fits into 64 KiB, the chunk length line into 32 bytes. */
  predicate InLimits(p: Parser, buf: seq<Byte>) {
    match p.phase
    case ExpectHeaders => EndsWithin(CRLFCRLF, buf, MAX_BODY_SIZE)
    case ExpectChunkLen => EndsWithin(CRLF, buf, 32)
    case _ => true
  }

  /** Every header block and chunk length line the driver comes by is in the limits. */
  predicate Within(classify: Classify, p: Parser, buf: seq<Byte>)
    requires Valid(p)
    decreases |buf|
  {
    buf == []
    || (var r := Parse(classify, p, buf);
        ParseKeepsValid(classify, p, buf);
        InLimits(Ready(p), buf) && (|r.rest| < |buf| ==> Within(classify, r.parser, r.rest)))
  }

  // ----- one call

  /** What a call makes of the buffer: the same whatever follows, a body cut in two, or nothing yet. */
  predicate Settles(r: Parsed, longer: Parsed, b: seq<Byte>) {
    longer == r.(rest := r.rest + b)
  }

  /** A delimiter found already splits the longer buffer at the same place. */
  lemma CutStays(pattern: seq<Byte>, a: seq<Byte>, b: seq<Byte>)
    requires pattern != [] && Find(pattern, a).Some?
    ensures var at := Find(pattern, a).value;
            && Find(pattern, a + b) == Some(at)
            && (a + b)[..at] == a[..at]
            && (a + b)[at + |pattern|..] == a[at + |pattern|..] + b
  {
    FindInPrefix(pattern, a, b);
  }

  lemma LimitStays(pattern: seq<Byte>, a: seq<Byte>, b: seq<Byte>, limit: nat)
    requires pattern != [] && EndsWithin(pattern, a + b, limit)
    ensures EndsWithin(pattern, a, limit)
  {
    FindInPrefix(pattern, a, b);
  }

  lemma HeaderSettles(classify: Classify, p: Parser, a: seq<Byte>, b: seq<Byte>)
    requires InLimits(p, a) && p.phase == ExpectHeaders
    ensures var r := ExpectHeader(classify, p, a);
            if |r.rest| < |a| then Settles(r, ExpectHeader(classify, p, a + b), b)
            else r.rest == a && r.parser == p && !Completes(r)
  {
    hide Find, ParseHeaders;
    if Find(CRLFCRLF, a).Some? {
      CutStays(CRLFCRLF, a, b);
    }
  }

  lemma ChunkLengthSettles(p: Parser, a: seq<Byte>, b: seq<Byte>)
    requires InLimits(p, a) && p.phase == ExpectChunkLen
    ensures var r := ParseChunkLength(p, a);
            if |r.rest| < |a| then Settles(r, ParseChunkLength(p, a + b), b)
            else r.rest == a && r.parser == p && !Completes(r)
  {
    hide Find, HexValue;
    if Find(CRLF, a).Some? {
      CutStays(CRLF, a, b);
    }
  }

  lemma LastChunkSettles(p: Parser, a: seq<Byte>, b: seq<Byte>)
    requires p.phase == ExpectLastEmptyChunk
    ensures var r := ParseLastChunk(p, a);
            if |r.rest| < |a| then Settles(r, ParseLastChunk(p, a + b), b)
            else r.rest == a && r.parser == p && !Completes(r)
  {
    hide Find;
    if Find(CRLF, a).Some? {
      CutStays(CRLF, a, b);
    }
  }

  lemma FullBodySettles(p: Parser, a: seq<Byte>, b: seq<Byte>)
    requires Valid(p) && p.phase in {ExpectNormalBody, ExpectStreamBody, ExpectChunkBody}
    requires var packet := Current(p, Capacity(p)); packet.capacity - |packet.data| <= |a|
    ensures Settles(ParseBody(p, a), ParseBody(p, a + b), b)
  {
    var packet := Current(p, Capacity(p));
    FullPacket(packet, a, b);
    hide Fitting, Filled, Gathering;
  }

  lemma FullPacket(packet: Block, a: seq<Byte>, b: seq<Byte>)
    requires 0 <= packet.capacity - |packet.data| <= |a|
    ensures Fitting(a + b, packet) == Fitting(a, packet) <= |a| && Filled(packet, a + b) == Filled(packet, a)
    ensures (a + b)[Fitting(a + b, packet)..] == a[Fitting(a, packet)..] + b
  {
    var space := packet.capacity - |packet.data|;
    assert (a + b)[..space] == a[..space];
    assert (a + b)[space..] == a[space..] + b;
  }

  /** A body that is not complete yet takes everything, and goes on where it stopped. */
  lemma PartBodyGoesOn(p: Parser, a: seq<Byte>, b: seq<Byte>)
    requires Valid(p) && p.phase in {ExpectNormalBody, ExpectStreamBody, ExpectChunkBody}
    requires var packet := Current(p, Capacity(p)); |a| < packet.capacity - |packet.data|
    ensures var r := ParseBody(p, a);
            r.rest == [] && r.parser.phase == p.phase && Valid(r.parser) && ParseBody(r.parser, b) == ParseBody(p, a + b)
  {
    BodyKeepsValid(p, a);
    var packet := Current(p, Capacity(p));
    FillGoesOn(p, packet, a, b);
    assert a[|a|..] == [];
    hide Fill, Filled, Gathering;
  }

  /** Filling a packet in two goes is filling it in one. */
  lemma FillGoesOn(p: Parser, packet: Block, a: seq<Byte>, b: seq<Byte>)
    requires Valid(p) && p.phase in {ExpectNormalBody, ExpectStreamBody, ExpectChunkBody}
    requires packet == Current(p, Capacity(p)) && |packet.data| + |a| < packet.capacity
    ensures Fitting(a, packet) == |a| && Fill(p, packet, a).phase == p.phase
    ensures Fill(p, packet, a).chunk == Some(Filled(packet, a)) && |Filled(packet, a).data| <= packet.capacity
    ensures Fill(Fill(p, packet, a), Filled(packet, a), b) == Fill(p, packet, a + b)
    ensures b[Fitting(b, Filled(packet, a))..] == (a + b)[Fitting(a + b, packet)..]
  {
    PacketGoesOn(packet, a, b);
    hide Filled;
  }

  lemma PacketGoesOn(packet: Block, a: seq<Byte>, b: seq<Byte>)
    requires |packet.data| + |a| < packet.capacity
    ensures var partly := Filled(packet, a);
            && partly == packet.(data := packet.data + a)
            && Fitting(a + b, packet) == |a| + Fitting(b, partly)
            && Filled(partly, b) == Filled(packet, a + b)
            && b[Fitting(b, partly)..] == (a + b)[Fitting(a + b, packet)..]
  {
    var partly := Filled(packet, a);
    assert a[..|a|] == a;
    var n := Fitting(b, partly);
    assert (a + b)[..|a| + n] == a + b[..n];
    assert (packet.data + a) + b[..n] == packet.data + (a + b[..n]);
  }

  /** `a` is enough for the call to consume something, and what follows it is left alone. */
  ghost predicate Settled(classify: Classify, p: Parser, a: seq<Byte>, b: seq<Byte>)
    requires Valid(p)
  {
    var r := Parse(classify, p, a);
    |r.rest| < |a| && Settles(r, Parse(classify, p, a + b), b)
  }

  /** `a` goes into a body that `b` continues. */
  ghost predicate Parted(classify: Classify, p: Parser, a: seq<Byte>, b: seq<Byte>)
    requires Valid(p)
  {
    var r := Parse(classify, p, a);
    && r.rest == [] && Valid(r.parser) && !Completes(r)
    && Parse(classify, r.parser, b) == Parse(classify, p, a + b)
    && (b != [] ==> |Parse(classify, r.parser, b).rest| < |b|)
    && Ready(r.parser) == r.parser && r.parser.phase !in {ExpectHeaders, ExpectChunkLen}
  }

  /** `a` is not enough for anything. */
  ghost predicate Waits(classify: Classify, p: Parser, a: seq<Byte>)
    requires Valid(p)
  {
    Parse(classify, p, a).rest == a && Parse(classify, p, a).parser == p
  }

  lemma StepCases(classify: Classify, p: Parser, a: seq<Byte>, b: seq<Byte>)
    requires Valid(p) && Ready(p) == p && a != [] && InLimits(p, a + b)
    ensures InLimits(p, a)
    ensures Settled(classify, p, a, b) || Parted(classify, p, a, b) || Waits(classify, p, a)
  {
    match p.phase
    case ExpectHeaders =>
      LimitStays(CRLFCRLF, a, b, MAX_BODY_SIZE);
      HeaderSettles(classify, p, a, b);
    case ExpectChunkLen =>
      LimitStays(CRLF, a, b, 32);
      ChunkLengthSettles(p, a, b);
    case ExpectLastEmptyChunk =>
      LastChunkSettles(p, a, b);
    case ExpectNormalBody | ExpectStreamBody | ExpectChunkBody =>
      BodySettles(classify, p, a, b);
    case _ =>
  }

  lemma BodySettles(classify: Classify, p: Parser, a: seq<Byte>, b: seq<Byte>)
    requires Valid(p) && a != [] && p.phase in {ExpectNormalBody, ExpectStreamBody, ExpectChunkBody}
    ensures Settled(classify, p, a, b) || Parted(classify, p, a, b)
  {
    ParseIsBody(classify, p, a);
    ParseIsBody(classify, p, a + b);
    BodyKeepsValid(p, a);
    if Current(p, Capacity(p)).capacity - |Current(p, Capacity(p)).data| <= |a| {
      FullBodySettles(p, a, b);
      PacketTakesSome(p, a);
      hide Parse, ParseBody, Valid, Ready, Current, Capacity;
    } else {
      PartBodyGoesOn(p, a, b);
      assert b == [] ==> a + b == a;
      PartIsIncomplete(p, a);
      var q := ParseBody(p, a).parser;
      hide Parse, ParseBody, Valid, Ready, Current, Capacity;
      ParseIsBody(classify, q, b);
      if b != [] {
        PacketTakesSome(q, b);
      }
    }
  }

  lemma ParseIsBody(classify: Classify, p: Parser, buf: seq<Byte>)
    requires Valid(p) && p.phase in {ExpectNormalBody, ExpectStreamBody, ExpectChunkBody}
    ensures Ready(p) == p
    ensures Parse(classify, p, buf) == if buf == [] then Parsed(p, [], p.phase) else ParseBody(p, buf)
  {
    hide ParseBody, Valid;
  }

  lemma PacketTakesSome(p: Parser, a: seq<Byte>)
    requires Valid(p) && p.phase in {ExpectNormalBody, ExpectStreamBody, ExpectChunkBody} && a != []
    ensures |ParseBody(p, a).rest| < |a|
  {
    hide Fill;
  }

  lemma PartIsIncomplete(p: Parser, a: seq<Byte>)
    requires Valid(p) && p.phase in {ExpectNormalBody, ExpectStreamBody, ExpectChunkBody}
    requires ParseBody(p, a).parser.phase == p.phase
    ensures !Completes(ParseBody(p, a)) && ParseBody(p, a).state == p.phase
  {
    hide Fill, Fitting, Valid;
  }

  // ----- every run

  /** Clearing what is completed twice is clearing it once. */
  lemma ReadyIsEnough(classify: Classify, p: Parser, buf: seq<Byte>)
    requires Valid(p) && buf != []
    ensures Valid(Ready(p)) && Parse(classify, Ready(p), buf) == Parse(classify, p, buf)
    ensures Drive(classify, Ready(p), buf) == Drive(classify, p, buf)
    ensures Within(classify, Ready(p), buf) == Within(classify, p, buf)
  {
    ReadyKeepsValid(p);
  }

  /** What has been handed on before, followed by what comes next. */
  function Then(events: seq<Event>, d: Driven): Driven {
    d.(events := events + d.events)
  }

  /** What a call hands on. */
  function Now(r: Parsed): seq<Event> {
    if Completes(r) then [EventOf(r.parser)] else []
  }

  lemma ThenThen(a: seq<Event>, b: seq<Event>, d: Driven)
    ensures Then(a, Then(b, d)) == Then(a + b, d) && Then([], d) == d
  {
    assert a + (b + d.events) == (a + b) + d.events;
  }

  /** The driver's next step. */
  lemma DriveStep(classify: Classify, p: Parser, buf: seq<Byte>)
    requires Valid(p)
    ensures var r := Parse(classify, p, buf);
            && Valid(r.parser)
            && (|r.rest| < |buf| ==>
                  && Drive(classify, p, buf) == Then(Now(r), Drive(classify, r.parser, r.rest))
                  && (Within(classify, p, buf) <==> InLimits(Ready(p), buf) && Within(classify, r.parser, r.rest)))
            && (|r.rest| == |buf| ==>
                  && Drive(classify, p, buf) == Driven(r.parser, buf, [])
                  && (Within(classify, p, buf) <==> buf == [] || InLimits(Ready(p), buf)))
            && (buf == [] ==> r == Parsed(p, [], p.phase))
  {
    ParseKeepsValid(classify, p, buf);
  }

  /** What feeding `a` and then `b` comes to. */
  ghost predicate InSteps(classify: Classify, p: Parser, a: seq<Byte>, b: seq<Byte>)
    requires Valid(p)
  {
    var first := Drive(classify, p, a);
    && Within(classify, p, a)
    && Within(classify, first.parser, first.rest + b)
    && Drive(classify, p, a + b) == Then(first.events, Drive(classify, first.parser, first.rest + b))
  }

  lemma NowSettles(r: Parsed, b: seq<Byte>)
    ensures Now(r.(rest := r.rest + b)) == Now(r)
  {
  }

  lemma SettledInSteps(classify: Classify, p: Parser, a: seq<Byte>, b: seq<Byte>)
    requires Valid(p) && Ready(p) == p && Within(classify, p, a + b) && InLimits(p, a) && Settled(classify, p, a, b)
    requires var r := Parse(classify, p, a);
             && Valid(r.parser) && (Within(classify, r.parser, r.rest + b) ==> InSteps(classify, r.parser, r.rest, b))
    ensures InSteps(classify, p, a, b)
  {
    DriveStep(classify, p, a);
    DriveStep(classify, p, a + b);
    hide Drive, Within, Parse, Ready, Valid, InLimits, Now;
    var r := Parse(classify, p, a);
    var first := Drive(classify, r.parser, r.rest);
    var second := Drive(classify, first.parser, first.rest + b);
    ThenThen(Now(r), first.events, second);
    assert Now(Parse(classify, p, a + b)) == Now(r) by { NowSettles(r, b); }
    hide Then;
  }

  lemma BodyHasNoLimits(p: Parser, buf: seq<Byte>)
    requires p.phase !in {ExpectHeaders, ExpectChunkLen}
    ensures InLimits(p, buf)
  {
  }

  lemma NothingHandedOn(r: Parsed)
    requires !Completes(r)
    ensures Now(r) == []
  {
  }

  lemma PartedInSteps(classify: Classify, p: Parser, a: seq<Byte>, b: seq<Byte>)
    requires Valid(p) && Ready(p) == p && a != [] && Within(classify, p, a + b) && InLimits(p, a)
    requires Parted(classify, p, a, b)
    ensures InSteps(classify, p, a, b)
  {
    hide Drive, Within, Parse, Ready, Valid, InLimits, EventOf;
    var r := Parse(classify, p, a);
    DriveStep(classify, p, a);
    DriveStep(classify, r.parser, []);
    assert [] + b == b;
    assert b == [] ==> a + b == a;
    BodyHasNoLimits(r.parser, b);
    DriveStep(classify, p, a + b);
    DriveStep(classify, r.parser, b);
    NothingHandedOn(r);
    ThenThen([], [], Drive(classify, Drive(classify, p, a).parser, Drive(classify, p, a).rest + b));
  }

  lemma WaitsInSteps(classify: Classify, p: Parser, a: seq<Byte>, b: seq<Byte>)
    requires Valid(p) && Ready(p) == p && Within(classify, p, a + b) && InLimits(p, a) && Waits(classify, p, a)
    ensures InSteps(classify, p, a, b)
  {
    DriveStep(classify, p, a);
    ThenThen([], [], Drive(classify, Drive(classify, p, a).parser, Drive(classify, p, a).rest + b));
    hide Drive, Within, Parse, Ready, Valid, InLimits, EventOf;
  }

  /** Feeding the bytes in two parts is feeding them at once. */
  lemma {:induction false} DriveInSteps(classify: Classify, p: Parser, a: seq<Byte>, b: seq<Byte>)
    requires Valid(p) && Within(classify, p, a + b)
    ensures InSteps(classify, p, a, b)
    decreases |a|
  {
    if a == [] {
      assert [] + b == b;
      DriveStep(classify, p, []);
    } else {
      var q := Ready(p);
      ReadyKeepsValid(p);
      ReadyIsEnough(classify, p, a);
      ReadyIsEnough(classify, p, a + b);
      DriveStep(classify, q, a + b);
      ParseKeepsValid(classify, q, a);
      StepCases(classify, q, a, b);
      hide Drive, Within, Parse, Ready, Valid, InLimits, Parted, Waits;
      var r := Parse(classify, q, a);
      if Settled(classify, q, a, b) {
        if Within(classify, r.parser, r.rest + b) {
          DriveInSteps(classify, r.parser, r.rest, b);
        }
        SettledInSteps(classify, q, a, b);
      } else if Parted(classify, q, a, b) {
        PartedInSteps(classify, q, a, b);
      } else {
        WaitsInSteps(classify, q, a, b);
      }
    }
  }

  // ----- any number of segments

  /** The driver is run on each segment as it arrives, behind what is still unread. */
  function DriveAll(classify: Classify, p: Parser, unread: seq<Byte>, segments: seq<seq<Byte>>): Driven
    requires Valid(p)
    decreases |segments|
  {
    if segments == [] then Driven(p, unread, [])
    else
      var first := Drive(classify, p, unread + segments[0]);
      Then(first.events, DriveAll(classify, first.parser, first.rest, segments[1..]))
  }

  /** Nothing can be done about the unread bytes until more arrive. */
  predicate Quiet(classify: Classify, p: Parser, unread: seq<Byte>)
    requires Valid(p)
  {
    Drive(classify, p, unread) == Driven(p, unread, [])
  }

  lemma NothingConsumedIsStable(classify: Classify, p: Parser, buf: seq<Byte>)
    requires Valid(p) && |Parse(classify, p, buf).rest| == |buf|
    ensures var q := Parse(classify, p, buf).parser;
            Valid(q) && Parse(classify, q, buf).parser == q && Parse(classify, q, buf).rest == buf
  {
    hide Parse, Valid;
    ParseKeepsValid(classify, p, buf);
    if buf == [] {
      NothingParsed(classify, p);
    } else {
      ReadyIsEnough(classify, p, buf);
      ReadyKeepsValid(p);
      ConsumesNothing(classify, Ready(p), buf);
      if Parse(classify, p, buf).parser != Ready(p) {
        ErrorIsStable(classify, Ready(p).(phase := ExpectError), buf);
      }
    }
  }

  lemma NothingParsed(classify: Classify, p: Parser)
    requires Valid(p)
    ensures Parse(classify, p, []) == Parsed(p, [], p.phase)
  {
  }

  /** A call that consumes nothing leaves the parser as it is or gives up. */
  lemma ConsumesNothing(classify: Classify, p: Parser, buf: seq<Byte>)
    requires Valid(p) && Ready(p) == p && buf != [] && |Parse(classify, p, buf).rest| == |buf|
    ensures Parse(classify, p, buf).parser == p || Parse(classify, p, buf).parser == p.(phase := ExpectError)
  {
    hide Find, HexValue, Gathering, Filled;
    if p.phase in {ExpectNormalBody, ExpectStreamBody, ExpectChunkBody} {
      PacketTakesSome(p, buf);
    }
  }

  lemma ErrorIsStable(classify: Classify, p: Parser, buf: seq<Byte>)
    requires Valid(p) && p.phase == ExpectError
    ensures Parse(classify, p, buf) == Parsed(p, buf, ExpectError)
  {
  }

  lemma {:induction false} DriveIsQuiet(classify: Classify, p: Parser, buf: seq<Byte>)
    requires Valid(p)
    ensures var d := Drive(classify, p, buf); Quiet(classify, d.parser, d.rest)
    decreases |buf|
  {
    DriveStep(classify, p, buf);
    var r := Parse(classify, p, buf);
    if |r.rest| < |buf| {
      DriveIsQuiet(classify, r.parser, r.rest);
    } else {
      NothingConsumedIsStable(classify, p, buf);
      hide Valid, Parse;
    }
  }

  lemma NoSegments(classify: Classify, p: Parser, unread: seq<Byte>)
    requires Valid(p) && Quiet(classify, p, unread)
    ensures DriveAll(classify, p, unread, []) == Drive(classify, p, unread + Concat([]))
  {
    assert unread + Concat([]) == unread;
  }

  lemma ConcatStep(segments: seq<seq<Byte>>)
    requires segments != []
    ensures Concat(segments) == segments[0] + Concat(segments[1..])
  {
  }

  /** However the bytes are split into segments, the same is handed on and the same stays unread. */
  lemma {:induction false} SegmentationIsIrrelevant(
      classify: Classify, p: Parser, unread: seq<Byte>, segments: seq<seq<Byte>>)
    requires Valid(p) && Quiet(classify, p, unread) && Within(classify, p, unread + Concat(segments))
    ensures DriveAll(classify, p, unread, segments) == Drive(classify, p, unread + Concat(segments))
    decreases |segments|
  {
    hide Drive, Within, Valid, Quiet, Then, Concat;
    if segments == [] {
      NoSegments(classify, p, unread);
    } else {
      var now, later := unread + segments[0], Concat(segments[1..]);
      ConcatStep(segments);
      assert unread + (segments[0] + later) == now + later;
      DriveInSteps(classify, p, now, later);
      DriveIsQuiet(classify, p, now);
      var first := Drive(classify, p, now);
      SegmentationIsIrrelevant(classify, first.parser, first.rest, segments[1..]);
    }
  }

  /** Past the limit the split does matter: a longer header block is read when it arrives whole,
      and is an error when it arrives but for its last byte first. */
  lemma LongHeadersDependOnTheSplit(classify: Classify, p: Parser, s: seq<Byte>)
    requires Valid(p) && p.phase == ExpectHeaders
    requires Find(CRLFCRLF, s).Some? && !EndsWithin(CRLFCRLF, s, MAX_BODY_SIZE)
    ensures var at := Find(CRLFCRLF, s).value;
            && Parse(classify, p, s).rest == s[at + 4..]
            && Drive(classify, p, s[..at + 3]) == Driven(p.(phase := ExpectError), s[..at + 3], [])
  {
    hide Parse, Drive, Within, Valid, EndsWithin, Find, Ready, InLimits, EventOf;
    BeyondLimit(CRLFCRLF, s, MAX_BODY_SIZE);
    LongHeadersParsed(classify, p, s);
    DriveStep(classify, p, s[..Find(CRLFCRLF, s).value + 3]);
  }

  /** A delimiter past the limit, cut off before its last byte, leaves more than the limit without one. */
  lemma BeyondLimit(pattern: seq<Byte>, s: seq<Byte>, limit: nat)
    requires pattern != [] && Find(pattern, s).Some? && !EndsWithin(pattern, s, limit)
    ensures var a := s[..Find(pattern, s).value + |pattern| - 1];
            Find(pattern, a) == None && |a| > limit && |s| > |a|
  {
    var a := s[..Find(pattern, s).value + |pattern| - 1];
    assert s == a + s[|a|..];
    FindInPrefix(pattern, a, s[|a|..]);
    hide Find;
  }

  lemma LongHeadersParsed(classify: Classify, p: Parser, s: seq<Byte>)
    requires Valid(p) && p.phase == ExpectHeaders && Find(CRLFCRLF, s).Some?
    requires var a := s[..Find(CRLFCRLF, s).value + 3]; Find(CRLFCRLF, a) == None && |a| > MAX_BODY_SIZE
    ensures var at := Find(CRLFCRLF, s).value;
            && Parse(classify, p, s).rest == s[at + 4..]
            && Parse(classify, p, s[..at + 3]) == Parsed(p.(phase := ExpectError), s[..at + 3], ExpectError)
  {
    hide Find, ParseHeaders, Valid;
  }

  /** The same goes for chunk length lines of more than 31 bytes. */
  lemma LongChunkLengthsDependOnTheSplit(classify: Classify, p: Parser, s: seq<Byte>)
    requires Valid(p) && p.phase == ExpectChunkLen
    requires Find(CRLF, s).Some? && !EndsWithin(CRLF, s, 32)
    ensures var at := Find(CRLF, s).value;
            && Parse(classify, p, s).rest == s[at + 2..]
            && Drive(classify, p, s[..at + 1]) == Driven(p.(phase := ExpectError), [], [])
  {
    hide Parse, Drive, Within, Valid, EndsWithin, Find, Ready, InLimits, Completes, EventOf;
    BeyondLimit(CRLF, s, 32);
    LongChunkLengthParsed(classify, p, s);
    DriveStep(classify, p, s[..Find(CRLF, s).value + 1]);
    DriveStep(classify, p.(phase := ExpectError), []);
  }

  lemma LongChunkLengthParsed(classify: Classify, p: Parser, s: seq<Byte>)
    requires Valid(p) && p.phase == ExpectChunkLen && Find(CRLF, s).Some?
    requires var a := s[..Find(CRLF, s).value + 1]; Find(CRLF, a) == None && |a| > 32
    ensures var at := Find(CRLF, s).value;
            && Parse(classify, p, s).rest == s[at + 2..]
            && Parse(classify, p, s[..at + 1]) == Parsed(p.(phase := ExpectError), [], ExpectError)
            && Now(Parsed(p.(phase := ExpectError), [], ExpectError)) == []
  {
    hide Find, HexValue, Valid;
  }
}
