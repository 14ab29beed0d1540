/** What the HTTP parser hands on for well-formed streams: messages with a Content-Length one after another,
    and one message in chunks (section 4.1 of RFC 7230). */
module HttpMessages {
  import opened Bytes
  import opened Options
  import opened HttpText
  import opened HttpParserModel
  import opened HttpSegmentation

  datatype Message = Message(header: seq<Byte>, body: seq<Byte>)

  /** A header block of at most 64 KiB that ends at its first empty line. */
  predicate HeaderBlock(header: seq<Byte>) {
    header != [] && |header| <= 65533 && Find(CRLFCRLF, header + CRLFCRLF) == Some(|header|)
  }

  predicate WellFormed(classify: Classify, m: Message) {
    && HeaderBlock(m.header)
    && (classify(m.header) == Sized(|m.body|) || (classify(m.header) == NoBody && m.body == []))
  }

  function Encode(messages: seq<Message>): seq<Byte> {
    if messages == [] then []
    else messages[0].header + CRLFCRLF + messages[0].body + Encode(messages[1..])
  }

  lemma EncodeStep(messages: seq<Message>)
    ensures messages == [] ==> Encode(messages) == []
    ensures messages != [] ==>
              Encode(messages) == messages[0].header + CRLFCRLF + (messages[0].body + Encode(messages[1..]))
  {
  }

  function Delivery(m: Message): Event {
    Event(true, m.header, if m.body == [] then None else Some(m.body))
  }

  function Deliveries(messages: seq<Message>): seq<Event> {
    if messages == [] then [] else [Delivery(messages[0])] + Deliveries(messages[1..])
  }

  /** Between two messages. */
  predicate Idle(p: Parser) {
    Valid(p) && (p.phase == ExpectHeaders || p.phase == ExpectHttpComplete)
  }

  lemma HeaderIsCut(header: seq<Byte>, rest: seq<Byte>)
    requires HeaderBlock(header)
    ensures var s := header + CRLFCRLF + rest;
            && Find(CRLFCRLF, s) == Some(|header|)
            && s[..|header|] == header && s[|header| + 4..] == rest && |s| > 4
            && EndsWithin(CRLFCRLF, s, MAX_BODY_SIZE)
  {
    FindInPrefix(CRLFCRLF, header + CRLFCRLF, rest);
  }

  /** The header block is read and what it announces decides how to go on. */
  lemma ReadsHeader(classify: Classify, p: Parser, header: seq<Byte>, rest: seq<Byte>)
    requires Idle(p) && HeaderBlock(header)
    ensures var s := header + CRLFCRLF + rest;
            && InLimits(Ready(p), s)
            && var q := Parse(classify, p, s).parser;
            && Parse(classify, p, s) == Parsed(q, rest, q.phase) && |rest| < |s|
            && q == ParseHeaders(classify(header), Ready(p).(header := header)) && Valid(q)
  {
    HeaderIsCut(header, rest);
    ParseKeepsValid(classify, p, header + CRLFCRLF + rest);
    hide Find, ParseHeaders;
  }

  /** The body is read into one packet. */
  lemma ReadsBody(classify: Classify, p: Parser, body: seq<Byte>, rest: seq<Byte>)
    requires Valid(p) && p.phase == ExpectNormalBody && p.chunk == None && p.contentLength == |body|
    ensures body != [] && InLimits(Ready(p), body + rest)
    ensures var r := Parse(classify, p, body + rest);
            && r == Parsed(r.parser, rest, ExpectHttpComplete) && Idle(r.parser)
            && EventOf(r.parser) == Event(true, p.header, Some(body))
  {
    ParseKeepsValid(classify, p, body + rest);
    assert (body + rest)[..|body|] == body && (body + rest)[|body|..] == rest && [] + body == body;
  }

  /** The driver reads the header block and goes on with what follows. */
  lemma DrivesHeader(classify: Classify, p: Parser, header: seq<Byte>, rest: seq<Byte>) returns (q: Parser)
    requires Idle(p) && HeaderBlock(header)
    ensures Valid(p) && Valid(q) && q == ParseHeaders(classify(header), Ready(p).(header := header))
    ensures var s := header + CRLFCRLF + rest;
            && Drive(classify, p, s) == Then(Now(Parsed(q, rest, q.phase)), Drive(classify, q, rest))
            && (Within(classify, q, rest) ==> Within(classify, p, s))
  {
    hide Drive, Within, Parse, InLimits, HeaderBlock, Valid, Find, Ready, ParseHeaders, Now, Then;
    var s := header + CRLFCRLF + rest;
    ReadsHeader(classify, p, header, rest);
    DriveStep(classify, p, s);
    q := Parse(classify, p, s).parser;
  }

  /** The driver reads the body and hands the message on. */
  lemma DrivesBody(classify: Classify, p: Parser, body: seq<Byte>, rest: seq<Byte>) returns (q: Parser)
    requires Valid(p) && p.phase == ExpectNormalBody && p.chunk == None && p.contentLength == |body|
    ensures Idle(q) && Valid(q)
    ensures Drive(classify, p, body + rest) == Then([Event(true, p.header, Some(body))], Drive(classify, q, rest))
    ensures Within(classify, q, rest) ==> Within(classify, p, body + rest)
  {
    hide Drive, Within, Parse, InLimits, Valid, Ready, Then, EventOf;
    ReadsBody(classify, p, body, rest);
    DriveStep(classify, p, body + rest);
    q := Parse(classify, p, body + rest).parser;
  }

  /** What a header block makes of the parser. */
  lemma HeaderOutcome(classify: Classify, p: Parser, m: Message, rest: seq<Byte>, q: Parser)
    requires Idle(p) && WellFormed(classify, m)
    requires q == ParseHeaders(classify(m.header), Ready(p).(header := m.header)) && Valid(q)
    ensures if m.body == [] then Idle(q) && Now(Parsed(q, rest, q.phase)) == [Delivery(m)]
            else q.phase == ExpectNormalBody && q.chunk == None && q.contentLength == |m.body| && q.header == m.header
                 && Now(Parsed(q, rest, q.phase)) == []
  {
    hide HeaderBlock, Gathering;
  }

  /** One message is handed on, and the driver is ready for the next. */
  lemma ReadsMessage(classify: Classify, p: Parser, m: Message, rest: seq<Byte>) returns (q: Parser)
    requires Idle(p) && WellFormed(classify, m)
    ensures Idle(q)
    ensures var s := m.header + CRLFCRLF + (m.body + rest);
            && Drive(classify, p, s) == Then([Delivery(m)], Drive(classify, q, rest))
            && (Within(classify, q, rest) ==> Within(classify, p, s))
  {
    hide Drive, Within, HeaderBlock, Valid, Ready, ParseHeaders, Now, Then, Idle;
    q := DrivesHeader(classify, p, m.header, m.body + rest);
    HeaderOutcome(classify, p, m, m.body + rest, q);
    if m.body == [] {
      assert m.body + rest == rest;
    } else {
      var h := q;
      q := DrivesBody(classify, h, m.body, rest);
      assert [] + [Delivery(m)] == [Delivery(m)];
      ThenThen([], [Delivery(m)], Drive(classify, q, rest));
    }
  }

  lemma NothingToRead(classify: Classify, p: Parser)
    requires Valid(p)
    ensures Within(classify, p, []) && Drive(classify, p, []) == Driven(p, [], [])
  {
  }

  /** Every message is handed on, once and in order, and the driver goes on with what follows them. */
  lemma {:induction false} MessagesAreRead(classify: Classify, p: Parser, messages: seq<Message>, tail: seq<Byte>) returns (q: Parser)
    requires Idle(p) && forall m | m in messages :: WellFormed(classify, m)
    ensures Idle(q)
    ensures Drive(classify, p, Encode(messages) + tail) == Then(Deliveries(messages), Drive(classify, q, tail))
    ensures Within(classify, q, tail) ==> Within(classify, p, Encode(messages) + tail)
    decreases |messages|
  {
    EncodeStep(messages);
    hide Drive, Within, WellFormed, Encode, Valid, Then;
    if messages == [] {
      q := p;
      assert [] + tail == tail;
      ThenThen([], [], Drive(classify, p, tail));
    } else {
      var m, rest := messages[0], Encode(messages[1..]);
      var next := ReadsMessage(classify, p, m, rest + tail);
      q := MessagesAreRead(classify, next, messages[1..], tail);
      assert m.header + CRLFCRLF + (m.body + rest) + tail == m.header + CRLFCRLF + (m.body + (rest + tail));
      ThenThen([Delivery(m)], Deliveries(messages[1..]), Drive(classify, q, tail));
    }
  }

  lemma MessagesAreDelivered(classify: Classify, p: Parser, messages: seq<Message>)
    requires Idle(p) && forall m | m in messages :: WellFormed(classify, m)
    ensures Within(classify, p, Encode(messages))
    ensures var d := Drive(classify, p, Encode(messages)); d.rest == [] && d.events == Deliveries(messages)
  {
    hide Drive, Within, WellFormed, Encode, Valid;
    var q := MessagesAreRead(classify, p, messages, []);
    NothingToRead(classify, q);
    assert Encode(messages) + [] == Encode(messages) && Deliveries(messages) + [] == Deliveries(messages);
  }

  /** However TCP splits a stream of messages, each is handed on once, in order. */
  lemma SplitMessagesAreDelivered(classify: Classify, messages: seq<Message>, segments: seq<seq<Byte>>)
    requires (forall m | m in messages :: WellFormed(classify, m)) && Concat(segments) == Encode(messages)
    ensures var d := DriveAll(classify, INIT, [], segments);
            d.events == Deliveries(messages) && d.rest == []
  {
    hide Drive, Within, WellFormed, Encode, Concat, Valid, Quiet;
    StartsQuiet(classify);
    MessagesAreDelivered(classify, INIT, messages);
    assert [] + Concat(segments) == Encode(messages);
    SegmentationIsIrrelevant(classify, INIT, [], segments);
  }

  /** In the error state nothing more is read. */
  lemma NothingReadAfterError(classify: Classify, p: Parser, rest: seq<Byte>)
    requires Valid(p) && p.phase == ExpectError
    ensures Drive(classify, p, rest) == Driven(p, rest, []) && Within(classify, p, rest)
  {
  }

  /** However TCP splits it, behind well-formed messages a malformed header block stops the parser: they are handed on, nothing else
      is, and everything behind the header block stays unread. */
  lemma MalformedStops(classify: Classify, messages: seq<Message>, header: seq<Byte>, rest: seq<Byte>, segments: seq<seq<Byte>>)
    requires forall m | m in messages :: WellFormed(classify, m)
    requires HeaderBlock(header) && classify(header) == Malformed
    requires Concat(segments) == Encode(messages) + (header + CRLFCRLF + rest)
    ensures var d := DriveAll(classify, INIT, [], segments);
            d.events == Deliveries(messages) && d.parser.phase == ExpectError && d.rest == rest
  {
    hide Drive, Within, WellFormed, Encode, Concat, Valid, Quiet, HeaderBlock;
    StartsQuiet(classify);
    var q := MessagesAreRead(classify, INIT, messages, header + CRLFCRLF + rest);
    var r := DrivesHeader(classify, q, header, rest);
    NothingReadAfterError(classify, r, rest);
    assert [] + Concat(segments) == Concat(segments) && Deliveries(messages) + [] == Deliveries(messages);
    SegmentationIsIrrelevant(classify, INIT, [], segments);
  }

  // ----- a message in chunks

  predicate GoodChunks(chunks: seq<seq<Byte>>) {
    forall c | c in chunks :: 0 < |c| <= MAX_CHUNK_LENGTH
  }

  function EncodeChunks(chunks: seq<seq<Byte>>): seq<Byte> {
    if chunks == [] then [48] + CRLF + CRLF
    else ToHex(|chunks[0]|) + CRLF + (chunks[0] + CRLF + EncodeChunks(chunks[1..]))
  }

  /** Each chunk on its own, and at the end the message without one. */
  function ChunkDeliveries(header: seq<Byte>, chunks: seq<seq<Byte>>): seq<Event> {
    if chunks == [] then [Event(false, header, None)]
    else [Event(false, header, Some(chunks[0]))] + ChunkDeliveries(header, chunks[1..])
  }

  predicate BetweenChunks(p: Parser) {
    Valid(p) && p.chunked && (p.phase == ExpectChunkLen || p.phase == ExpectChunkComplete)
  }

  lemma LineIsCut(n: nat, rest: seq<Byte>)
    requires n <= MAX_CHUNK_LENGTH
    ensures var s := ToHex(n) + CRLF + rest;
            && Find(CRLF, s) == Some(|ToHex(n)|)
            && HexValue(s[..|ToHex(n)|], 0) == n
            && s[|ToHex(n)| + 2..] == rest && EndsWithin(CRLF, s, 32)
  {
    HexRoundTrip(n);
    assert Power16(6) == 16777216;
    HexLength(n, 6);
    FindAfterLine(ToHex(n), rest);
    assert (ToHex(n) + CRLF + rest)[..|ToHex(n)|] == ToHex(n);
  }

  lemma ReadsChunkLength(classify: Classify, p: Parser, n: nat, rest: seq<Byte>)
    requires BetweenChunks(p) && n <= MAX_CHUNK_LENGTH
    ensures var s := ToHex(n) + CRLF + rest;
            && InLimits(Ready(p), s)
            && var q := Parse(classify, p, s).parser;
            && Parse(classify, p, s) == Parsed(q, rest, q.phase) && |rest| < |s| && Valid(q)
            && q.header == p.header && q.chunk == None && q.chunked
            && (if n == 0 then q.phase == ExpectLastEmptyChunk else q.phase == ExpectChunkBody && q.chunkLength == n + 2)
  {
    LineIsCut(n, rest);
    ParseKeepsValid(classify, p, ToHex(n) + CRLF + rest);
    hide Find, ToHex, HexValue;
  }

  lemma ReadsChunk(classify: Classify, p: Parser, chunk: seq<Byte>, rest: seq<Byte>)
    requires Valid(p) && p.phase == ExpectChunkBody && p.chunk == None && p.chunkLength == |chunk| + 2
    ensures var s := chunk + CRLF + rest;
            && InLimits(Ready(p), s)
            && var r := Parse(classify, p, s);
            && r == Parsed(r.parser, rest, ExpectChunkComplete) && |rest| < |s| && BetweenChunks(r.parser)
            && r.parser.header == p.header
            && EventOf(r.parser) == Event(false, p.header, Some(chunk))
  {
    var s := chunk + CRLF + rest;
    ParseKeepsValid(classify, p, s);
    assert s[..|chunk| + 2] == chunk + CRLF && s[|chunk| + 2..] == rest && [] + (chunk + CRLF) == chunk + CRLF;
    assert (chunk + CRLF)[..|chunk|] == chunk;
  }

  lemma ReadsLastChunk(classify: Classify, p: Parser)
    requires Valid(p) && p.phase == ExpectLastEmptyChunk
    ensures InLimits(Ready(p), CRLF)
    ensures var r := Parse(classify, p, CRLF);
            && r == Parsed(r.parser, [], ExpectChunkComplete) && Valid(r.parser)
            && EventOf(r.parser) == Event(false, p.header, None)
  {
    ParseKeepsValid(classify, p, CRLF);
    FindAfterLine([], []);
    assert [] + CRLF + [] == CRLF;
  }

  /** One chunk is handed on, and the driver is ready for the next. */
  lemma ReadsWholeChunk(classify: Classify, p: Parser, chunk: seq<Byte>, rest: seq<Byte>) returns (q: Parser)
    requires BetweenChunks(p) && 0 < |chunk| <= MAX_CHUNK_LENGTH
    ensures BetweenChunks(q) && q.header == p.header
    ensures var s := ToHex(|chunk|) + CRLF + (chunk + CRLF + rest);
            && Drive(classify, p, s) == Then([Event(false, p.header, Some(chunk))], Drive(classify, q, rest))
            && (Within(classify, q, rest) ==> Within(classify, p, s))
  {
    var body := chunk + CRLF + rest;
    var s := ToHex(|chunk|) + CRLF + body;
    ReadsChunkLength(classify, p, |chunk|, body);
    DriveStep(classify, p, s);
    hide Drive, Within, Parse, InLimits, Valid, ToHex, Ready;
    var p1 := Parse(classify, p, s).parser;
    ReadsChunk(classify, p1, chunk, rest);
    DriveStep(classify, p1, body);
    q := Parse(classify, p1, body).parser;
    ThenThen([], [Event(false, p.header, Some(chunk))], Drive(classify, q, rest));
  }

  lemma ReadsEnd(classify: Classify, p: Parser)
    requires BetweenChunks(p)
    ensures var s := ToHex(0) + CRLF + CRLF;
            && Within(classify, p, s)
            && Drive(classify, p, s).rest == [] && Drive(classify, p, s).events == [Event(false, p.header, None)]
  {
    var s := ToHex(0) + CRLF + CRLF;
    ReadsChunkLength(classify, p, 0, CRLF);
    DriveStep(classify, p, s);
    hide Drive, Within, Parse, InLimits, Valid, ToHex, Ready;
    var p1 := Parse(classify, p, s).parser;
    ReadsLastChunk(classify, p1);
    DriveStep(classify, p1, CRLF);
    NothingToRead(classify, Parse(classify, p1, CRLF).parser);
  }

  lemma EncodeChunksStep(chunks: seq<seq<Byte>>)
    ensures chunks == [] ==> EncodeChunks(chunks) == ToHex(0) + CRLF + CRLF
    ensures chunks != [] ==>
              EncodeChunks(chunks) == ToHex(|chunks[0]|) + CRLF + (chunks[0] + CRLF + EncodeChunks(chunks[1..]))
  {
  }

  lemma {:induction false} ChunksAreDelivered(classify: Classify, p: Parser, chunks: seq<seq<Byte>>)
    requires BetweenChunks(p) && GoodChunks(chunks)
    ensures Within(classify, p, EncodeChunks(chunks))
    ensures var d := Drive(classify, p, EncodeChunks(chunks));
            d.rest == [] && d.events == ChunkDeliveries(p.header, chunks)
    decreases |chunks|
  {
    EncodeChunksStep(chunks);
    hide Drive, Within, EncodeChunks, BetweenChunks, ToHex;
    if chunks == [] {
      ReadsEnd(classify, p);
    } else {
      var q := ReadsWholeChunk(classify, p, chunks[0], EncodeChunks(chunks[1..]));
      ChunksAreDelivered(classify, q, chunks[1..]);
    }
  }

  /** However TCP splits a chunked message, each chunk is handed on once, in order, and then its end. */
  lemma SplitChunksAreDelivered(
      classify: Classify, header: seq<Byte>, chunks: seq<seq<Byte>>, segments: seq<seq<Byte>>)
    requires HeaderBlock(header) && classify(header) == Chunked && GoodChunks(chunks)
    requires Concat(segments) == header + CRLFCRLF + EncodeChunks(chunks)
    ensures var d := DriveAll(classify, INIT, [], segments);
            d.events == ChunkDeliveries(header, chunks) && d.rest == []
  {
    hide Drive, Within, HeaderBlock, EncodeChunks, Concat, ChunkDeliveries, GoodChunks, Valid, Quiet;
    ChunkedMessageIsDelivered(classify, header, chunks);
    StartsQuiet(classify);
    assert [] + Concat(segments) == Concat(segments);
    SegmentationIsIrrelevant(classify, INIT, [], segments);
  }

  lemma StartsQuiet(classify: Classify)
    ensures Valid(INIT) && Idle(INIT) && Quiet(classify, INIT, [])
  {
  }

  lemma ChunkedMessageIsDelivered(classify: Classify, header: seq<Byte>, chunks: seq<seq<Byte>>)
    requires HeaderBlock(header) && classify(header) == Chunked && GoodChunks(chunks)
    ensures Valid(INIT) && Within(classify, INIT, header + CRLFCRLF + EncodeChunks(chunks))
    ensures var d := Drive(classify, INIT, header + CRLFCRLF + EncodeChunks(chunks));
            d.events == ChunkDeliveries(header, chunks) && d.rest == []
  {
    hide Drive, Within, HeaderBlock, EncodeChunks, ChunkDeliveries, GoodChunks, BetweenChunks, Valid;
    var q := ReadsChunkedHeader(classify, header, EncodeChunks(chunks));
    ChunksAreDelivered(classify, q, chunks);
  }

  lemma ReadsChunkedHeader(classify: Classify, header: seq<Byte>, rest: seq<Byte>) returns (q: Parser)
    requires HeaderBlock(header) && classify(header) == Chunked
    ensures BetweenChunks(q) && q.header == header && Valid(INIT)
    ensures var s := header + CRLFCRLF + rest;
            && Drive(classify, INIT, s) == Drive(classify, q, rest)
            && (Within(classify, q, rest) ==> Within(classify, INIT, s))
  {
    StartsQuiet(classify);
    hide Drive, Within, HeaderBlock, Gathering;
    q := DrivesHeader(classify, INIT, header, rest);
    ThenThen([], [], Drive(classify, q, rest));
  }

  // ----- a message that ends with the connection

  /** The body piece by piece of 64 KiB; what is left at the end is no piece. */
  function Pieces(body: seq<Byte>): (pieces: seq<seq<Byte>>)
    decreases |body|
  {
    if |body| < 65536 then [] else [body[..65536]] + Pieces(body[65536..])
  }

  function Remainder(body: seq<Byte>): (rest: seq<Byte>)
    ensures |rest| < 65536
    decreases |body|
  {
    if |body| < 65536 then body else Remainder(body[65536..])
  }

  lemma {:induction false} PiecesAndRemainder(body: seq<Byte>)
    ensures Concat(Pieces(body)) + Remainder(body) == body && forall piece | piece in Pieces(body) :: |piece| == 65536
    decreases |body|
  {
    if |body| >= 65536 {
      PiecesAndRemainder(body[65536..]);
      assert body == body[..65536] + body[65536..];
      assert Pieces(body)[1..] == Pieces(body[65536..]);
    }
  }

  function PieceDeliveries(header: seq<Byte>, pieces: seq<seq<Byte>>): seq<Event> {
    if pieces == [] then [] else [Event(false, header, Some(pieces[0]))] + PieceDeliveries(header, pieces[1..])
  }

  /** What the packet being filled holds. */
  function Held(p: Parser): seq<Byte> {
    if p.phase == ExpectStreamBody && p.chunk.Some? then p.chunk.value.data else []
  }

  predicate BetweenPieces(p: Parser) {
    && Valid(p) && p.stream && !p.chunked
    && (p.phase == ExpectChunkComplete || (p.phase == ExpectStreamBody && p.chunk == None))
  }

  lemma ReadsPiece(classify: Classify, p: Parser, piece: seq<Byte>, rest: seq<Byte>)
    requires BetweenPieces(p) && |piece| == 65536
    ensures var s := piece + rest;
            && InLimits(Ready(p), s)
            && var r := Parse(classify, p, s);
            && r == Parsed(r.parser, rest, ExpectChunkComplete) && |rest| < |s| && BetweenPieces(r.parser)
            && r.parser.header == p.header
            && EventOf(r.parser) == Event(false, p.header, Some(piece))
  {
    var s := piece + rest;
    ParseKeepsValid(classify, p, s);
    assert s[..65536] == piece && s[65536..] == rest && [] + piece == piece;
  }

  lemma ReadsRemainder(classify: Classify, p: Parser, rest: seq<Byte>)
    requires BetweenPieces(p) && 0 < |rest| < 65536
    ensures InLimits(Ready(p), rest)
    ensures var r := Parse(classify, p, rest);
            r == Parsed(r.parser, [], ExpectStreamBody) && Valid(r.parser) && Held(r.parser) == rest && !Completes(r)
  {
    ParseKeepsValid(classify, p, rest);
    assert rest[..|rest|] == rest && [] + rest == rest;
  }

  /** One piece is handed on, and the driver is ready for the next. */
  lemma DrivesPiece(classify: Classify, p: Parser, piece: seq<Byte>, rest: seq<Byte>) returns (q: Parser)
    requires BetweenPieces(p) && |piece| == 65536
    ensures BetweenPieces(q) && q.header == p.header
    ensures Drive(classify, p, piece + rest) == Then([Event(false, p.header, Some(piece))], Drive(classify, q, rest))
    ensures Within(classify, q, rest) ==> Within(classify, p, piece + rest)
  {
    hide Drive, Within, Parse, InLimits, Valid, Ready, Then, EventOf;
    ReadsPiece(classify, p, piece, rest);
    DriveStep(classify, p, piece + rest);
    q := Parse(classify, p, piece + rest).parser;
  }

  lemma DrivesRemainder(classify: Classify, p: Parser, rest: seq<Byte>)
    requires BetweenPieces(p) && |rest| < 65536
    ensures Within(classify, p, rest)
    ensures var d := Drive(classify, p, rest); d.rest == [] && d.events == [] && Held(d.parser) == rest
  {
    hide Drive, Within, Parse, InLimits, Valid, Ready;
    NothingToRead(classify, p);
    if rest != [] {
      ReadsRemainder(classify, p, rest);
      DriveStep(classify, p, rest);
      NothingToRead(classify, Parse(classify, p, rest).parser);
    }
  }

  lemma {:induction false} PiecesAreDelivered(classify: Classify, p: Parser, body: seq<Byte>)
    requires BetweenPieces(p)
    ensures Within(classify, p, body)
    ensures var d := Drive(classify, p, body);
            d.rest == [] && d.events == PieceDeliveries(p.header, Pieces(body)) && Held(d.parser) == Remainder(body)
    decreases |body|
  {
    hide Drive, Within, BetweenPieces, Held;
    if |body| < 65536 {
      DrivesRemainder(classify, p, body);
    } else {
      assert body == body[..65536] + body[65536..];
      var q := DrivesPiece(classify, p, body[..65536], body[65536..]);
      PiecesAreDelivered(classify, q, body[65536..]);
    }
  }

  lemma ReadsEndlessHeader(classify: Classify, header: seq<Byte>, body: seq<Byte>) returns (q: Parser)
    requires HeaderBlock(header) && classify(header) == Endless
    ensures BetweenPieces(q) && q.header == header && Valid(INIT)
    ensures var s := header + CRLFCRLF + body;
            && Drive(classify, INIT, s) == Drive(classify, q, body)
            && (Within(classify, q, body) ==> Within(classify, INIT, s))
  {
    StartsQuiet(classify);
    hide Drive, Within, HeaderBlock, Gathering;
    q := DrivesHeader(classify, INIT, header, body);
    ThenThen([], [], Drive(classify, q, body));
  }

  /** However TCP splits a message whose body only ends with the connection, its body is handed on in pieces of 64 KiB, each
      once, in order; what is left of it is in the packet being filled. */
  lemma SplitStreamIsDelivered(classify: Classify, header: seq<Byte>, body: seq<Byte>, segments: seq<seq<Byte>>)
    requires HeaderBlock(header) && classify(header) == Endless
    requires Concat(segments) == header + CRLFCRLF + body
    ensures var d := DriveAll(classify, INIT, [], segments);
            d.events == PieceDeliveries(header, Pieces(body)) && d.rest == [] && Held(d.parser) == Remainder(body)
  {
    hide Drive, Within, HeaderBlock, Concat, PieceDeliveries, Pieces, Remainder, Valid, Quiet, Held;
    var q := ReadsEndlessHeader(classify, header, body);
    PiecesAreDelivered(classify, q, body);
    StartsQuiet(classify);
    assert [] + Concat(segments) == Concat(segments);
    SegmentationIsIrrelevant(classify, INIT, [], segments);
  }
}
