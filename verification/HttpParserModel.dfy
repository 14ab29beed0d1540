/** What one call of `HttpParser::Parse` (http_parser.cpp) does, and a driver that calls it until it makes no
    more progress. How a header block is read is left to a function from its text to the kind of body. */
module HttpParserModel {
  import opened Bytes
  import opened Options
  import opened HttpText

  datatype Body = NoBody | Malformed | Sized(length: nat) | Chunked | Endless

  type Classify = seq<Byte> -> Body

  datatype Phase =
    | ExpectHeaders | ExpectNormalBody | ExpectStreamBody | ExpectHttpComplete
    | ExpectChunkLen | ExpectChunkBody | ExpectChunkComplete | ExpectLastEmptyChunk
    | ExpectContinue | ExpectError

  datatype Parser = Parser(
    phase: Phase, header: seq<Byte>, chunk: Option<Block>, chunkLength: int, contentLength: int,
    chunked: bool, stream: bool)

  const INIT := Parser(ExpectHeaders, [], None, 0, 0, false, false)

  const MAX_BODY_SIZE: nat := 64 * 1024
  const MAX_CHUNK_LENGTH: nat := 1024 * 1024

  /** The parser, what it left unread, and the state it reports. */
  datatype Parsed = Parsed(parser: Parser, rest: seq<Byte>, state: Phase)

  function ClearForNextHttp(p: Parser): Parser {
    p.(phase := ExpectHeaders, header := [], contentLength := -1, chunk := None)
  }

  function ClearForNextChunk(p: Parser): Parser {
    if p.chunked then p.(phase := ExpectChunkLen, chunkLength := -1, chunk := None)
    else if p.stream then p.(phase := ExpectStreamBody, chunk := None)
    else p.(phase := ExpectHeaders, chunkLength := -1, chunk := None)
  }

  /** What is completed is cleared away before more is parsed. */
  function Ready(p: Parser): Parser {
    if p.phase == ExpectHttpComplete then ClearForNextHttp(p)
    else if p.phase == ExpectChunkComplete then ClearForNextChunk(p)
    else p
  }

  function ParseHeaders(body: Body, p: Parser): Parser {
    match body
    case NoBody => p.(chunkLength := 0, phase := ExpectHttpComplete)
    case Malformed => p.(phase := ExpectError)
    case Sized(n) => p.(contentLength := n, phase := if n == 0 then ExpectHttpComplete else ExpectNormalBody)
    case Chunked => p.(chunked := true, phase := ExpectChunkLen)
    case Endless => p.(contentLength := -1, stream := true, phase := ExpectStreamBody)
  }

  function ExpectHeader(classify: Classify, p: Parser, buf: seq<Byte>): Parsed {
    if |buf| > 4 then
      var space := Find(CRLFCRLF, buf);
      if space.Some? then
        var header := buf[..space.value];
        var p' := ParseHeaders(classify(header), p.(header := header));
        Parsed(p', buf[space.value + 4..], p'.phase)
      else if |buf| > MAX_BODY_SIZE then Parsed(p.(phase := ExpectError), buf, ExpectError)
      else Parsed(p, buf, ExpectContinue)
    else Parsed(p, buf, ExpectContinue)
  }

  /** How much of the buffer fits into the packet. */
  function Fitting(buf: seq<Byte>, packet: Block): nat
    requires |packet.data| <= packet.capacity
  {
    var space := packet.capacity - |packet.data|;
    if |buf| < space then |buf| else space
  }

  function Filled(packet: Block, buf: seq<Byte>): Block
    requires |packet.data| <= packet.capacity
  {
    packet.(data := packet.data + buf[..Fitting(buf, packet)])
  }

  /** The packet being filled; a new one is made at the first byte. */
  function Current(p: Parser, capacity: nat): Block {
    if p.chunk.Some? then p.chunk.value else Block(capacity, [])
  }

  function Fill(p: Parser, packet: Block, buf: seq<Byte>): Parser
    requires |packet.data| <= packet.capacity
  {
    var size := Fitting(buf, packet);
    var filled := Filled(packet, buf);
    match p.phase
    case ExpectNormalBody =>
      var left := p.contentLength - size;
      p.(chunk := Some(filled), contentLength := left,
         phase := if left == 0 then ExpectHttpComplete else ExpectNormalBody)
    case ExpectChunkBody =>
      var left := p.chunkLength - size;
      if left == 0 || |filled.data| == filled.capacity then
        p.(chunk := Some(filled.(data := filled.data[..if |filled.data| >= 2 then |filled.data| - 2 else 0])),
           chunkLength := left, phase := ExpectChunkComplete)
      else p.(chunk := Some(filled), chunkLength := left)
    case _ =>
      p.(chunk := Some(filled),
         phase := if |filled.data| == filled.capacity then ExpectChunkComplete else p.phase)
  }

  /** The size of the packet a body is gathered in. */
  function Capacity(p: Parser): int {
    match p.phase
    case ExpectNormalBody => p.contentLength
    case ExpectChunkBody => p.chunkLength
    case _ => MAX_BODY_SIZE
  }

  /** The body that is still to come fits the packet it is gathered in. */
  predicate Gathering(p: Parser) {
    var packet := Current(p, if Capacity(p) >= 0 then Capacity(p) else 0);
    match p.phase
    case ExpectNormalBody => p.contentLength > 0 && packet.capacity - |packet.data| == p.contentLength
    case ExpectChunkBody => p.chunkLength > 0 && packet.capacity >= 2 && packet.capacity - |packet.data| == p.chunkLength
    case ExpectStreamBody => |packet.data| < packet.capacity
    case _ => true
  }

  /** The invariant of the parser between calls. */
  predicate Valid(p: Parser) {
    && Gathering(p)
    && p.phase != ExpectContinue
    && (p.phase == ExpectChunkLen || p.phase == ExpectLastEmptyChunk ==> p.chunk == None)
    && (p.phase == ExpectChunkComplete ==> p.chunked || p.stream)
    && (p.phase == ExpectHeaders ==> p.chunk == None && !p.chunked && !p.stream)
    && (p.phase == ExpectHttpComplete ==> !p.chunked && !p.stream)
    && (p.phase == ExpectNormalBody ==> !p.chunked && !p.stream)
    && (p.phase == ExpectStreamBody ==> p.stream)
    && (p.phase == ExpectChunkLen || p.phase == ExpectChunkBody || p.phase == ExpectLastEmptyChunk ==> p.chunked)
  }

  function ParseBody(p: Parser, buf: seq<Byte>): Parsed
    requires Valid(p) && p.phase in {ExpectNormalBody, ExpectStreamBody, ExpectChunkBody}
  {
    var packet := Current(p, Capacity(p));
    var p' := Fill(p, packet, buf);
    Parsed(p', buf[Fitting(buf, packet)..], p'.phase)
  }

  function ParseChunkLength(p: Parser, buf: seq<Byte>): Parsed {
    var crlf := Find(CRLF, buf);
    if crlf.Some? then
      var length := HexValue(buf[..crlf.value], 0);
      var p' := if length == 0 then p.(chunkLength := 0, phase := ExpectLastEmptyChunk)
                else p.(chunkLength := length + 2, phase := ExpectChunkBody);
      Parsed(p', buf[crlf.value + 2..], p'.phase)
    else if |buf| > 32 then Parsed(p.(phase := ExpectError), [], ExpectError)
    else Parsed(p, buf, p.phase)
  }

  function ParseLastChunk(p: Parser, buf: seq<Byte>): Parsed {
    var crlf := Find(CRLF, buf);
    if crlf.Some? then
      Parsed(p.(chunk := None, phase := ExpectChunkComplete), buf[crlf.value + 2..], ExpectChunkComplete)
    else Parsed(p, buf, p.phase)
  }

  function Parse(classify: Classify, p: Parser, buf: seq<Byte>): (r: Parsed)
    requires Valid(p)
    ensures |r.rest| <= |buf| && (|r.rest| == |buf| ==> r.rest == buf)
  {
    if buf == [] then Parsed(p, buf, p.phase)
    else
      var q := Ready(p);
      match q.phase
      case ExpectHeaders => ExpectHeader(classify, q, buf)
      case ExpectNormalBody | ExpectStreamBody | ExpectChunkBody => ParseBody(q, buf)
      case ExpectChunkLen => ParseChunkLength(q, buf)
      case ExpectLastEmptyChunk => ParseLastChunk(q, buf)
      case _ => Parsed(q, buf, q.phase)
  }

  lemma ReadyKeepsValid(p: Parser)
    requires Valid(p)
    ensures Valid(Ready(p)) && Ready(p).phase != ExpectHttpComplete && Ready(p).phase != ExpectChunkComplete
    ensures Ready(Ready(p)) == Ready(p)
  {
  }

  lemma BodyKeepsValid(p: Parser, buf: seq<Byte>)
    requires Valid(p) && p.phase in {ExpectNormalBody, ExpectStreamBody, ExpectChunkBody}
    ensures Valid(ParseBody(p, buf).parser)
  {
  }

  lemma HeaderKeepsValid(classify: Classify, p: Parser, buf: seq<Byte>)
    requires Valid(p) && p.phase == ExpectHeaders
    ensures Valid(ExpectHeader(classify, p, buf).parser)
  {
    hide Find;
  }

  lemma ParseKeepsValid(classify: Classify, p: Parser, buf: seq<Byte>)
    requires Valid(p)
    ensures Valid(Parse(classify, p, buf).parser)
  {
    ReadyKeepsValid(p);
    var q := Ready(p);
    match q.phase
    case ExpectHeaders => HeaderKeepsValid(classify, q, buf);
    case ExpectNormalBody | ExpectStreamBody | ExpectChunkBody => BodyKeepsValid(q, buf);
    case ExpectChunkLen => hide Find, HexValue;
    case _ => hide Find;
  }

  // ----- the driver

  /** A completed message or chunk, as it is handed on. */
  datatype Event = Event(whole: bool, header: seq<Byte>, payload: Option<seq<Byte>>)

  function EventOf(p: Parser): Event {
    Event(p.phase == ExpectHttpComplete, p.header, if p.chunk.Some? then Some(p.chunk.value.data) else None)
  }

  predicate Completes(r: Parsed) {
    r.state == ExpectHttpComplete || r.state == ExpectChunkComplete
  }

  datatype Driven = Driven(parser: Parser, rest: seq<Byte>, events: seq<Event>)

  /** Parses until nothing more is consumed, and hands on what is completed. */
  function Drive(classify: Classify, p: Parser, buf: seq<Byte>): (d: Driven)
    requires Valid(p)
    ensures Valid(d.parser)
    decreases |buf|
  {
    var r := Parse(classify, p, buf);
    ParseKeepsValid(classify, p, buf);
    if |r.rest| == |buf| then Driven(r.parser, buf, [])
    else
      var later := Drive(classify, r.parser, r.rest);
      later.(events := (if Completes(r) then [EventOf(r.parser)] else []) + later.events)
  }
}
