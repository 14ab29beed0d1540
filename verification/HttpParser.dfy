/** The HTTP parser of http_parser.cpp, updated in place by each call, proved to do what HttpParserModel says. */
module HttpParser {
  import opened Bytes
  import opened Options
  import opened HttpText
  import opened HttpParserModel
  import opened HttpSegmentation

  /** The received bytes that are still unread. */
  class MsgBuffer {
    var readable: seq<Byte>

    constructor (bytes: seq<Byte>)
      ensures readable == bytes
    {
      readable := bytes;
    }

    method Append(bytes: seq<Byte>)
      modifies this
      ensures readable == old(readable) + bytes
    {
      readable := readable + bytes;
    }

    method Retrieve(n: nat)
      requires n <= |readable|
      modifies this
      ensures readable == old(readable)[n..]
    {
      readable := readable[n..];
    }

    method RetrieveAll()
      modifies this
      ensures readable == []
    {
      readable := [];
    }
  }

  class HttpParser {
    const classify: Classify
    var state: Phase
    var header: seq<Byte>
    var chunk: Option<Block>
    var currentChunkLength: int
    var currentContentLength: int
    var isChunked: bool
    var isStream: bool

    ghost function View(): Parser
      reads this
    {
      Parser(state, header, chunk, currentChunkLength, currentContentLength, isChunked, isStream)
    }

    constructor (classify: Classify)
      ensures View() == INIT && this.classify == classify
    {
      this.classify := classify;
      state, header, chunk := ExpectHeaders, [], None;
      currentChunkLength, currentContentLength, isChunked, isStream := 0, 0, false, false;
    }

    method ClearForNextHttp()
      modifies this
      ensures View() == HttpParserModel.ClearForNextHttp(old(View()))
    {
      state := ExpectHeaders;
      header := [];
      currentContentLength := -1;
      chunk := None;
    }

    method ClearForNextChunk()
      modifies this
      ensures View() == HttpParserModel.ClearForNextChunk(old(View()))
    {
      if isChunked {
        state := ExpectChunkLen;
        currentChunkLength := -1;
      } else {
        if isStream {
          state := ExpectStreamBody;
        } else {
          state := ExpectHeaders;
          currentChunkLength := -1;
        }
      }
      chunk := None;
    }

    method ParseHeaders()
      modifies this
      ensures View() == HttpParserModel.ParseHeaders(classify(header), old(View()))
    {
      match classify(header)
      case Malformed =>
        state := ExpectError;
      case Sized(length) =>
        currentContentLength := length;
        state := if currentContentLength == 0 then ExpectHttpComplete else ExpectNormalBody;
      case Chunked =>
        isChunked := true;
        state := ExpectChunkLen;
      case NoBody =>
        currentChunkLength := 0;
        state := ExpectHttpComplete;
      case Endless =>
        currentContentLength := -1;
        isStream := true;
        state := ExpectStreamBody;
    }

    method ExpectHeader(buf: MsgBuffer) returns (reported: Phase)
      requires state == ExpectHeaders
      modifies this, buf
      ensures Parsed(View(), buf.readable, reported)
              == HttpParserModel.ExpectHeader(classify, old(View()), old(buf.readable))
    {
      if |buf.readable| > |CRLFCRLF| {
        var space := Find(CRLFCRLF, buf.readable);
        if space.Some? {
          header := buf.readable[..space.value];
          buf.Retrieve(space.value + 4);
          ParseHeaders();
          return state;
        } else {
          if |buf.readable| > MAX_BODY_SIZE {
            state := ExpectError;
            return state;
          }
          return ExpectContinue;
        }
      } else {
        return ExpectContinue;
      }
    }

    /** Moves what fits from the buffer into the current packet. */
    method TakeInto(buf: MsgBuffer, capacity: nat) returns (size: nat)
      requires var packet := Current(View(), capacity); |packet.data| <= packet.capacity
      modifies this`chunk, buf
      ensures var packet := Current(old(View()), capacity);
              && size == Fitting(old(buf.readable), packet)
              && chunk == Some(Filled(packet, old(buf.readable)))
              && buf.readable == old(buf.readable)[size..]
    {
      if chunk.None? {
        chunk := Some(Block(capacity, []));
      }
      var space := chunk.value.capacity - |chunk.value.data|;
      size := if |buf.readable| < space then |buf.readable| else space;
      chunk := Some(chunk.value.(data := chunk.value.data + buf.readable[..size]));
      buf.Retrieve(size);
    }

    method ParseStream(buf: MsgBuffer)
      requires Valid(View()) && state == ExpectStreamBody
      modifies this, buf
      ensures Parsed(View(), buf.readable, state) == ParseBody(old(View()), old(buf.readable))
    {
      var size := TakeInto(buf, MAX_BODY_SIZE);
      if chunk.value.capacity == |chunk.value.data| {
        state := ExpectChunkComplete;
      }
    }

    method ParseNormalBody(buf: MsgBuffer)
      requires Valid(View()) && state == ExpectNormalBody
      modifies this, buf
      ensures Parsed(View(), buf.readable, state) == ParseBody(old(View()), old(buf.readable))
    {
      var size := TakeInto(buf, currentContentLength);
      currentContentLength := currentContentLength - size;
      if currentContentLength == 0 {
        state := ExpectHttpComplete;
      }
    }

    method ParseChunk(buf: MsgBuffer)
      requires Valid(View()) && state == ExpectChunkBody
      modifies this, buf
      ensures Parsed(View(), buf.readable, state) == ParseBody(old(View()), old(buf.readable))
    {
      var size := TakeInto(buf, currentChunkLength);
      currentChunkLength := currentChunkLength - size;
      if currentChunkLength == 0 || chunk.value.capacity == |chunk.value.data| {
        chunk := Some(chunk.value.(data := chunk.value.data[..|chunk.value.data| - 2]));
        state := ExpectChunkComplete;
      }
    }

    method ParseChunkLength(buf: MsgBuffer) returns (reported: Phase)
      requires state == ExpectChunkLen
      modifies this, buf
      ensures Parsed(View(), buf.readable, reported) == HttpParserModel.ParseChunkLength(old(View()), old(buf.readable))
    {
      var crlf := Find(CRLF, buf.readable);
      if crlf.Some? {
        currentChunkLength := HexValue(buf.readable[..crlf.value], 0);
        if currentChunkLength > MAX_CHUNK_LENGTH {
          state := ExpectError;
        }
        buf.Retrieve(crlf.value + 2);
        if currentChunkLength == 0 {
          state := ExpectLastEmptyChunk;
        } else {
          currentChunkLength := currentChunkLength + 2;
          state := ExpectChunkBody;
        }
      } else {
        if |buf.readable| > 32 {
          buf.RetrieveAll();
          state := ExpectError;
        }
      }
      return state;
    }

    method ParseLastChunk(buf: MsgBuffer) returns (reported: Phase)
      requires state == ExpectLastEmptyChunk
      modifies this, buf
      ensures Parsed(View(), buf.readable, reported) == HttpParserModel.ParseLastChunk(old(View()), old(buf.readable))
    {
      var crlf := Find(CRLF, buf.readable);
      if crlf.Some? {
        buf.Retrieve(crlf.value + 2);
        chunk := None;
        state := ExpectChunkComplete;
      }
      return state;
    }

    /** Parses one piece: a header block, a chunk length, or as much of a body as there is. */
    method Parse(buf: MsgBuffer) returns (reported: Phase)
      requires Valid(View())
      modifies this, buf
      ensures Valid(View())
      ensures Parsed(View(), buf.readable, reported)
              == HttpParserModel.Parse(classify, old(View()), old(buf.readable))
    {
      ParseKeepsValid(classify, View(), buf.readable);
      ReadyKeepsValid(View());
      hide Valid, HttpParserModel.ExpectHeader, ParseBody, HttpParserModel.ParseChunkLength, HttpParserModel.ParseLastChunk;
      if |buf.readable| == 0 {
        return state;
      }
      if state == ExpectHttpComplete {
        ClearForNextHttp();
      } else if state == ExpectChunkComplete {
        ClearForNextChunk();
      }
      match state
      case ExpectHeaders =>
        reported := ExpectHeader(buf);
      case ExpectNormalBody =>
        ParseNormalBody(buf);
        reported := state;
      case ExpectStreamBody =>
        ParseStream(buf);
        reported := state;
      case ExpectChunkLen =>
        reported := ParseChunkLength(buf);
      case ExpectChunkBody =>
        ParseChunk(buf);
        reported := state;
      case ExpectLastEmptyChunk =>
        reported := ParseLastChunk(buf);
      case _ =>
        reported := state;
    }
  }

  lemma ThenNothing(events: seq<Event>, p: Parser, rest: seq<Byte>)
    ensures Then(events, Driven(p, rest, [])) == Driven(p, rest, events)
  {
    assert events + [] == events;
  }

  /** Parses until nothing more is consumed, and collects what is completed. */
  method DriveParser(parser: HttpParser, buf: MsgBuffer) returns (events: seq<Event>)
    requires Valid(parser.View())
    modifies parser, buf
    ensures Valid(parser.View())
    ensures Driven(parser.View(), buf.readable, events)
            == Drive(parser.classify, old(parser.View()), old(buf.readable))
  {
    hide Valid, HttpParserModel.Parse, Drive, Within, Then;
    events := [];
    ghost var target := Drive(parser.classify, parser.View(), buf.readable);
    ThenThen([], [], target);
    while true
      invariant Valid(parser.View())
      invariant target == Then(events, Drive(parser.classify, parser.View(), buf.readable))
      decreases |buf.readable|
    {
      var before := |buf.readable|;
      ghost var r := HttpParserModel.Parse(parser.classify, parser.View(), buf.readable);
      DriveStep(parser.classify, parser.View(), buf.readable);
      ThenThen(events, Now(r), Drive(parser.classify, r.parser, r.rest));
      var reported := parser.Parse(buf);
      if |buf.readable| == before {
        ThenNothing(events, r.parser, buf.readable);
        return;
      }
      if reported == ExpectHttpComplete || reported == ExpectChunkComplete {
        var event := Event(parser.state == ExpectHttpComplete, parser.header,
                           if parser.chunk.Some? then Some(parser.chunk.value.data) else None);
        events := events + [event];
      } else {
        assert events + [] == events;
      }
    }
  }
}
