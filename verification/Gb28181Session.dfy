/** The reading side of a GB28181 session (gb28181_session.cpp): bytes are gathered in a buffer behind what the
    last read left over, payloads are taken off the front, and the rest is kept for the next read. */
module Gb28181Session {
  import opened Bytes
  import opened Rfc4571Framing

  const CAPACITY: nat := 1024 * 1024 * 8

  /** Patching the buffer behind its first `n` bytes makes them `n` and the patch. */
  lemma PrefixGrows(buffer: seq<Byte>, n: nat, block: seq<Byte>)
    requires n + |block| <= |buffer|
    ensures Patched(buffer, n, block)[..n + |block|] == buffer[..n] + block
  {
  }

  lemma ConcatFrom(blocks: seq<seq<Byte>>, k: nat, got: seq<Byte>)
    requires k < |blocks|
    ensures |Concat(blocks[k..])| == |blocks[k]| + |Concat(blocks[k + 1..])|
    ensures got + Concat(blocks[k..]) == (got + blocks[k]) + Concat(blocks[k + 1..])
  {
    assert blocks[k..][0] == blocks[k] && blocks[k..][1..] == blocks[k + 1..];
  }

  lemma ConcatDone(blocks: seq<seq<Byte>>, k: nat, got: seq<Byte>)
    requires k == |blocks|
    ensures got + Concat(blocks[k..]) == got
  {
  }

  class Gb28181Session {
    const recvBuffer: array<Byte>
    var recvBufferSize: nat
    /** A length field was read as negative; what the session then does is not modelled. */
    var astray: bool

    ghost predicate Valid()
      reads this, recvBuffer
    {
      recvBuffer.Length == CAPACITY && recvBufferSize <= CAPACITY && Undrainable(Residue(), astray)
    }

    /** The bytes left over by the last read. */
    ghost function Residue(): seq<Byte>
      requires recvBufferSize <= recvBuffer.Length
      reads this, recvBuffer
    {
      recvBuffer[..recvBufferSize]
    }

    constructor ()
      ensures Valid() && fresh(recvBuffer) && Drained([], Residue(), astray) == NOTHING
    {
      recvBuffer := new Byte[CAPACITY];
      recvBufferSize := 0;
      astray := false;
    }

    /** Fills the buffer with the residue and with what the socket hands out, block by block. */
    method Receive(buffer: array<Byte>, blocks: seq<seq<Byte>>) returns (readBytes: nat)
      requires Valid() && buffer != recvBuffer && buffer.Length == CAPACITY
      requires recvBufferSize + |Concat(blocks)| <= CAPACITY
      modifies buffer, this`recvBufferSize
      ensures readBytes <= CAPACITY && buffer[..readBytes] == old(Residue()) + Concat(blocks)
      ensures recvBufferSize == 0
    {
      hide Patched, Concat, Undrainable;
      ghost var all := Residue() + Concat(blocks);
      readBytes := 0;
      ghost var got: seq<Byte> := [];
      if recvBufferSize > 0 {
        got := recvBuffer[..recvBufferSize];
        PrefixGrows(buffer[..], 0, got);
        CopyInto(buffer, 0, recvBuffer[..recvBufferSize]);
        readBytes := recvBufferSize;
        recvBufferSize := 0;
      }
      var k := 0;
      assert blocks[0..] == blocks;
      while k < |blocks|
        invariant 0 <= k <= |blocks| && |got| == readBytes && readBytes + |Concat(blocks[k..])| <= CAPACITY
        invariant buffer[..readBytes] == got && got + Concat(blocks[k..]) == all
        invariant recvBufferSize == 0
      {
        var block := blocks[k];
        ConcatFrom(blocks, k, got);
        PrefixGrows(buffer[..], readBytes, block);
        CopyInto(buffer, readBytes, block);
        got := got + block;
        readBytes := readBytes + |block|;
        k := k + 1;
      }
      ConcatDone(blocks, k, got);
    }

    /** Handles one read event; `blocks` is what the socket returns until it would block. */
    method OnRead(blocks: seq<seq<Byte>>) returns (payloads: seq<Payload>)
      requires Valid()
      requires recvBufferSize + |Concat(blocks)| <= CAPACITY
      modifies this`recvBufferSize, this`astray, recvBuffer
      ensures Valid()
      ensures Drained(payloads, Residue(), astray) == Drain(old(Residue()) + Concat(blocks))
      ensures !astray ==> recvBufferSize <= 32768
    {
      hide Drain, Concat, Patched, Undrainable;
      ghost var stream := Residue() + Concat(blocks);
      ResidueIsUndrainable(stream);
      var buffer := new Byte[CAPACITY];
      var readBytes := Receive(buffer, blocks);
      var parseSize;
      payloads, parseSize, astray := Parse(buffer, readBytes);
      var rest := buffer[parseSize..readBytes];
      if readBytes - parseSize > 0 {
        SaveResidue(rest);
      }
      assert Residue() == rest;
    }

    method SaveResidue(rest: seq<Byte>)
      requires recvBuffer.Length == CAPACITY && |rest| <= CAPACITY
      modifies this`recvBufferSize, recvBuffer
      ensures recvBufferSize == |rest| && recvBufferSize <= recvBuffer.Length && Residue() == rest
    {
      CopyInto(recvBuffer, 0, rest);
      recvBufferSize := |rest|;
    }
  }

  /** `rest` is still to be parsed, after `payloads`. */
  ghost predicate Parsing(stream: seq<Byte>, rest: seq<Byte>, payloads: seq<Payload>) {
    Drain(stream) == Then(payloads, Drain(rest))
  }

  lemma ParseBegins(stream: seq<Byte>)
    ensures Parsing(stream, stream, [])
  {
    EmptyThen(Drain(stream));
  }

  lemma ThenNothing(payloads: seq<Payload>, residue: seq<Byte>, astray: bool)
    ensures Then(payloads, Drained([], residue, astray)) == Drained(payloads, residue, astray)
  {
  }

  lemma ParseStep(stream: seq<Byte>, rest: seq<Byte>, payloads: seq<Payload>)
    requires Parsing(stream, rest, payloads)
    ensures if |rest| <= 2 then Drain(stream) == Drained(payloads, rest, false)
            else
              var size := PayloadSize(rest[0], rest[1]);
              if |rest| < size + 2 then Drain(stream) == Drained(payloads, rest, false)
              else if size < 0 then Drain(stream) == Drained(payloads, rest, true)
              else Parsing(stream, rest[size + 2..], payloads + [rest[2..size + 2]])
  {
    DrainStep(rest);
    hide Drain, PayloadSize, Then;
    ThenNothing(payloads, rest, false);
    ThenNothing(payloads, rest, true);
    if |rest| > 2 {
      var size := PayloadSize(rest[0], rest[1]);
      if size >= 0 && |rest| >= size + 2 {
        ThenThen(payloads, [rest[2..size + 2]], Drain(rest[size + 2..]));
      }
    }
  }

  /** Takes payloads off the front of the buffer. */
  method Parse(buffer: array<Byte>, readBytes: nat) returns (payloads: seq<Payload>, parseSize: nat, astray: bool)
    requires readBytes <= buffer.Length
    ensures parseSize <= readBytes
    ensures Drain(buffer[..readBytes]) == Drained(payloads, buffer[parseSize..readBytes], astray)
  {
    hide Drain, Parsing, PayloadSize;
    ghost var stream := buffer[..readBytes];
    parseSize, payloads, astray := 0, [], false;
    ParseBegins(stream);
    while readBytes - parseSize > 2
      invariant parseSize <= readBytes && Parsing(stream, buffer[parseSize..readBytes], payloads) && !astray
      decreases readBytes - parseSize
    {
      ghost var rest := buffer[parseSize..readBytes];
      ParseStep(stream, rest, payloads);
      var payloadSize := PayloadSize(buffer[parseSize], buffer[parseSize + 1]);
      if readBytes - parseSize < payloadSize + 2 {
        return;
      }
      if payloadSize < 0 {
        astray := true;
        return;
      }
      parseSize := parseSize + 2;
      assert buffer[parseSize..parseSize + payloadSize] == rest[2..payloadSize + 2];
      payloads := payloads + [buffer[parseSize..parseSize + payloadSize]];
      assert buffer[parseSize + payloadSize..readBytes] == rest[payloadSize + 2..];
      parseSize := parseSize + payloadSize;
    }
    ParseStep(stream, buffer[parseSize..readBytes], payloads);
  }
}
