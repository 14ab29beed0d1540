/** Bytes, and blocks of bytes that arrive one after another. */
module Bytes {
  type Byte = x: int | 0 <= x < 256

  /** A block of fixed capacity that is filled from the front. */
  datatype Block = Block(capacity: nat, data: seq<Byte>)

  function Concat(blocks: seq<seq<Byte>>): seq<Byte> {
    if blocks == [] then [] else blocks[0] + Concat(blocks[1..])
  }

  /** The buffer `before` with `bytes` put at `at`. */
  function Patched(before: seq<Byte>, at: nat, bytes: seq<Byte>): (after: seq<Byte>)
    requires at + |bytes| <= |before|
    ensures |after| == |before|
  {
    before[..at] + bytes + before[at + |bytes|..]
  }

  lemma PatchedTwice(before: seq<Byte>, at: nat, a: seq<Byte>, b: seq<Byte>)
    requires at + |a| + |b| <= |before|
    ensures Patched(Patched(before, at, a), at + |a|, b) == Patched(before, at, a + b)
  {
  }

  lemma PatchOneMore(before: seq<Byte>, at: nat, bytes: seq<Byte>, i: nat)
    requires i < |bytes| && at + |bytes| <= |before|
    ensures Patched(before, at, bytes[..i])[at + i := bytes[i]] == Patched(before, at, bytes[..i + 1])
  {
  }

  lemma PatchNothing(before: seq<Byte>, at: nat)
    requires at <= |before|
    ensures Patched(before, at, []) == before
  {
  }

  /** Copies `source` into `target` from index `at` on. */
  method CopyInto(target: array<Byte>, at: nat, source: seq<Byte>)
    requires at + |source| <= target.Length
    modifies target
    ensures target[..] == Patched(old(target[..]), at, source)
  {
    ghost var before := target[..];
    PatchNothing(before, at);
    var i := 0;
    assert source[..i] == [];
    hide Patched;
    while i < |source|
      invariant 0 <= i <= |source| && target[..] == Patched(before, at, source[..i])
    {
      PatchOneMore(before, at, source, i);
      ghost var s := target[..];
      target[at + i] := source[i];
      assert target[..] == s[at + i := source[i]];
      i := i + 1;
    }
    assert source[..i] == source;
  }
}
