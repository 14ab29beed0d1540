/** Modular sequence-number arithmetic: the comparisons of WebRTC's
    `sequence_number_util.h` and `mod_ops.h` that the receive path is built on.
    The modulus `m` is 2^16 for RTP sequence numbers and 2^15 for VP8 picture ids. */
module SequenceNumbers {

  /** A 16-bit RTP sequence number. */
  type SeqNum = x: int | 0 <= x < 65536

  /** The sequence number `k` steps after `s` (before it when `k` is negative). */
  function Plus(s: SeqNum, k: int): SeqNum {
    (s + k) % 65536
  }

  /** How many forward steps lead from `a` to `b`, modulo `m`. */
  function DiffMod(m: nat, a: int, b: int): (d: int)
    ensures 0 <= a < m && 0 <= b < m ==> 0 <= d < m
  {
    if a <= b then b - a else b - a + m
  }

  /** At a distance of exactly half the number space the numerically larger value is ahead. */
  predicate AheadOrAtMod(m: nat, a: int, b: int) {
    var d := DiffMod(m, b, a);
    if 2 * d == m then b < a else 2 * d < m
  }

  predicate AheadOfMod(m: nat, a: int, b: int) {
    a != b && AheadOrAtMod(m, a, b)
  }

  function ForwardDiff(a: SeqNum, b: SeqNum): SeqNum {
    DiffMod(65536, a, b)
  }

  predicate AheadOrAt(a: SeqNum, b: SeqNum) {
    AheadOrAtMod(65536, a, b)
  }

  predicate AheadOf(a: SeqNum, b: SeqNum) {
    AheadOfMod(65536, a, b)
  }

  /** Of two different numbers exactly one is ahead, for every even modulus. */
  lemma AheadOfIsTotal(m: nat, a: nat, b: nat)
    requires a < m && b < m && m % 2 == 0 && a != b
    ensures AheadOfMod(m, a, b) <==> !AheadOfMod(m, b, a)
  {
    assert DiffMod(m, a, b) + DiffMod(m, b, a) == m;
  }

  lemma PlusPlus(s: SeqNum, i: int, j: int)
    ensures Plus(Plus(s, i), j) == Plus(s, i + j)
  {
  }

  /** Two walks that meet stay together. */
  lemma PlusTogether(a: SeqNum, i: int, b: SeqNum, j: int, d: int)
    ensures Plus(a, i) == Plus(b, j) ==> Plus(a, i + d) == Plus(b, j + d)
  {
    PlusPlus(a, i, d);
    PlusPlus(b, j, d);
  }

  lemma PlusForwardDiff(a: SeqNum, b: SeqNum)
    ensures Plus(a, ForwardDiff(a, b)) == b
  {
  }

  lemma PlusInjective(s: SeqNum, i: int, j: int)
    requires -65536 < i - j < 65536
    ensures Plus(s, i) == Plus(s, j) <==> i == j
  {
  }

  /** One step forward brings the target one step nearer. */
  lemma DiffStep(n: SeqNum, s: SeqNum)
    requires n != s
    ensures ForwardDiff(Plus(n, 1), s) == ForwardDiff(n, s) - 1
  {
  }

  /** Distances to a common later number within half the space order the numbers. */
  lemma NearerIsAhead(e: SeqNum, n: SeqNum, s: SeqNum)
    requires ForwardDiff(n, s) < ForwardDiff(e, s) < 32768
    ensures AheadOf(n, e) && ForwardDiff(e, n) == ForwardDiff(e, s) - ForwardDiff(n, s)
    ensures n != s ==> AheadOf(s, n)
  {
  }

  /** The number `k` before `s`. */
  function Back(s: SeqNum, k: nat): SeqNum {
    Plus(s, 0 - k)
  }

  lemma BackNone(s: SeqNum)
    ensures Back(s, 0) == s
  {
  }

  lemma BackOnce(s: SeqNum, k: nat)
    ensures Plus(Back(s, k), -1) == Back(s, k + 1)
  {
    PlusPlus(s, 0 - k, -1);
  }

  /** Back from the end of a run of numbers is a number of the run. */
  lemma BackInRun(b: SeqNum, n: nat, k: nat)
    requires k < n
    ensures Back(Plus(b, n - 1), k) == Plus(b, n - 1 - k)
  {
    PlusPlus(b, n - 1, 0 - k);
  }
}
