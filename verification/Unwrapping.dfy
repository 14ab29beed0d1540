/** `SeqNumUnwrapper` of WebRTC's `sequence_number_util.h`: numbers modulo `m` made into integers that never jump
    by more than half the number space. */
module Unwrapping {
  import opened SequenceNumbers
  import opened Options
  import opened RingArithmetic

  datatype Unwrapper = Unwrapper(lastValue: Option<nat>, lastUnwrapped: int)

  const NEW_UNWRAPPER := Unwrapper(None, 0)

  /** Moves by the shortest signed distance from the last value. */
  function Unwrap(m: nat, u: Unwrapper, v: nat): (r: (Unwrapper, int)) {
    var x := if u.lastValue.None? then v
             else if AheadOrAtMod(m, v, u.lastValue.value) then u.lastUnwrapped + DiffMod(m, u.lastValue.value, v)
             else u.lastUnwrapped - DiffMod(m, v, u.lastValue.value);
    (Unwrapper(Some(v), x), x)
  }

  /** The unwrapped value agrees with the last value modulo `m`. */
  ghost predicate Unwrapped(m: nat, u: Unwrapper)
    requires m > 0
  {
    u.lastValue.Some? ==> u.lastValue.value < m && u.lastUnwrapped % m == u.lastValue.value
  }

  lemma UnwrapIsCongruent(m: nat, u: Unwrapper, v: nat)
    requires m > 0 && Unwrapped(m, u) && v < m
    ensures Unwrapped(m, Unwrap(m, u, v).0) && Unwrap(m, u, v).1 % m == v
  {
    if u.lastValue.None? {
      ModMultiple(v, 0, m);
    } else {
      var q := u.lastUnwrapped / m;
      var x := Unwrap(m, u, v).1;
      var e := if x - u.lastUnwrapped == v - u.lastValue.value then 0
               else if x - u.lastUnwrapped == v - u.lastValue.value + m then 1 else -1;
      assert m * (q + e) == m * q + m * e;
      assert x == v + m * (q + e);
      ModMultiple(v, q + e, m);
    }
    ModMultiple(v, 0, m);
    SmallMod(v, m);
  }

  /** It is the number with that remainder nearest to the last one, for every even modulus; of two as near, the one that is ahead
      if its number is the larger one. */
  lemma UnwrapIsNearest(m: nat, u: Unwrapper, v: nat)
    requires m > 0 && m % 2 == 0 && u.lastValue.Some? && u.lastValue.value < m && v < m
    ensures var step := Unwrap(m, u, v).1 - u.lastUnwrapped;
            0 - m <= 2 * step <= m && (2 * step == m ==> v > u.lastValue.value) && (2 * step == 0 - m ==> v < u.lastValue.value)
  {
    var last := u.lastValue.value;
    assert v != last ==> DiffMod(m, v, last) + DiffMod(m, last, v) == m;
  }
}
