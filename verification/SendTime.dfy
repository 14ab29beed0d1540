/** Absolute send times: microseconds written as 24 bits of 6.18 fixed point seconds (rtp_utils.cc), and the difference
    of two of them turned back into microseconds (rtp_headers.h). */
module SendTime {
  import opened Bytes

  const UNITS_PER_SECOND: int := 0x4_0000
  const MICROS_PER_SECOND: int := 1_000_000
  const WRAP: int := 0x100_0000

  type Uint24 = x: int | 0 <= x < 0x100_0000

  /** Whole 2^-18 second units in a time; the shift is done in 64 bits. */
  function Units(micros: nat): int {
    (micros * UNITS_PER_SECOND % 0x1_0000_0000_0000_0000) / MICROS_PER_SECOND
  }

  function ToSendTime(micros: nat): Uint24 {
    Units(micros) % WRAP
  }

  /** A 32-bit pattern read as a signed number. */
  function Int32(x: int): int
    requires 0 <= x < 0x1_0000_0000
  {
    if x < 0x8000_0000 then x else x - 0x1_0000_0000
  }

  /** The difference of two send times: subtracted in 32 bits, then sign-extended from 24 bits by two shifts. */
  function UnitDelta(current: Uint24, previous: Uint24): int {
    Int32((current - previous) % 0x1_0000_0000 * 256 % 0x1_0000_0000) / 256
  }

  /** Division that truncates toward zero. */
  function Truncated(x: int, d: nat): int
    requires d > 0
  {
    if x >= 0 then x / d else -((-x) / d)
  }

  function MicrosDelta(current: Uint24, previous: Uint24): int {
    Truncated(UnitDelta(current, previous) * MICROS_PER_SECOND, UNITS_PER_SECOND)
  }

  /** The two shifts pick the representative nearest to zero. */
  lemma UnitDeltaIsNearest(current: Uint24, previous: Uint24)
    ensures -0x80_0000 <= UnitDelta(current, previous) < 0x80_0000
    ensures (UnitDelta(current, previous) - (current - previous)) % WRAP == 0
  {
    var x := current - previous;
    if x >= 0 {
      assert x % 0x1_0000_0000 == x && x * 256 % 0x1_0000_0000 == x * 256;
    } else {
      assert x % 0x1_0000_0000 == x + 0x1_0000_0000;
      assert (x + 0x1_0000_0000) * 256 % 0x1_0000_0000 == (x + WRAP) * 256;
    }
  }

  lemma NearestIsUnique(x: int, y: int)
    requires -0x80_0000 <= x < 0x80_0000 && -0x80_0000 <= y < 0x80_0000 && (x - y) % WRAP == 0
    ensures x == y
  {
  }

  /** Below 2^46 microseconds the 64-bit shift does not overflow, and a unit is at least as fine as 4 microseconds. */
  lemma UnitsAreFine(micros: nat)
    requires micros < 0x4000_0000_0000
    ensures Units(micros) * MICROS_PER_SECOND <= micros * UNITS_PER_SECOND < (Units(micros) + 1) * MICROS_PER_SECOND
  {
  }

  /** The sign-extended difference is the true one exactly when that fits into 24 signed bits. */
  lemma UnitDeltaIsTrue(t: nat, s: nat)
    ensures var d, e := Units(t) - Units(s), UnitDelta(ToSendTime(t), ToSendTime(s));
            && (e == d <==> -0x80_0000 <= d < 0x80_0000)
            && -0x80_0000 <= e < 0x80_0000 && (e - d) % WRAP == 0
  {
    var d, e := Units(t) - Units(s), UnitDelta(ToSendTime(t), ToSendTime(s));
    UnitDeltaIsNearest(ToSendTime(t), ToSendTime(s));
    ToSendTimeWraps(t);
    ToSendTimeWraps(s);
    hide Units, UnitDelta, ToSendTime;
    WrapsAddUp(e, ToSendTime(t), Units(t), ToSendTime(s), Units(s));
    if -0x80_0000 <= d < 0x80_0000 {
      NearestIsUnique(e, d);
    }
  }

  lemma ToSendTimeWraps(micros: nat)
    ensures (ToSendTime(micros) - Units(micros)) % WRAP == 0
  {
    hide Units;
  }

  lemma WrapsAddUp(e: int, a: int, x: int, b: int, y: int)
    requires (e - (a - b)) % WRAP == 0 && (a - x) % WRAP == 0 && (b - y) % WRAP == 0
    ensures (e - (x - y)) % WRAP == 0
  {
  }

  lemma TruncationIsClose(d: int, micros: int)
    requires (d - 1) * MICROS_PER_SECOND < micros * UNITS_PER_SECOND < (d + 1) * MICROS_PER_SECOND
    ensures -4 <= Truncated(d * MICROS_PER_SECOND, UNITS_PER_SECOND) - micros <= 4
  {
  }

  /** Times at most 32 s but for 4 microseconds apart, in either order, come back within 4 microseconds,
      wherever the 64 s wrap falls. */
  lemma DeltaIsRecovered(t: nat, s: nat)
    requires t < 0x4000_0000_0000 && s < 0x4000_0000_0000
    requires -(32 * MICROS_PER_SECOND - 4) <= t - s <= 32 * MICROS_PER_SECOND - 4
    ensures -4 <= MicrosDelta(ToSendTime(t), ToSendTime(s)) - (t - s) <= 4
  {
    UnitsAreFine(t);
    UnitsAreFine(s);
    var d := Units(t) - Units(s);
    UnitDeltaIsTrue(t, s);
    TruncationIsClose(d, t - s);
  }

  /** For all times: the difference comes back within 4 microseconds exactly when it fits the 24 bits. */
  lemma DeltaIsRecoveredIff(t: nat, s: nat)
    requires t < 0x4000_0000_0000 && s < 0x4000_0000_0000
    ensures -4 <= MicrosDelta(ToSendTime(t), ToSendTime(s)) - (t - s) <= 4
            <==> -0x80_0000 <= Units(t) - Units(s) < 0x80_0000
  {
    UnitsAreFine(t);
    UnitsAreFine(s);
    UnitDeltaIsTrue(t, s);
    hide Units, UnitDelta, ToSendTime, Truncated;
    var d, e := Units(t) - Units(s), UnitDelta(ToSendTime(t), ToSendTime(s));
    if d == e {
      TruncationIsClose(d, t - s);
    } else {
      WrapIsFar(t, s, d, e);
    }
  }

  lemma WrapIsFar(t: nat, s: nat, d: int, e: int)
    requires (d - 1) * MICROS_PER_SECOND < (t - s) * UNITS_PER_SECOND < (d + 1) * MICROS_PER_SECOND
    requires -0x80_0000 <= e < 0x80_0000 && !(-0x80_0000 <= d < 0x80_0000) && (e - d) % WRAP == 0
    ensures !(-4 <= Truncated(e * MICROS_PER_SECOND, UNITS_PER_SECOND) - (t - s) <= 4)
  {
    assert e - d >= WRAP || d - e >= WRAP;
  }

  // ----- the bytes

  /** The value in the header extension, most significant byte first. */
  function TimeBytes(micros: nat): (b: seq<Byte>)
    ensures |b| == 3
  {
    var v := ToSendTime(micros);
    [v / 0x1_0000, v / 256 % 256, v % 256]
  }

  function Uint24At(b: seq<Byte>): Uint24
    requires |b| == 3
  {
    var high: int, middle: int := b[0], b[1];
    high * 0x1_0000 + middle * 256 + b[2]
  }

  lemma TimeIsReadBack(micros: nat)
    ensures Uint24At(TimeBytes(micros)) == ToSendTime(micros)
  {
    hide ToSendTime;
  }

  /** Written, read, and subtracted, two send times give their distance. */
  lemma SentDeltaIsRecovered(t: nat, s: nat)
    requires t < 0x4000_0000_0000 && s < 0x4000_0000_0000
    requires -(32 * MICROS_PER_SECOND - 4) <= t - s <= 32 * MICROS_PER_SECOND - 4
    ensures -4 <= MicrosDelta(Uint24At(TimeBytes(t)), Uint24At(TimeBytes(s))) - (t - s) <= 4
  {
    hide *;
    DeltaIsRecovered(t, s);
    TimeIsReadBack(t);
    TimeIsReadBack(s);
  }
}
