/** Arithmetic of the slot index `seq_num % size` of a ring whose size is a power of two. */
module RingArithmetic {
  import opened SequenceNumbers

  function Pow2(e: nat): (n: nat)
    ensures n > 0
  {
    if e == 0 then 1 else 2 * Pow2(e - 1)
  }

  /** The ring sizes up to half the sequence number space. */
  ghost predicate PowerOfTwo(n: nat) {
    exists e: nat :: e <= 15 && Pow2(e) == n
  }

  /** The slot index `s % size`, written as repeated subtraction so that proofs about slots stay linear. */
  function Slot(s: nat, size: nat): (slot: nat)
    requires size > 0
    ensures slot < size
    decreases s
  {
    if s < size then s else Slot(s - size, size)
  }

  lemma {:induction false} SlotIsModulo(s: nat, size: nat)
    requires size > 0
    ensures Slot(s, size) == s % size
    decreases s
  {
    if s < size {
      SmallMod(s, size);
    } else {
      SlotIsModulo(s - size, size);
      ModMultiple(s - size, 1, size);
    }
  }

  lemma MulAtLeast(n: nat, d: int)
    ensures d >= 1 ==> n * d >= n
    ensures d <= -1 ==> n * d + n <= 0
  {
    if d >= 1 {
      assert n * d == n + n * (d - 1);
    } else if d <= -1 {
      assert n * d + n == n * (d + 1);
    }
  }

  /** Modulo is determined by any quotient and small remainder. */
  lemma ModUnique(x: int, n: nat, q: int, r: nat)
    requires r < n && x == n * q + r
    ensures x % n == r
  {
    var d := x / n - q;
    assert n * d == n * (x / n) - n * q;
    MulAtLeast(n, d);
  }

  /** Adding a multiple of `n` leaves the remainder alone. */
  lemma ModMultiple(x: int, k: int, n: nat)
    requires n > 0
    ensures (x + n * k) % n == x % n
  {
    assert n * (x / n + k) == n * (x / n) + n * k;
    ModUnique(x + n * k, n, x / n + k, x % n);
  }

  lemma SmallMod(v: nat, m: nat)
    requires v < m
    ensures v % m == v
  {
    ModUnique(v, m, 0, v);
  }

  lemma {:induction false} Pow2Add(d: nat, e: nat)
    ensures Pow2(d) * Pow2(e) == Pow2(d + e)
  {
    if d > 0 {
      Pow2Add(d - 1, e);
      var p, q := Pow2(d - 1), Pow2(e);
      assert Pow2(d) == 2 * p && Pow2(d + e) == 2 * Pow2(d - 1 + e);
      hide Pow2;
      DoubledFactor(p, q);
    }
  }

  lemma DoubledFactor(p: nat, q: nat)
    ensures (2 * p) * q == 2 * (p * q)
  {
  }

  lemma {:induction false} Pow2Grows(d: nat, e: nat)
    ensures d <= e ==> Pow2(d) <= Pow2(e)
    decreases e
  {
    if d < e {
      Pow2Grows(d, e - 1);
    }
  }

  lemma Pow2Values()
    ensures Pow2(15) == 32768 && Pow2(16) == 65536
  {
    assert Pow2(4) == 16;
    Pow2Add(4, 4);
    Pow2Add(8, 8);
    assert Pow2(16) == 2 * Pow2(15);
  }

  lemma PowerOfTwoDivides(n: nat) returns (c: nat)
    requires PowerOfTwo(n)
    ensures c > 0 && n * c == 65536
  {
    var e: nat :| e <= 15 && Pow2(e) == n;
    hide Pow2;
    Pow2Values();
    Pow2Add(e, 16 - e);
    c := Pow2(16 - e);
  }

  lemma PowerOfTwoDoubles(n: nat, max: nat)
    requires PowerOfTwo(n) && PowerOfTwo(max) && n < max
    ensures PowerOfTwo(2 * n) && 2 * n <= max
  {
    var e: nat :| e <= 15 && Pow2(e) == n;
    var f: nat :| f <= 15 && Pow2(f) == max;
    Pow2Grows(f, e);
    Pow2Grows(e + 1, f);
    assert Pow2(e + 1) == 2 * n;
  }

  lemma PowerOfTwoBounds(n: nat)
    requires PowerOfTwo(n)
    ensures 0 < n <= 32768
  {
    var e: nat :| e <= 15 && Pow2(e) == n;
    hide Pow2;
    Pow2Values();
    Pow2Grows(e, 15);
  }

  /** Wrapping at 2^16 does not disturb the slot index. */
  lemma SlotOfPlus(s: SeqNum, k: int, n: nat)
    requires PowerOfTwo(n)
    ensures Slot(Plus(s, k), n) == (s + k) % n
  {
    var c := PowerOfTwoDivides(n);
    SlotIsModulo(Plus(s, k), n);
    hide Slot, PowerOfTwo;
    var w := (s + k) / 65536;
    assert n * (c * w) == (n * c) * w;
    ModMultiple(Plus(s, k), c * w, n);
  }

  /** Shifting a number moves its remainder by the shift, wrapping once around. */
  lemma ModShift(x: int, k: int, n: nat)
    requires n > 0
    ensures (x + k) % n == (x % n + k) % n
  {
    ModMultiple(x % n + k, x / n, n);
  }

  /** The slot before slot `s % n` is the slot of the previous sequence number. */
  lemma PreviousSlot(s: SeqNum, n: nat)
    requires PowerOfTwo(n)
    ensures Slot(Plus(s, -1), n) == if Slot(s, n) > 0 then Slot(s, n) - 1 else n - 1
  {
    SlotOfPlus(s, -1, n);
    SlotIsModulo(s, n);
    ModShift(s, -1, n);
    if s % n > 0 {
      ModUnique(s % n - 1, n, 0, s % n - 1);
    } else {
      ModUnique(-1, n, -1, n - 1);
    }
  }

  /** `k` steps on, the slot index is `k` further, wrapping once around the ring. */
  lemma SlotShift(s: SeqNum, k: nat, n: nat)
    requires PowerOfTwo(n) && k < n
    ensures Slot(Plus(s, k), n) == if Slot(s, n) + k < n then Slot(s, n) + k else Slot(s, n) + k - n
  {
    SlotOfPlus(s, k, n);
    SlotIsModulo(s, n);
    hide Slot, PowerOfTwo;
    ModShift(s, k, n);
    var r := Slot(s, n) + k;
    if r < n {
      ModUnique(r, n, 0, r);
    } else {
      ModUnique(r, n, 1, r - n);
    }
  }

  /** `n` steps on, the slot is the same again. */
  lemma SlotAfterLap(s: SeqNum, n: nat)
    requires PowerOfTwo(n)
    ensures Slot(Plus(s, n), n) == Slot(s, n)
  {
    SlotOfPlus(s, n, n);
    SlotIsModulo(s, n);
    ModMultiple(s, 1, n);
  }

  /** Slots that collide in the doubled ring already collided in the smaller one. */
  lemma DoublingSeparates(x: SeqNum, y: SeqNum, n: nat)
    requires n > 0 && Slot(x, 2 * n) == Slot(y, 2 * n)
    ensures Slot(x, n) == Slot(y, n)
  {
    HalvingSlot(x, n);
    HalvingSlot(y, n);
  }

  lemma {:induction false} HalvingSlot(x: nat, n: nat)
    requires n > 0
    ensures Slot(x, n) == Slot(Slot(x, 2 * n), n)
    decreases x
  {
    if x >= 2 * n {
      HalvingSlot(x - 2 * n, n);
      assert Slot(x, n) == Slot(x - n, n);
    }
  }

  /** The steps from `first` to the next sequence number that uses the slot of `q`. */
  function StepsToSlot(first: SeqNum, q: SeqNum, n: nat): (k: nat)
    requires n > 0
    ensures k < n
  {
    if Slot(first, n) <= Slot(q, n) then Slot(q, n) - Slot(first, n) else Slot(q, n) + n - Slot(first, n)
  }

  /** Among `n` consecutive sequence numbers exactly one uses the slot of `q`. */
  lemma StepsToSlotExact(first: SeqNum, q: SeqNum, n: nat, i: nat)
    requires PowerOfTwo(n) && i < n
    ensures Slot(Plus(first, i), n) == Slot(q, n) <==> i == StepsToSlot(first, q, n)
  {
    hide Slot, PowerOfTwo;
    SlotShift(first, i, n);
  }

  /** Sequence numbers fewer than `n` steps after `first` are exactly that many slots away. */
  lemma StepsToSlotNear(first: SeqNum, q: SeqNum, n: nat)
    requires PowerOfTwo(n) && ForwardDiff(first, q) < n
    ensures StepsToSlot(first, q, n) == ForwardDiff(first, q)
  {
    PlusForwardDiff(first, q);
    StepsToSlotExact(first, q, n, ForwardDiff(first, q));
  }
}
