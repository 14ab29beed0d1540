/** `std::set` ordered by WebRTC's `DescendingSeqNumComp`: the elements listed oldest first, where `x` comes
    before `y` when `y` is ahead of `x` modulo `m`. The comparator is not transitive over the whole number
    space. A search is the scan for the first element on the far side of the key, which is what any search
    of the ordered elements finds as long as they and the key lie within half the number space. */
module OrderedNumbers {
  import opened SequenceNumbers

  /** The index of the first element that is not behind `k`. */
  function LowerBound(m: nat, s: seq<nat>, k: nat): (i: nat)
    ensures i <= |s|
    ensures forall j | 0 <= j < i :: AheadOfMod(m, k, s[j])
    ensures i < |s| ==> !AheadOfMod(m, k, s[i])
  {
    if s == [] || !AheadOfMod(m, k, s[0]) then 0 else 1 + LowerBound(m, s[1..], k)
  }

  /** The index of the first element that is ahead of `k`. */
  function UpperBound(m: nat, s: seq<nat>, k: nat): (i: nat)
    ensures i <= |s|
    ensures forall j | 0 <= j < i :: !AheadOfMod(m, s[j], k)
    ensures i < |s| ==> AheadOfMod(m, s[i], k)
  {
    if s == [] || AheadOfMod(m, s[0], k) then 0 else 1 + UpperBound(m, s[1..], k)
  }

  function Insert(m: nat, s: seq<nat>, k: nat): seq<nat> {
    var i := LowerBound(m, s, k);
    if i < |s| && s[i] == k then s else s[..i] + [k] + s[i..]
  }

  function Erase(m: nat, s: seq<nat>, k: nat): seq<nat> {
    var i := LowerBound(m, s, k);
    if i < |s| && s[i] == k then s[..i] + s[i + 1..] else s
  }

  /** All of `s` lies less than half the number space behind `top`, oldest first. */
  ghost predicate Behind(m: nat, s: seq<nat>, top: nat) {
    && (forall i | 0 <= i < |s| :: s[i] < m && 0 < 2 * DiffMod(m, s[i], top) < m)
    && (forall i, j | 0 <= i < j < |s| :: DiffMod(m, s[i], top) > DiffMod(m, s[j], top))
  }

  /** On such a list the comparator is a strict total order that agrees with the listing,
      although it is not transitive over the whole number space. */
  lemma BehindIsTotalOrder(m: nat, s: seq<nat>, top: nat)
    requires top < m && Behind(m, s, top)
    ensures forall i, j | 0 <= i < |s| && 0 <= j < |s| :: i < j <==> AheadOfMod(m, s[j], s[i])
  {
    forall i, j | 0 <= i < |s| && 0 <= j < |s| ensures i < j <==> AheadOfMod(m, s[j], s[i]) {
      if i < j {
        assert DiffMod(m, s[i], s[j]) == DiffMod(m, s[i], top) - DiffMod(m, s[j], top);
      } else if j < i {
        assert DiffMod(m, s[j], s[i]) == DiffMod(m, s[j], top) - DiffMod(m, s[i], top);
      }
    }
  }

  /** Three numbers a third of the space apart chase each other in a circle. */
  lemma ComparatorIsNotTransitive()
    ensures AheadOf(20000, 0) && AheadOf(40000, 20000) && AheadOf(0, 40000)
  {
  }

  /** The scan finds the one partition point there is. */
  lemma LowerBoundUnique(m: nat, s: seq<nat>, k: nat, i: nat)
    requires i <= |s|
    requires forall j | 0 <= j < i :: AheadOfMod(m, k, s[j])
    requires forall j | i <= j < |s| :: !AheadOfMod(m, k, s[j])
    ensures LowerBound(m, s, k) == i
  {
    var r := LowerBound(m, s, k);
    assert r < |s| ==> !AheadOfMod(m, k, s[r]);
    assert i < |s| ==> !AheadOfMod(m, k, s[i]);
  }

  lemma UpperBoundUnique(m: nat, s: seq<nat>, k: nat, i: nat)
    requires i <= |s|
    requires forall j | 0 <= j < i :: !AheadOfMod(m, s[j], k)
    requires forall j | i <= j < |s| :: AheadOfMod(m, s[j], k)
    ensures UpperBound(m, s, k) == i
  {
    var r := UpperBound(m, s, k);
    assert r < |s| ==> AheadOfMod(m, s[r], k);
    assert i < |s| ==> AheadOfMod(m, s[i], k);
  }

  /** A list of distinct positive distances up to `limit` has at most `limit` elements. */
  lemma {:induction false} DescendingBound(d: seq<int>, limit: nat)
    requires forall i | 0 <= i < |d| :: 0 < d[i] <= limit
    requires forall i, j | 0 <= i < j < |d| :: d[i] > d[j]
    ensures |d| <= limit
  {
    if d != [] {
      assert 0 < d[0] <= limit;
      assert forall i | 1 <= i < |d| :: d[i] < d[0];
      DescendingBound(d[1..], limit - 1);
    }
  }
}
