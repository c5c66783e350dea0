/** The capacity policy of `UniquePtrVector`: `expandFactor` doubles, and `maybeExpand`
    grows by one doubling when the requested room does not fit. The functions here
    are what the vector's methods are specified by; the lemmas follow a run of
    `pushBack` calls from any starting state. */
module Growth {

  /** `expandFactor`: the capacity a vector that has run out of room grows to. */
  function ExpandFactor(cap: nat): (c: nat)
    ensures c % 2 == 0 && c / 2 == cap
    ensures cap <= c && (c == cap <==> cap == 0)
  {
    cap * 2
  }

  /** The capacity after `maybeExpand(sz)` on a vector holding `size` slots of `cap`. */
  function GrownCapacity(size: nat, cap: nat, sz: nat): (c: nat)
    ensures cap <= c
    ensures c == cap || c == ExpandFactor(cap)
    ensures c != cap ==> cap < size + sz
    ensures c == cap <==> size + sz <= cap || cap == 0
  {
    if size + sz <= cap then cap else ExpandFactor(cap)
  }

  /** The capacity after `n` calls of `pushBack` on a vector of size `s0` and capacity `c0`. */
  function CapacityAfter(s0: nat, c0: nat, n: nat): (c: nat)
  {
    if n == 0 then c0 else GrownCapacity(s0 + n - 1, CapacityAfter(s0, c0, n - 1), 1)
  }

  /** The number of slots `maybeExpand` copies into a new buffer during those calls:
      each growth copies the `size` slots in use at that moment. */
  function RelocationsAfter(s0: nat, c0: nat, n: nat): (r: nat)
  {
    if n == 0 then 0
    else
      RelocationsAfter(s0, c0, n - 1)
      + (if s0 + n <= CapacityAfter(s0, c0, n - 1) then 0 else s0 + n - 1)
  }

  /** `c` is `c0` doubled some number of times (zero included). */
  predicate DoublingOf(c: nat, c0: nat)
    decreases c
  {
    c == c0 || (c0 < c && c % 2 == 0 && DoublingOf(c / 2, c0))
  }

  /** One `pushBack` on a consistent vector of positive capacity: the capacity either stays,
      or it doubles exactly when the vector was full; either way the new element fits. */
  lemma GrowthStep(size: nat, cap: nat)
    requires size <= cap && 0 < cap
    ensures size + 1 <= GrownCapacity(size, cap, 1)
    ensures GrownCapacity(size, cap, 1) == cap <==> size < cap
    ensures GrownCapacity(size, cap, 1) != cap ==> size == cap && GrownCapacity(size, cap, 1) == 2 * cap
  {
  }

  /** From any consistent state of positive capacity, every `pushBack` finds room:
      the capacity never shrinks and always covers the size. */
  lemma {:induction false} PushesFit(s0: nat, c0: nat, n: nat)
    requires s0 <= c0 && 0 < c0
    ensures c0 <= CapacityAfter(s0, c0, n)
    ensures s0 + n <= CapacityAfter(s0, c0, n)
  {
    if n > 0 {
      PushesFit(s0, c0, n - 1);
      GrowthStep(s0 + n - 1, CapacityAfter(s0, c0, n - 1));
    }
  }

  /** A vector built with capacity 0 (`UniquePtrVector(0)`) never grows, because
      `expandFactor(0) == 0`: however many elements are pushed, none of them fits. */
  lemma {:induction false} ZeroCapacityNeverGrows(n: nat)
    ensures CapacityAfter(0, 0, n) == 0
    ensures 0 < n ==> CapacityAfter(0, 0, n - 1) < n
  {
    if n > 0 {
      ZeroCapacityNeverGrows(n - 1);
    }
  }

  /** Growth is by doubling only: the capacity is always the starting capacity doubled
      some number of times. From the default capacity 1 it is a power of two. */
  lemma {:induction false} CapacityIsDoubling(s0: nat, c0: nat, n: nat)
    requires s0 <= c0 && 0 < c0
    ensures DoublingOf(CapacityAfter(s0, c0, n), c0)
  {
    if n > 0 {
      var c := CapacityAfter(s0, c0, n - 1);
      CapacityIsDoubling(s0, c0, n - 1);
      PushesFit(s0, c0, n - 1);
      if s0 + n > c {
        assert CapacityAfter(s0, c0, n) == 2 * c;
        assert (2 * c) / 2 == c;
      }
    }
  }

  /** Growth never overshoots: unless it never grew, the capacity is below twice the size. */
  lemma {:induction false} CapacityTight(s0: nat, c0: nat, n: nat)
    requires s0 <= c0 && 0 < c0
    ensures CapacityAfter(s0, c0, n) == c0 || CapacityAfter(s0, c0, n) < 2 * (s0 + n)
  {
    if n > 0 {
      CapacityTight(s0, c0, n - 1);
      PushesFit(s0, c0, n - 1);
    }
  }

  /** Every slot `maybeExpand` copies adds one slot of capacity: growth happens only when
      the vector is full, so each doubling copies exactly the old capacity. */
  lemma {:induction false} RelocationsMatchGrowth(s0: nat, c0: nat, n: nat)
    requires s0 <= c0 && 0 < c0
    ensures RelocationsAfter(s0, c0, n) + c0 == CapacityAfter(s0, c0, n)
  {
    if n > 0 {
      RelocationsMatchGrowth(s0, c0, n - 1);
      PushesFit(s0, c0, n - 1);
    }
  }

  /** Append is amortised constant time: after `n > 0` pushes, fewer than two slots have
      been copied per element held. */
  lemma AmortisedRelocations(s0: nat, c0: nat, n: nat)
    requires s0 <= c0 && 0 < c0 && 0 < n
    ensures RelocationsAfter(s0, c0, n) < 2 * (s0 + n)
  {
    RelocationsMatchGrowth(s0, c0, n);
    CapacityTight(s0, c0, n);
  }

  /** `maybeExpand(sz)` doubles only once: the requested room is there afterwards exactly
      when it fits in the current or the doubled capacity, so a request for more than the
      doubled capacity is left short. Every caller in the vector asks for one slot. */
  lemma SingleDoublingMayFallShort(size: nat, cap: nat, sz: nat)
    ensures size + sz <= GrownCapacity(size, cap, sz) <==> size + sz <= cap || size + sz <= ExpandFactor(cap)
    ensures size + sz > ExpandFactor(cap) ==> GrownCapacity(size, cap, sz) < size + sz
  {
  }
}
