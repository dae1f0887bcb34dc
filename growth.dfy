/**
 * The growth rule shared by the driver's two growable buffers: a capacity
 * that starts at a base and doubles whenever the buffer is full.
 */
module Growth {

  /** `cap` is reached from `base` by doubling zero or more times. */
  predicate Doubling(base: nat, cap: nat)
    decreases cap
  {
    cap == base || (cap > base && cap % 2 == 0 && Doubling(base, cap / 2))
  }

  /**
   * `n` elements fit in `cap`, and `cap` was never doubled before it had to
   * be: it is the base, or its half is too small for `n`.
   */
  predicate Tight(base: nat, n: nat, cap: nat) {
    Doubling(base, cap) && n <= cap && (cap == base || cap < 2 * n)
  }

  /** The capacity a buffer holding `n` elements ends up with: the smallest doubling of `base` that holds `n`. */
  function CapacityFor(base: nat, n: nat): nat
    requires base > 0
    decreases n
  {
    if n <= base then base else 2 * CapacityFor(base, (n + 1) / 2)
  }

  /** The capacity CapacityFor names is a tight one. */
  lemma {:induction false} CapacityForTight(base: nat, n: nat)
    requires base > 0
    ensures Tight(base, n, CapacityFor(base, n))
    decreases n
  {
    if n > base {
      CapacityForTight(base, (n + 1) / 2);
    }
  }

  /** A doubling is never below its base. */
  lemma {:induction false} DoublingAtLeastBase(base: nat, cap: nat)
    requires Doubling(base, cap)
    ensures base <= cap
    decreases cap
  {
    if cap != base {
      DoublingAtLeastBase(base, cap / 2);
    }
  }

  /** Only one capacity is tight for a given count: the one CapacityFor names. */
  lemma {:induction false} TightUnique(base: nat, n: nat, cap: nat)
    requires base > 0 && Tight(base, n, cap)
    ensures cap == CapacityFor(base, n)
    decreases cap
  {
    if cap != base {
      var half := cap / 2;
      DoublingAtLeastBase(base, half);
      assert half < n;
      TightUnique(base, (n + 1) / 2, half);
    }
  }

  /** Storing one more element in a buffer with room keeps its capacity tight. */
  lemma TightStore(base: nat, n: nat, cap: nat)
    requires Tight(base, n, cap) && n < cap
    ensures Tight(base, n + 1, cap)
  {
  }

  /** Doubling a full buffer and then storing one more element keeps its capacity tight. */
  lemma TightGrow(base: nat, n: nat, cap: nat)
    requires base > 0 && Tight(base, n, cap) && n == cap
    ensures Tight(base, n + 1, 2 * cap)
  {
    DoublingAtLeastBase(base, cap);
  }
}
