/**
  Ranges of addresses, which both allocators hand out.
 */
module Memory {

  /** The range of `m` bytes at `a` and that of `n` bytes at `b` share nothing. */
  predicate Apart(a: nat, m: nat, b: nat, n: nat) {
    a + m <= b || b + n <= a
  }
}
