/** The source of randomness. Each `Math.floor(Math.random() * n)` in the
    reducer is replaced by one entry of an oracle: the entry at position `at`
    gives an index below `n`, and the caller moves on to position `at + 1`. */
module Oracle {

  /** The indices the random source yields, by position and range. */
  type Rolls = f: (nat, nat) -> nat | forall at: nat, n: nat :: n > 0 ==> f(at, n) < n
    witness (at: nat, n: nat) => 0

  /** The index the roll at position `at` selects among `n` candidates. */
  function Pick(rolls: Rolls, at: nat, n: nat): (k: nat)
    requires n > 0
    ensures k < n
  {
    rolls(at, n)
  }
}
