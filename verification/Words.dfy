/** 32-bit words: the modulus, the wrapping increment, and equality of counters that wrap. */
module Words {
  const WORD: int := 0x1_0000_0000

  function Inc(x: int): int {
    (x + 1) % WORD
  }

  /** Equal modulo 2^32. */
  ghost predicate Same32(x: int, y: int) {
    (x - y) % WORD == 0
  }

  lemma {:induction false} SameInc(x: int, y: int)
    requires Same32(x, y)
    ensures Same32(Inc(x), y + 1)
  {
  }

  lemma {:induction false} AddMultiple(x: int, k: int)
    ensures (x + WORD * k) % WORD == x % WORD
  {
  }
}
