/** Small things several components share: bytes, a saturating clock difference, set sizes, splits. */
module Bytes {

  type Byte = b: int | 0 <= b < 0x100
}

module Clock {

  /** Elapsed time, zero when `t` is later than `now`. */
  function Since(now: nat, t: nat): nat {
    if now >= t then now - t else 0
  }
}

module Sets {

  lemma {:induction false} Smaller<T>(a: set<T>, b: set<T>)
    requires a <= b
    ensures |a| <= |b|
  {
    assert b == a + (b - a);
  }
}

module Seqs {

  lemma {:induction false} FrontAndLast<T>(s: seq<T>)
    requires s != []
    ensures s[..|s| - 1] + [s[|s| - 1]] == s
  {
  }
}
