/** What the hash tables of dict.c and HTMLparser.c share: sizes that are powers of two, and slots
    counted around the end of the array. */
module OpenAddressing {
  ghost predicate PowerOfTwo(n: nat) {
    n == 1 || (n > 1 && n % 2 == 0 && PowerOfTwo(n / 2))
  }

  lemma Doubled(n: nat)
    requires PowerOfTwo(n)
    ensures PowerOfTwo(2 * n)
  {
    var m := 2 * n;
    assert m / 2 == n && m % 2 == 0;
  }

  /** Below a power of two, the next power of two is at most that power. */
  lemma {:induction false} PowersBelow(n: nat, m: nat)
    requires PowerOfTwo(n) && PowerOfTwo(m) && n < m
    ensures 2 * n <= m
  {
    if n > 1 {
      PowersBelow(n / 2, m / 2);
    }
  }

  /** The slot `k` steps from the home slot. */
  function Steps(home: nat, k: nat, size: nat): (s: nat)
    requires home < size && k < size
    ensures s < size
  {
    if home + k < size then home + k else home + k - size
  }
}
