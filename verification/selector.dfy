/**
 * Next's choice among one bounded directory read: the head of the listing,
 * or the entry at a random 64-bit value modulo the listing's length.
 */
module Selector {
  import Arith

  /** Next reads at most this many entries (ticketer.go's ReadDir(1000)). */
  const MaxListing: nat := 1000

  /** The entries one bounded read returns: the first MaxListing in directory order. */
  function BoundedRead<T>(all: seq<T>): (r: seq<T>)
    ensures |r| <= MaxListing
    ensures r <= all
    ensures |all| <= MaxListing ==> r == all
  {
    if |all| <= MaxListing then all else all[..MaxListing]
  }

  /** The index Next takes among `count` entries. */
  function SelectIndex(count: nat, random: bool, r: nat): (i: nat)
    requires count > 0
    ensures i < count
    ensures !random ==> i == 0
  {
    if random then r % count else 0
  }

  /** How many of the random values 0 .. n-1 make Next pick index `k` of `count`. */
  function Hits(n: nat, count: nat, k: nat): nat
    requires count > 0
  {
    if n == 0 then 0
    else Hits(n - 1, count, k) + (if SelectIndex(count, true, n - 1) == k then 1 else 0)
  }

  /** Division of a successor: the remainder steps up by one or wraps to zero. */
  lemma DivModSucc(m: nat, count: nat)
    requires count > 0
    ensures (m + 1) % count == (if m % count + 1 < count then m % count + 1 else 0)
    ensures (m + 1) / count == (if m % count + 1 < count then m / count else m / count + 1)
  {
    var q, r := m / count, m % count;
    assert m == q * count + r;
    if r + 1 < count {
      Arith.DivModUnique(m + 1, count, q, r + 1);
    } else {
      assert m + 1 == (q + 1) * count + 0;
      Arith.DivModUnique(m + 1, count, q + 1, 0);
    }
  }

  /**
   * The random choice is as even as a remainder allows: among the random
   * values 0 .. n-1 (all 2^64 values of a `uint64` when n = 2^64), every
   * index is picked n / count or n / count + 1 times.
   */
  lemma {:induction false} HitsBalanced(n: nat, count: nat, k: nat)
    requires count > 0 && k < count
    ensures Hits(n, count, k) == n / count + (if k < n % count then 1 else 0)
  {
    if n > 0 {
      var m := n - 1;
      HitsBalanced(m, count, k);
      assert Hits(n, count, k) == Hits(m, count, k) + (if m % count == k then 1 else 0);
      DivModSucc(m, count);
    }
  }
}
