/**
 * The ticket space's sequence counter. -1 means random mode; Queue arms it
 * at 0; each Generate in sequential mode adds one and issues the new value,
 * and a counter that reaches the ceiling is set back to 1 after its ticket
 * is issued.
 */
module Sequencer {

  /** The counter value the reset compares against (ticketer.go's 100MM). */
  const Ceiling: int := 100_000_000

  /** Length of the cycle after the first reset: issued numbers run 2 .. Ceiling. */
  const Period: int := Ceiling - 1

  /** Random mode. */
  const Disabled: int := -1

  /** The values a single-threaded counter can hold between calls. */
  predicate ValidCounter(c: int) {
    Disabled <= c < Ceiling
  }

  /** Queue's compare-and-swap from -1 to 0. */
  function Arm(c: int): (c': int)
    requires ValidCounter(c)
    ensures ValidCounter(c') && c' >= 0
    ensures c >= 0 ==> c' == c
    ensures c == Disabled ==> c' == 0
  {
    if c == Disabled then 0 else c
  }

  /** The counter after one Generate. */
  function Advance(c: int): (c': int)
    requires ValidCounter(c)
    ensures ValidCounter(c')
    ensures c' == Disabled <==> c == Disabled
    ensures c >= 0 ==> 1 <= c'
    ensures c >= 0 ==> c' == c + 1 || (c + 1 == Ceiling && c' == 1)
  {
    if c > Disabled then
      var n := c + 1;
      if n == Ceiling then 1 else n
    else c
  }

  /** The sequence number the next Generate writes into bytes 0-3, when sequencing. */
  function Issued(c: int): (n: int)
    requires ValidCounter(c) && c >= 0
    ensures 1 <= n <= Ceiling
  {
    c + 1
  }

  /** The sequence numbers of the next `n` tickets. */
  function IssuedRun(c: int, n: nat): (s: seq<int>)
    requires ValidCounter(c) && c >= 0
    ensures |s| == n
    ensures forall i :: 0 <= i < n ==> 1 <= s[i] <= Ceiling
    decreases n
  {
    if n == 0 then [] else [Issued(c)] + IssuedRun(Advance(c), n - 1)
  }

  /** The counter after `k` tickets. */
  function CounterAfter(c: int, k: nat): (c': int)
    requires ValidCounter(c)
    ensures ValidCounter(c')
    decreases k
  {
    if k == 0 then c else CounterAfter(Advance(c), k - 1)
  }

  /** Queue is idempotent: two calls leave the counter where one call does. */
  lemma ArmIdempotent(c: int)
    requires ValidCounter(c)
    ensures Arm(Arm(c)) == Arm(c)
  {
  }

  /** Random mode is never left by generating. */
  lemma {:induction false} RandomModeStays(k: nat)
    ensures CounterAfter(Disabled, k) == Disabled
  {
    if k > 0 {
      RandomModeStays(k - 1);
    }
  }

  /** The `i`-th of a run of tickets carries the counter after `i` tickets, plus one. */
  lemma {:induction false} IssuedRunAt(c: int, n: nat, i: nat)
    requires ValidCounter(c) && c >= 0 && i < n
    ensures CounterAfter(c, i) >= 0
    ensures IssuedRun(c, n)[i] == CounterAfter(c, i) + 1
    decreases i
  {
    if i > 0 {
      IssuedRunAt(Advance(c), n - 1, i - 1);
    }
  }

  /** Without crossing the ceiling, a run of tickets carries consecutive numbers. */
  lemma {:induction false} RunWithoutReset(c: int, n: nat)
    requires ValidCounter(c) && c >= 0 && c + n <= Ceiling
    ensures forall i :: 0 <= i < n ==> IssuedRun(c, n)[i] == c + 1 + i
    decreases n
  {
    if n > 1 {
      assert Advance(c) == c + 1;
      RunWithoutReset(c + 1, n - 1);
    }
  }

  /** After Queue, the tickets are numbered 1, 2, 3, ... up to the ceiling. */
  lemma FreshRun(n: nat)
    requires n <= Ceiling
    ensures forall i :: 0 <= i < n ==> IssuedRun(Arm(Disabled), n)[i] == i + 1
  {
    RunWithoutReset(0, n);
  }

  /** The ticket after the one numbered 100,000,000 is numbered 2, not 1. */
  lemma AfterCeiling()
    ensures IssuedRun(Ceiling - 1, 3) == [Ceiling, 2, 3]
  {
    assert Advance(Ceiling - 1) == 1;
    assert Advance(1) == 2;
  }

  lemma ModSucc(a: nat)
    ensures (a + 1) % Period == if a % Period == Period - 1 then 0 else a % Period + 1
  {
  }

  /** Once running past zero, the counter cycles through 1 .. Ceiling - 1. */
  lemma {:induction false} CounterAfterCycle(c: int, k: nat)
    requires 1 <= c < Ceiling
    ensures CounterAfter(c, k) == (c - 1 + k) % Period + 1
    decreases k
  {
    if k > 0 {
      var c1 := Advance(c);
      CounterAfterCycle(c1, k - 1);
      ModSucc(c - 1);
      assert c1 - 1 == (c - 1 + 1) % Period;
      assert (c1 - 1 + (k - 1)) % Period == (c - 1 + k) % Period;
    }
  }

  lemma ModDistinct(a: nat, b: nat)
    requires a < b < a + Period
    ensures a % Period != b % Period
  {
  }

  /**
   * Any run of up to 99,999,999 consecutive tickets issued from a valid
   * sequencing counter carries pairwise distinct sequence numbers.
   */
  lemma RunDistinct(c: int, n: nat)
    requires ValidCounter(c) && c >= 0 && n <= Period
    ensures forall i, j :: 0 <= i < j < n ==> IssuedRun(c, n)[i] != IssuedRun(c, n)[j]
  {
    forall i, j | 0 <= i < j < n
      ensures IssuedRun(c, n)[i] != IssuedRun(c, n)[j]
    {
      IssuedRunAt(c, n, i);
      IssuedRunAt(c, n, j);
      if c == 0 {
        if i == 0 {
          CounterAfterCycle(1, j - 1);
        } else {
          CounterAfterCycle(1, i - 1);
          CounterAfterCycle(1, j - 1);
          ModDistinct(i - 1, j - 1);
        }
      } else {
        CounterAfterCycle(c, i);
        CounterAfterCycle(c, j);
        ModDistinct(c - 1 + i, c - 1 + j);
      }
    }
  }
}
