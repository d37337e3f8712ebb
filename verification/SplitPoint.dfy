/** The split of an RFC 6962 tree (section 2.1): the largest power of two strictly below the number of leaves,
    found by doubling under JavaScript's 32-bit shift.
 */
module SplitPoint {

  predicate PowerOfTwo(k: int) {
    k == 1 || (k > 1 && k % 2 == 0 && PowerOfTwo(k / 2))
  }

  /** Two different powers of two are at least a factor of two apart. */
  lemma {:induction false} PowersAreSparse(a: int, b: int)
    requires PowerOfTwo(a) && PowerOfTwo(b) && a < b
    ensures 2 * a <= b
    decreases b
  {
    if a > 1 {
      PowersAreSparse(a / 2, b / 2);
    }
  }

  function Doubled(k: int, n: int): (r: int)
    requires 0 < k < n
    ensures 0 < r < n
    decreases n - k
  {
    if 2 * k < n then Doubled(2 * k, n) else k
  }

  /** Where a tree of n leaves splits. */
  function Split(n: int): (k: int)
    requires n >= 2
    ensures 0 < k < n
  {
    Doubled(1, n)
  }

  lemma {:induction false} DoubledBounds(k: int, n: int)
    requires PowerOfTwo(k) && k < n
    ensures PowerOfTwo(Doubled(k, n)) && n <= 2 * Doubled(k, n)
    decreases n - k
  {
    if 2 * k < n {
      DoubledBounds(2 * k, n);
    }
  }

  /** The split is a power of two, below n and at least half of it. */
  lemma SplitBounds(n: int)
    requires n >= 2
    ensures PowerOfTwo(Split(n)) && Split(n) < n <= 2 * Split(n)
  {
    DoubledBounds(1, n);
  }

  /** No other number is. */
  lemma SplitUnique(n: int, k: int)
    requires n >= 2 && PowerOfTwo(k) && k < n <= 2 * k
    ensures k == Split(n)
  {
    SplitBounds(n);
    if k < Split(n) {
      PowersAreSparse(k, Split(n));
    } else if Split(n) < k {
      PowersAreSparse(Split(n), k);
    }
  }

  /** A tree cut inside its right part still splits at the same place. */
  lemma SplitOfPrefix(m: int, n: int)
    requires n >= 2 && Split(n) < m <= n
    ensures Split(m) == Split(n)
  {
    SplitBounds(n);
    SplitUnique(m, Split(n));
  }

  /** The least c with n <= 2^c. */
  function CeilLog2(n: int): (c: nat)
    requires n >= 1
  {
    if n == 1 then 0 else 1 + CeilLog2((n + 1) / 2)
  }

  lemma {:induction false} CeilLog2Monotone(a: int, b: int)
    requires 1 <= a <= b
    ensures CeilLog2(a) <= CeilLog2(b)
    decreases b
  {
    if a > 1 {
      CeilLog2Monotone((a + 1) / 2, (b + 1) / 2);
    }
  }

  /** Each side of a split is at least one level shallower. */
  lemma {:induction false} CeilLog2OfSplit(n: int)
    requires n >= 2
    ensures CeilLog2(Split(n)) + 1 == CeilLog2(n)
    ensures CeilLog2(n - Split(n)) + 1 <= CeilLog2(n)
  {
    var k := Split(n);
    SplitBounds(n);
    CeilLog2Monotone(n, 2 * k);
    CeilLog2Monotone(n - k, k);
    HalfAboveSplit(k, n);
  }

  lemma {:induction false} HalfAboveSplit(k: int, n: int)
    requires PowerOfTwo(k) && k < n
    ensures CeilLog2(k) + 1 <= CeilLog2(n)
    decreases k
  {
    if k > 1 {
      HalfAboveSplit(k / 2, (n + 1) / 2);
    }
  }

  // ---------- The loop under 32-bit shifts ----------

  /** The largest tree the doubling loop can handle. */
  const MAX_LEAVES := 0x4000_0000

  /** `k << 1` in JavaScript: the low 32 bits, read as a signed integer. */
  function ShiftLeft(k: int): int {
    var u := 2 * k % 0x1_0000_0000;
    if u >= 0x8000_0000 then u - 0x1_0000_0000 else u
  }

  function Exp2(j: nat): (r: int)
    ensures r >= 1
  {
    if j == 0 then 1 else 2 * Exp2(j - 1)
  }

  lemma {:induction false} Exp2IsPower(j: nat)
    ensures PowerOfTwo(Exp2(j))
  {
    if j > 0 {
      Exp2IsPower(j - 1);
      var half := Exp2(j - 1);
      assert 2 * half / 2 == half && half >= 1;
    }
  }

  lemma {:induction false} Exp2Add(i: nat, j: nat)
    ensures Exp2(i + j) == Exp2(i) * Exp2(j)
  {
    if j > 0 {
      Exp2Add(i, j - 1);
    }
  }

  lemma {:induction false} Exp2Monotone(i: nat, j: nat)
    requires i <= j
    ensures 1 <= Exp2(i) <= Exp2(j)
  {
    if i > 0 {
      Exp2Monotone(i - 1, j - 1);
    } else if j > 0 {
      Exp2Monotone(i, j - 1);
    }
  }

  /** CeilLog2 names the least power of two that is not below n. */
  lemma {:induction false} CeilLog2Exact(n: int, e: nat)
    requires 1 <= n <= Exp2(e) && (e > 0 ==> Exp2(e - 1) < n)
    ensures e == CeilLog2(n)
    decreases e
  {
    if e > 0 {
      Exp2Monotone(0, e - 1);
      CeilLog2Exact((n + 1) / 2, e - 1);
    }
  }

  lemma {:induction false} CeilLog2Bounds(n: int)
    requires n >= 1
    ensures n <= Exp2(CeilLog2(n)) && (n > 1 ==> Exp2(CeilLog2(n) - 1) < n)
  {
    if n > 1 {
      CeilLog2Bounds((n + 1) / 2);
    }
  }

  lemma MaxLeavesIsPower()
    ensures Exp2(30) == MAX_LEAVES && PowerOfTwo(MAX_LEAVES)
  {
    assert Exp2(3) == 8 && Exp2(5) == 4 * Exp2(3);
    Exp2Add(5, 5);
    Exp2Add(10, 10);
    Exp2Add(20, 10);
    Exp2IsPower(30);
  }

  lemma ShiftCases()
    ensures forall k :: 0 <= k <= 0x2000_0000 ==> ShiftLeft(k) == 2 * k
    ensures ShiftLeft(MAX_LEAVES) == -0x8000_0000 && ShiftLeft(-0x8000_0000) == 0
  {
  }

  method LargestPowerOfTwoLessThan(n: int) returns (k: int)
    requires n <= MAX_LEAVES
    ensures n >= 2 ==> k == Split(n)
    ensures n <= 1 ==> k == 1
  {
    MaxLeavesIsPower();
    ShiftCases();
    k := 1;
    while ShiftLeft(k) < n
      invariant PowerOfTwo(k) && 1 <= k <= 0x2000_0000 && (k == 1 || k < n)
      invariant ShiftLeft(k) == 2 * k
      decreases n - k
    {
      PowersAreSparse(2 * k, MAX_LEAVES);
      k := ShiftLeft(k);
    }
    if n >= 2 {
      SplitUnique(n, k);
    }
  }

  /** The loop variable after the given number of rounds, were the guard ignored. */
  function Round(j: nat): int {
    if j == 0 then 1 else ShiftLeft(Round(j - 1))
  }

  lemma {:induction false} EarlyRounds(j: nat)
    requires j <= 30
    ensures Round(j) == Exp2(j) && 1 <= Exp2(j) <= MAX_LEAVES
  {
    Exp2Monotone(j, 30);
    MaxLeavesIsPower();
    if j > 0 {
      EarlyRounds(j - 1);
      ShiftCases();
    }
  }

  /** Once the doubling overflows, the loop variable is negative and then zero for ever. */
  lemma {:induction false} LateRounds(j: nat)
    requires j >= 31
    ensures Round(j) == if j == 31 then -0x8000_0000 else 0
  {
    ShiftCases();
    if j == 31 {
      EarlyRounds(30);
      MaxLeavesIsPower();
    } else {
      LateRounds(j - 1);
    }
  }

  /** The loop leaves its guard after some round exactly for the sizes up to 2^30; beyond, it never ends. */
  lemma LoopEndsExactly(n: int)
    ensures (exists j: nat :: ShiftLeft(Round(j)) >= n) <==> n <= MAX_LEAVES
  {
    if n <= MAX_LEAVES {
      EarlyRounds(30);
      MaxLeavesIsPower();
      assert ShiftLeft(Round(29)) >= n;
    } else {
      forall j: nat
        ensures ShiftLeft(Round(j)) < n
      {
        assert ShiftLeft(Round(j)) == Round(j + 1);
        if j < 30 {
          EarlyRounds(j + 1);
        } else {
          LateRounds(j + 1);
        }
      }
    }
  }
}
