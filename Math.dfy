/** Size and level arithmetic of the buddy allocator: powers of two, the
    order a request is rounded up to, the level a block size sits at, and
    the index range of one level of the flat block tree. */
module BuddyMath {

  /** 2^k. */
  function Pow2(k: nat): (r: nat)
    ensures r >= 1
  {
    if k == 0 then 1 else 2 * Pow2(k - 1)
  }

  lemma {:induction false} Pow2Monotone(a: nat, b: nat)
    requires a <= b
    ensures Pow2(a) <= Pow2(b)
    decreases b
  {
    if a < b {
      Pow2Monotone(a, b - 1);
    }
  }

  /** Powers of two are strictly increasing, so comparing them compares the exponents. */
  lemma Pow2Increasing(a: nat, b: nat)
    ensures a < b <==> Pow2(a) < Pow2(b)
  {
    if a < b {
      Pow2Monotone(a + 1, b);
    } else {
      Pow2Monotone(b, a);
    }
  }

  lemma {:induction false} Pow2Add(a: nat, b: nat)
    ensures Pow2(a + b) == Pow2(a) * Pow2(b)
    decreases b
  {
    if b > 0 {
      Pow2Add(a, b - 1);
      calc {
        Pow2(a + b);
        2 * Pow2(a + b - 1);
        2 * (Pow2(a) * Pow2(b - 1));
        Pow2(a) * (2 * Pow2(b - 1));
      }
    }
  }

  /** `size` doubled j times, that is 2^j * size, written as the repeated
      doubling the lateral loop performs so that no product of two unknowns
      appears. */
  function Doubled(size: nat, j: nat): (r: nat)
    ensures r >= size
  {
    if j == 0 then size else 2 * Doubled(size, j - 1)
  }

  lemma {:induction false} DoubledIsProduct(size: nat, j: nat)
    ensures Doubled(size, j) == Pow2(j) * size
  {
    if j > 0 {
      DoubledIsProduct(size, j - 1);
      calc {
        Doubled(size, j);
        2 * (Pow2(j - 1) * size);
        (2 * Pow2(j - 1)) * size;
      }
    }
  }

  /** Doubling a power of two adds to its exponent. */
  lemma {:induction false} DoubledPow2(a: nat, j: nat)
    ensures Doubled(Pow2(a), j) == Pow2(a + j)
  {
    if j > 0 {
      DoubledPow2(a, j - 1);
    }
  }

  /** Doubling a doubled size once more is one more doubling step. */
  lemma {:induction false} DoubledShift(e: nat, j: nat)
    ensures Doubled(2 * e, j) == Doubled(e, j + 1)
  {
    if j > 0 {
      DoubledShift(e, j - 1);
    }
  }

  lemma {:induction false} DoubledIncreasing(size: nat, a: nat, b: nat)
    requires size >= 1 && a < b
    ensures Doubled(size, a) < Doubled(size, b)
    decreases b
  {
    if a < b - 1 {
      DoubledIncreasing(size, a, b - 1);
    }
  }

  lemma Pow2Ten()
    ensures Pow2(10) == 1024
  {
    assert Pow2(2) == 4;
    assert Pow2(5) == 32;
  }

  /** 2^30 is the largest power of two a signed 32-bit integer holds:
      get_adjusted_order's counter stays below 30 while its power is below
      2^30. */
  lemma Pow2Within30(k: nat)
    requires Pow2(k) < 0x4000_0000
    ensures k < 30
  {
    Pow2Ten();
    Pow2Add(10, 10);
    Pow2Add(20, 10);
    Pow2Increasing(k, 30);
  }

  lemma MulAtLeast(x: nat, s: nat)
    requires x >= 1
    ensures x * s >= s
  {
  }

  lemma MulStrictMono(x: nat, y: nat, s: nat)
    requires x < y
    ensures x * s + s <= y * s
  {
    MulAtLeast(y - x, s);
    assert y * s - x * s == (y - x) * s;
  }

  /** Dividing a multiple of `size` by `size` and multiplying back is exact. */
  lemma MulDivCancel(m: nat, size: nat)
    requires size >= 1
    ensures m * size / size == m
  {
    var n := m * size;
    var q := n / size;
    assert n == q * size + n % size;
    if q < m {
      assert (m - q) * size >= size by { MulAtLeast(m - q, size); }
      assert false;
    } else if q > m {
      assert (q - m) * size >= size by { MulAtLeast(q - m, size); }
      assert false;
    }
  }

  /** `x` rounded down to a multiple of `unit`, by repeated subtraction
      (RoundDownDiv relates it to free's divide-then-multiply). */
  function RoundDown(x: nat, unit: nat): (r: nat)
    requires unit >= 1
    ensures r <= x < r + unit
    decreases x
  {
    if x < unit then 0 else RoundDown(x - unit, unit) + unit
  }

  /** Rounding down is integer division followed by multiplication. */
  lemma {:induction false} RoundDownDiv(x: nat, unit: nat)
    requires unit >= 1
    ensures RoundDown(x, unit) == x / unit * unit
    decreases x
  {
    if x >= unit {
      RoundDownDiv(x - unit, unit);
      var q, r := (x - unit) / unit, (x - unit) % unit;
      MulSucc(q, unit);
      DivUnique(x, unit, q + 1, r);
    }
  }

  lemma MulSucc(q: nat, unit: nat)
    ensures (q + 1) * unit == q * unit + unit
  {
  }

  /** Quotient and remainder are determined by x == q * unit + r, r < unit. */
  lemma DivUnique(x: nat, unit: nat, q: nat, r: nat)
    requires unit >= 1 && r < unit && x == q * unit + r
    ensures x / unit == q
  {
    var q', r' := x / unit, x % unit;
    if q' < q {
      MulStrictMono(q', q, unit);
      assert false;
    } else if q < q' {
      MulStrictMono(q, q', unit);
      assert false;
    }
  }

  /** A multiple of unit is its own rounding. */
  lemma {:induction false} RoundDownMultiple(m: nat, unit: nat)
    requires unit >= 1
    ensures RoundDown(m * unit, unit) == m * unit
  {
    RoundDownDiv(m * unit, unit);
    MulDivCancel(m, unit);
  }

  /** n / 2, the halving of get_level and the parent step of the walks. */
  function Half(n: nat): (h: nat)
    ensures n == 2 * h || n == 2 * h + 1
  {
    n / 2
  }

  lemma HalfDiv(n: nat)
    ensures Half(n) == n / 2
    ensures n % 2 == 1 <==> n == 2 * Half(n) + 1
  {
  }

  /** n is odd. */
  predicate Odd(n: nat)
  {
    n == 2 * Half(n) + 1
  }

  /** n is an exact power of two. */
  predicate IsPow2(n: nat)
    decreases n
  {
    n == 1 || (n >= 2 && n == 2 * Half(n) && IsPow2(Half(n)))
  }

  function Log2(n: nat): (k: nat)
    requires IsPow2(n)
    ensures Pow2(k) == n
    decreases n
  {
    if n == 1 then 0 else 1 + Log2(Half(n))
  }

  // ---------------------------------------------------------------------
  // get_adjusted_order

  /** The exponent at which get_adjusted_order's counting loop, started at
      exponent `i`, stops: the first exponent from `i` on whose power of two
      is at least `size`. */
  function AdjustedOrderFrom(size: nat, i: nat): (k: nat)
    ensures i <= k && size <= Pow2(k)
    ensures forall j :: i <= j < k ==> Pow2(j) < size
    decreases size - Pow2(i)
  {
    if size <= Pow2(i) then i else AdjustedOrderFrom(size, i + 1)
  }

  /** The order a request of `size` bytes is rounded up to: the smallest
      k >= 2 with 2^k >= size. */
  function AdjustedOrder(size: nat): (k: nat)
    ensures 2 <= k && size <= Pow2(k)
    ensures forall j :: 2 <= j < k ==> Pow2(j) < size
  {
    AdjustedOrderFrom(size, 2)
  }

  /** The two ensures of AdjustedOrder single out one exponent. */
  lemma AdjustedOrderUnique(size: nat, k: nat)
    requires 2 <= k && size <= Pow2(k)
    requires forall j :: 2 <= j < k ==> Pow2(j) < size
    ensures k == AdjustedOrder(size)
  {
  }

  /** Requests up to 4 bytes get order 2; above that the order is tight:
      the next smaller power of two would not hold the request. */
  lemma AdjustedOrderTight(size: nat)
    ensures size <= 4 ==> AdjustedOrder(size) == 2
    ensures AdjustedOrder(size) > 2 ==> Pow2(AdjustedOrder(size) - 1) < size
  {
    var k := AdjustedOrder(size);
    if size <= 4 {
      assert Pow2(2) == 4;
      AdjustedOrderUnique(size, 2);
    }
  }

  /** A power of two at or above the minimum order is its own rounding. */
  lemma {:induction false} AdjustedOrderOfPow2(k: nat)
    requires k >= 2
    ensures AdjustedOrder(Pow2(k)) == k
  {
    forall j | 2 <= j < k
      ensures Pow2(j) < Pow2(k)
    {
      Pow2Increasing(j, k);
    }
    AdjustedOrderUnique(Pow2(k), k);
  }

  /** A larger request never gets a smaller order. */
  lemma AdjustedOrderMonotone(a: nat, b: nat)
    requires a <= b
    ensures AdjustedOrder(a) <= AdjustedOrder(b)
  {
  }

  // ---------------------------------------------------------------------
  // get_level

  /** `a` halved `k` times with integer division; halving never grows. */
  function Halve(a: nat, k: nat): (r: nat)
    ensures r <= a
    decreases k
  {
    if k == 0 then a else Halve(Half(a), k - 1)
  }

  /** Repeated halving of `a` reaches `b`: the loop of get_level, which
      halves until it meets the block size, terminates exactly then, and
      only for a block size no larger than the heap. */
  predicate HalvesTo(a: nat, b: nat)
    ensures HalvesTo(a, b) ==> b <= a
    decreases a
  {
    a == b || (a > b && HalvesTo(Half(a), b))
  }

  /** Whenever some number of halvings of `a` gives `b`, HalvesTo holds
      (the converse is the first ensures of Level). */
  lemma {:induction false} HalvingReaches(a: nat, b: nat, k: nat)
    requires Halve(a, k) == b
    ensures HalvesTo(a, b)
    decreases k
  {
    if k > 0 {
      HalvingReaches(Half(a), b, k - 1);
    }
  }

  /** The number of halvings get_level counts: the first k at which `a`
      halved k times equals `b`. */
  function Level(a: nat, b: nat): (k: nat)
    requires HalvesTo(a, b)
    ensures Halve(a, k) == b
    decreases a
  {
    if a == b then 0 else 1 + Level(Half(a), b)
  }

  /** No fewer halvings reach b: Level counts the first time get_level's
      loop meets the block size. */
  lemma {:induction false} LevelFirst(a: nat, b: nat, j: nat)
    requires HalvesTo(a, b) && j < Level(a, b)
    ensures Halve(a, j) != b
    decreases a
  {
    if j > 0 {
      LevelFirst(Half(a), b, j - 1);
    }
  }

  /** Halving 2^n k times. */
  lemma {:induction false} HalvePow2(n: nat, k: nat)
    ensures Halve(Pow2(n), k) == if k <= n then Pow2(n - k) else 0
    decreases k
  {
    if k > 0 {
      if n == 0 {
        assert Half(Pow2(n)) == 0;
        HalveZero(k - 1);
      } else {
        assert Half(Pow2(n)) == Pow2(n - 1);
        HalvePow2(n - 1, k - 1);
      }
    }
  }

  lemma {:induction false} HalveZero(k: nat)
    ensures Halve(0, k) == 0
    decreases k
  {
    if k > 0 {
      HalveZero(k - 1);
    }
  }

  /** In a heap of 2^n bytes, a block of 2^m bytes (m <= n) sits at level n - m. */
  lemma LevelOfPow2(n: nat, m: nat)
    requires m <= n
    ensures HalvesTo(Pow2(n), Pow2(m))
    ensures Level(Pow2(n), Pow2(m)) == n - m
  {
    HalvePow2(n, n - m);
    HalvingReaches(Pow2(n), Pow2(m), n - m);
    var l := Level(Pow2(n), Pow2(m));
    HalvePow2(n, l);
    assert l <= n;
    Pow2Increasing(n - l, m);
    Pow2Increasing(m, n - l);
  }

  /** A size that 2^n halves down to and that is at least 4 is the power of
      two at a level no deeper than n - 2. */
  lemma LevelOfBlockSize(n: nat, b: nat)
    requires HalvesTo(Pow2(n), b) && b >= 4
    ensures Level(Pow2(n), b) <= n - 2
    ensures b == Pow2(n - Level(Pow2(n), b))
  {
    var l := Level(Pow2(n), b);
    HalvePow2(n, l);
    assert l <= n;
    assert Pow2(2) == 4;
    Pow2Increasing(n - l, 2);
  }

  // ---------------------------------------------------------------------
  // get_block_range_start_end

  /** Number of nodes in the first `levels` levels of a complete binary tree. */
  function TreeSize(levels: nat): nat
  {
    if levels == 0 then 0 else TreeSize(levels - 1) + Pow2(levels - 1)
  }

  lemma {:induction false} TreeSizeClosed(levels: nat)
    ensures TreeSize(levels) == Pow2(levels) - 1
  {
    if levels > 0 {
      TreeSizeClosed(levels - 1);
    }
  }

  /** Every level above the leaves of a tree of order - 1 levels lies
      inside it. */
  lemma LevelFits(order: nat, level: nat)
    requires 2 <= order && level <= order - 2
    ensures TreeSize(level + 1) <= Pow2(order - 1) - 1
    ensures Pow2(order) <= 0x1_0000_0000 ==> Pow2(level) <= 0x4000_0000
  {
    TreeSizeClosed(level + 1);
    Pow2Monotone(level + 1, order - 1);
    Pow2Add(level, 2);
    assert Pow2(2) == 4;
    Pow2Monotone(level + 2, order);
  }

  /** A tree of order - 1 levels has an odd number of nodes. */
  lemma TreeOdd(order: nat)
    requires 2 <= order
    ensures Odd(Pow2(order - 1) - 1)
  {
    assert Pow2(order - 1) - 1 == 2 * (Pow2(order - 2) - 1) + 1;
  }

  /** The inclusive index range of the nodes at `level` in the breadth-first
      layout: it starts right after all shallower levels and holds 2^level
      nodes. Level 30, of 2^30 nodes, is the last whose bounds fit the
      signed 32-bit arithmetic of the original. */
  function BlockRange(level: nat): (r: (nat, nat))
    requires Pow2(level) <= 0x4000_0000
    ensures r.0 == TreeSize(level)
    ensures r.1 + 1 == TreeSize(level + 1)
    ensures r.1 + 1 - r.0 == Pow2(level)
  {
    TreeSizeClosed(level);
    TreeSizeClosed(level + 1);
    var start := Pow2(level) - 1;
    (start, start * 2)
  }
}
