/**
 * Index arithmetic of the state-vector simulator. A basis-state index is a
 * natural number whose bit j is the value of qubit j (qubit 0 is the least
 * significant bit). `nth_cleared` enumerates the indices whose bit `target`
 * is 0; setting that bit gives the partner index of the same amplitude pair.
 *
 * The shift and mask operators are defined on unbounded naturals, one bit at
 * a time from the least significant end, so that `nth_cleared` can be stated
 * exactly as it is written.
 */
module BitIndex {

  /** 2^k, the value of `1 << k`. */
  function Pow2(k: nat): (p: nat)
    ensures p >= 1
  {
    if k == 0 then 1 else 2 * Pow2(k - 1)
  }

  /** `x >> j`. */
  function Shr(x: nat, j: nat): (r: nat)
  {
    if j == 0 then x else Shr(x / 2, j - 1)
  }

  /** `(x >> j) & 1`: bit j of x. */
  function Bit(x: nat, j: nat): (b: nat)
    ensures b < 2
  {
    Shr(x, j) % 2
  }

  /** `a & b`. */
  function And(a: nat, b: nat): (r: nat)
  {
    if a == 0 then 0
    else 2 * And(a / 2, b / 2) + (if a % 2 == 1 && b % 2 == 1 then 1 else 0)
  }

  /** `a & ~m`: the bits of a that are clear in m. */
  function AndNot(a: nat, m: nat): (r: nat)
  {
    if a == 0 then 0
    else 2 * AndNot(a / 2, m / 2) + (if a % 2 == 1 && m % 2 == 0 then 1 else 0)
  }

  /** `a | b`. */
  function Or(a: nat, b: nat): (r: nat)
    decreases a + b
  {
    if a == 0 && b == 0 then 0
    else 2 * Or(a / 2, b / 2) + (if a % 2 == 1 || b % 2 == 1 then 1 else 0)
  }

  /** `(1 << target) - 1`: the `target` lowest bits set. */
  function LowMask(target: nat): (mask: nat)
  {
    Pow2(target) - 1
  }

  /**
   * `nth_cleared(n, target)`: `(n & mask) | ((n & ~mask) << 1)` with
   * `mask = (1 << target) - 1`.
   */
  function NthCleared(n: nat, target: nat): (zero: nat)
  {
    var mask := LowMask(target);
    Or(And(n, mask), 2 * AndNot(n, mask))
  }

  /** `zero_state | (1 << target)`: the partner of a zero-state index. */
  function Partner(zero: nat, target: nat): (one: nat)
  {
    Or(zero, Pow2(target))
  }

  /**
   * The i-th index (counting from 0) whose bit `target` is 0: i with a 0
   * bit inserted at position `target`. The recurrence that NthCleared
   * satisfies; specification only.
   */
  ghost function ZeroIndex(i: nat, target: nat): (zero: nat)
  {
    if target == 0 then 2 * i else 2 * ZeroIndex(i / 2, target - 1) + i % 2
  }

  /**
   * Removes bit `target` of m and moves the bits above it down one place:
   * the pair number of index m. Specification only.
   */
  ghost function Compress(m: nat, target: nat): (id: nat)
  {
    if target == 0 then m / 2 else 2 * Compress(m / 2, target - 1) + m % 2
  }

  // ---------------------------------------------------------------------
  // Bits of small building blocks

  lemma BitOfZero(j: nat)
    ensures Bit(0, j) == 0
  {
    if j > 0 {
      BitOfZero(j - 1);
    }
  }

  /** The bits of 2x + c: c at position 0, the bits of x shifted up one. */
  lemma BitOfDouble(x: nat, c: nat, j: nat)
    requires c < 2
    ensures Bit(2 * x + c, 0) == c
    ensures Bit(2 * x + c, j + 1) == Bit(x, j)
  {
    assert (2 * x + c) / 2 == x;
  }

  /** Bit j + 1 of x is bit j of x / 2. */
  lemma BitOfHalf(x: nat, j: nat)
    ensures Bit(x, j + 1) == Bit(x / 2, j)
    ensures Bit(x, 0) == x % 2
  {
  }

  /** `x >> (j + 1)` is `(x >> j) / 2`. */
  lemma {:induction false} ShrSucc(x: nat, j: nat)
    ensures Shr(x, j + 1) == Shr(x, j) / 2
  {
    if j > 0 {
      ShrSucc(x / 2, j - 1);
    }
  }

  /** `x & 1` is the lowest bit of x. */
  lemma AndOne(x: nat)
    ensures And(x, 1) == x % 2
  {
    if x > 0 {
      AndZero(x / 2);
    }
  }

  /** Pow2(t) has exactly one bit set, bit t. */
  lemma {:induction false} BitOfPow2(t: nat, j: nat)
    ensures Bit(Pow2(t), j) == if j == t then 1 else 0
  {
    if t == 0 {
      if j > 0 {
        BitOfHalf(1, j - 1);
        BitOfZero(j - 1);
      }
    } else if j == 0 {
    } else {
      BitOfHalf(Pow2(t), j - 1);
      BitOfPow2(t - 1, j - 1);
    }
  }

  // ---------------------------------------------------------------------
  // The recursive operators are the bitwise ones

  lemma {:induction false} AndBit(a: nat, b: nat, j: nat)
    ensures Bit(And(a, b), j) == if Bit(a, j) == 1 && Bit(b, j) == 1 then 1 else 0
  {
    if a == 0 {
      BitOfZero(j);
    } else if j == 0 {
    } else {
      BitOfDouble(And(a / 2, b / 2), if a % 2 == 1 && b % 2 == 1 then 1 else 0, j - 1);
      AndBit(a / 2, b / 2, j - 1);
    }
  }

  lemma {:induction false} AndNotBit(a: nat, m: nat, j: nat)
    ensures Bit(AndNot(a, m), j) == if Bit(a, j) == 1 && Bit(m, j) == 0 then 1 else 0
  {
    if a == 0 {
      BitOfZero(j);
    } else if j == 0 {
    } else {
      BitOfDouble(AndNot(a / 2, m / 2), if a % 2 == 1 && m % 2 == 0 then 1 else 0, j - 1);
      AndNotBit(a / 2, m / 2, j - 1);
    }
  }

  lemma {:induction false} OrBit(a: nat, b: nat, j: nat)
    ensures Bit(Or(a, b), j) == if Bit(a, j) == 1 || Bit(b, j) == 1 then 1 else 0
    decreases a + b
  {
    if a == 0 && b == 0 {
      BitOfZero(j);
    } else if j == 0 {
    } else {
      BitOfDouble(Or(a / 2, b / 2), if a % 2 == 1 || b % 2 == 1 then 1 else 0, j - 1);
      OrBit(a / 2, b / 2, j - 1);
    }
  }

  // ---------------------------------------------------------------------
  // Unfolding lemmas used by the recurrence for NthCleared

  lemma {:induction false} AndZero(n: nat)
    ensures And(n, 0) == 0
  {
    if n > 0 {
      AndZero(n / 2);
    }
  }

  lemma {:induction false} AndNotZero(n: nat)
    ensures AndNot(n, 0) == n
  {
    if n > 0 {
      AndNotZero(n / 2);
    }
  }

  lemma {:induction false} OrZero(x: nat)
    ensures Or(0, x) == x && Or(x, 0) == x
  {
    if x > 0 {
      OrZero(x / 2);
    }
  }

  lemma AndOdd(n: nat, m: nat)
    ensures And(n, 2 * m + 1) == 2 * And(n / 2, m) + n % 2
  {
  }

  lemma AndNotOdd(n: nat, m: nat)
    ensures AndNot(n, 2 * m + 1) == 2 * AndNot(n / 2, m)
  {
  }

  lemma OrEvenRight(a: nat, c: nat, b: nat)
    requires c < 2
    ensures Or(2 * a + c, 2 * b) == 2 * Or(a, b) + c
  {
    if 2 * a + c == 0 && 2 * b == 0 {
      assert Or(a, b) == 0;
    }
  }

  /** For target 0 every bit of n moves up one place. */
  lemma NthClearedZero(n: nat)
    ensures NthCleared(n, 0) == 2 * n
  {
    AndZero(n);
    AndNotZero(n);
    OrZero(2 * n);
  }

  /**
   * For target t + 1, bit 0 of n stays where it is and the rest is the same
   * problem one position lower.
   */
  lemma NthClearedSucc(n: nat, t: nat)
    ensures NthCleared(n, t + 1) == 2 * NthCleared(n / 2, t) + n % 2
  {
    var m := LowMask(t);
    assert LowMask(t + 1) == 2 * m + 1;
    AndOdd(n, m);
    AndNotOdd(n, m);
    OrEvenRight(And(n / 2, m), n % 2, 2 * AndNot(n / 2, m));
  }

  /** `nth_cleared` computes ZeroIndex: the mask expression inserts a 0 bit at the target. */
  lemma {:induction false} NthClearedIsZeroIndex(n: nat, t: nat)
    ensures NthCleared(n, t) == ZeroIndex(n, t)
  {
    if t == 0 {
      NthClearedZero(n);
    } else {
      NthClearedSucc(n, t - 1);
      NthClearedIsZeroIndex(n / 2, t - 1);
    }
  }

  // ---------------------------------------------------------------------
  // Arithmetic

  /** 2^(a+b) == 2^a * 2^b. */
  lemma {:induction false} Pow2Add(a: nat, b: nat)
    ensures Pow2(a + b) == Pow2(a) * Pow2(b)
  {
    if a > 0 {
      Pow2Add(a - 1, b);
    }
  }

  lemma MulAtLeast(d: int, a: int)
    requires d > 0 && a >= 1
    ensures d * a >= d
  {
  }

  /** Quotient and remainder are unique. */
  lemma DivModUnique(n: int, d: int, q: int, r: int)
    requires d > 0 && 0 <= r < d && n == d * q + r
    ensures n / d == q && n % d == r
  {
    var q', r' := n / d, n % d;
    assert d * q' + r' == d * q + r;
    assert d * (q' - q) == r - r';
    if q' > q {
      MulAtLeast(d, q' - q);
    } else if q' < q {
      MulAtLeast(d, q - q');
    }
  }

  /** Splitting a division by 2p into a halving and a division by p. */
  lemma ModDouble(n: nat, p: nat)
    requires p >= 1
    ensures n % (2 * p) == 2 * ((n / 2) % p) + n % 2
    ensures n / (2 * p) == (n / 2) / p
  {
    var h, b := n / 2, n % 2;
    var q, r := h / p, h % p;
    assert h == p * q + r;
    assert n == (2 * p) * q + (2 * r + b);
    DivModUnique(n, 2 * p, q, 2 * r + b);
  }

  // ---------------------------------------------------------------------
  // Properties of ZeroIndex

  /**
   * In closed form, ZeroIndex(n, t) is `n % 2^t + 2 * (n - n % 2^t)`: the
   * low t bits of n, plus the rest of n moved up one place.
   */
  lemma {:induction false} ZeroIndexArith(n: nat, t: nat)
    ensures ZeroIndex(n, t) == n % Pow2(t) + 2 * (n - n % Pow2(t))
  {
    if t > 0 {
      ZeroIndexArith(n / 2, t - 1);
      ModDouble(n, Pow2(t - 1));
    }
  }

  /**
   * Pair numbers come in runs of 2^t that share their upper bits: for
   * `first` a multiple of 2^t and r < 2^t, pair first + r has its zero
   * member at offset r from 2 * first.
   */
  lemma AlignedZeroIndex(first: nat, r: nat, t: nat)
    requires first % Pow2(t) == 0 && r < Pow2(t)
    ensures ZeroIndex(first + r, t) == 2 * first + r
  {
    var p := Pow2(t);
    DivModUnique(first + r, p, first / p, r);
    ZeroIndexArith(first + r, t);
  }

  /** The multiples of p below a positive multiple of p. */
  lemma AlignedPred(first: nat, p: nat)
    requires p >= 1 && first % p == 0 && first > 0
    ensures first >= p && (first - p) % p == 0
  {
    var q := first / p;
    assert first == p * q;
    if q == 0 {
      assert false;
    }
    assert first - p == p * (q - 1);
    DivModUnique(first - p, p, q - 1, 0);
  }

  /** 2^k is a multiple of 2^t for t <= k. */
  lemma {:induction false} Pow2Aligned(t: nat, k: nat)
    requires t <= k
    ensures Pow2(k) % Pow2(t) == 0
  {
    var d := Pow2(t);
    if t < k {
      Pow2Aligned(t, k - 1);
      var q := Pow2(k - 1) / d;
      assert Pow2(k - 1) == d * q;
      assert Pow2(k) == d * (2 * q) + 0;
      DivModUnique(Pow2(k), d, 2 * q, 0);
    } else {
      DivModUnique(d, d, 1, 0);
    }
  }

  /**
   * Bit by bit: bit `t` of the result is 0, the bits of n below t are kept,
   * and bit j >= t of n lands on bit j + 1.
   */
  lemma {:induction false} ZeroIndexBits(n: nat, t: nat, j: nat)
    ensures Bit(ZeroIndex(n, t), t) == 0
    ensures j < t ==> Bit(ZeroIndex(n, t), j) == Bit(n, j)
    ensures j >= t ==> Bit(ZeroIndex(n, t), j + 1) == Bit(n, j)
  {
    if t == 0 {
      BitOfDouble(n, 0, j);
    } else {
      var inner := ZeroIndex(n / 2, t - 1);
      BitOfDouble(inner, n % 2, t - 1);
      if j == 0 {
        ZeroIndexBits(n / 2, t - 1, 0);
      } else {
        BitOfDouble(inner, n % 2, j - 1);
        BitOfDouble(inner, n % 2, j);
        BitOfHalf(n, j - 1);
        ZeroIndexBits(n / 2, t - 1, j - 1);
      }
    }
  }

  /** ZeroIndex is strictly increasing in its first argument. */
  lemma {:induction false} ZeroIndexIncreasing(i: nat, j: nat, t: nat)
    requires i < j
    ensures ZeroIndex(i, t) < ZeroIndex(j, t)
  {
    if t > 0 {
      if i / 2 < j / 2 {
        ZeroIndexIncreasing(i / 2, j / 2, t - 1);
      }
    }
  }

  /**
   * For pair numbers below 2^(k-1) the zero index and its partner
   * `zero + 2^t` both stay below 2^k, the size of a k-qubit state.
   */
  lemma {:induction false} ZeroIndexBound(i: nat, t: nat, k: nat)
    requires t < k && i < Pow2(k - 1)
    ensures ZeroIndex(i, t) + Pow2(t) < Pow2(k)
  {
    if t > 0 {
      ZeroIndexBound(i / 2, t - 1, k - 1);
    }
  }

  /** Compress undoes ZeroIndex. */
  lemma {:induction false} CompressZeroIndex(i: nat, t: nat)
    ensures Compress(ZeroIndex(i, t), t) == i
  {
    if t > 0 {
      var inner := ZeroIndex(i / 2, t - 1);
      assert (2 * inner + i % 2) / 2 == inner;
      CompressZeroIndex(i / 2, t - 1);
    }
  }

  /**
   * ZeroIndex undoes Compress up to bit t: every index m is the zero index
   * of pair Compress(m, t), or its partner when bit t of m is set.
   */
  lemma {:induction false} ZeroIndexCompress(m: nat, t: nat)
    ensures Bit(m, t) == 0 ==> ZeroIndex(Compress(m, t), t) == m
    ensures Bit(m, t) == 1 ==> ZeroIndex(Compress(m, t), t) + Pow2(t) == m
  {
    var c := Compress(m, t);
    if t > 0 {
      var c' := Compress(m / 2, t - 1);
      assert c / 2 == c' && c % 2 == m % 2;
      ZeroIndexCompress(m / 2, t - 1);
      BitOfHalf(m, t - 1);
    }
  }

  /** Pair numbers of indices below 2^k are below 2^(k-1). */
  lemma {:induction false} CompressBound(m: nat, t: nat, k: nat)
    requires t < k && m < Pow2(k)
    ensures Compress(m, t) < Pow2(k - 1)
  {
    if t > 0 {
      CompressBound(m / 2, t - 1, k - 1);
    }
  }

  /** With bit t clear, `zero | (1 << t)` is `zero + 2^t`. */
  lemma {:induction false} PartnerAdds(z: nat, t: nat)
    requires Bit(z, t) == 0
    ensures Partner(z, t) == z + Pow2(t)
  {
    OrZero(z / 2);
    if t > 0 {
      BitOfHalf(z, t - 1);
      PartnerAdds(z / 2, t - 1);
      assert Pow2(t) % 2 == 0 && Pow2(t) / 2 == Pow2(t - 1);
    }
  }

  /** Adding 2^t to an index with bit t clear sets that bit and no other. */
  lemma {:induction false} PartnerBits(z: nat, t: nat, j: nat)
    requires Bit(z, t) == 0
    ensures Bit(z + Pow2(t), t) == 1
    ensures j != t ==> Bit(z + Pow2(t), j) == Bit(z, j)
  {
    var o := z + Pow2(t);
    if t == 0 {
      assert o / 2 == z / 2;
      if j > 0 {
        BitOfHalf(o, j - 1);
        BitOfHalf(z, j - 1);
      }
    } else {
      BitOfHalf(z, t - 1);
      assert o / 2 == z / 2 + Pow2(t - 1) && o % 2 == z % 2;
      BitOfHalf(o, t - 1);
      PartnerBits(z / 2, t - 1, if j == 0 then 0 else j - 1);
      if j > 0 {
        BitOfHalf(o, j - 1);
        BitOfHalf(z, j - 1);
      }
    }
  }

  /** Compress undoes ZeroIndex for the partner index too. */
  lemma {:induction false} CompressPartnerIndex(i: nat, t: nat)
    ensures Compress(ZeroIndex(i, t) + Pow2(t), t) == i
  {
    if t == 0 {
      assert (2 * i + 1) / 2 == i;
    } else {
      CompressPartnerIndex(i / 2, t - 1);
      var o := ZeroIndex(i, t) + Pow2(t);
      var o' := ZeroIndex(i / 2, t - 1) + Pow2(t - 1);
      assert o == 2 * o' + i % 2;
      DivModUnique(o, 2, o', i % 2);
    }
  }

  /** The zero index and the partner index of a pair share its pair number. */
  lemma CompressPartner(i: nat, t: nat)
    ensures Bit(ZeroIndex(i, t), t) == 0
    ensures Bit(ZeroIndex(i, t) + Pow2(t), t) == 1
    ensures Compress(ZeroIndex(i, t), t) == i
    ensures Compress(ZeroIndex(i, t) + Pow2(t), t) == i
  {
    ZeroIndexBits(i, t, 0);
    PartnerBits(ZeroIndex(i, t), t, 0);
    CompressZeroIndex(i, t);
    CompressPartnerIndex(i, t);
  }

  /** Below 2^(t+1), bit t is set exactly from 2^t on. */
  lemma {:induction false} TopBit(m: nat, t: nat)
    requires m < Pow2(t + 1)
    ensures Bit(m, t) == 1 <==> m >= Pow2(t)
  {
    if t > 0 {
      BitOfHalf(m, t - 1);
      TopBit(m / 2, t - 1);
    }
  }

  /**
   * A pair lies below 2^(t+1) exactly when its zero member lies below 2^t:
   * then the pair is (zero, zero + 2^t) with zero < 2^t.
   */
  lemma PairBelow(id: nat, t: nat)
    ensures ZeroIndex(id, t) < Pow2(t + 1) <==> ZeroIndex(id, t) < Pow2(t)
    ensures ZeroIndex(id, t) + Pow2(t) < Pow2(t + 1) <==> ZeroIndex(id, t) < Pow2(t)
  {
    var zero := ZeroIndex(id, t);
    ZeroIndexBits(id, t, 0);
    if zero < Pow2(t + 1) {
      TopBit(zero, t);
    }
  }

  /**
   * Distinct pair numbers give disjoint pairs: the two zero indices differ,
   * the two partners differ, and no zero index is another pair's partner.
   */
  lemma PairsDisjoint(i: nat, j: nat, t: nat)
    requires i != j
    ensures ZeroIndex(i, t) != ZeroIndex(j, t)
    ensures Partner(ZeroIndex(i, t), t) != Partner(ZeroIndex(j, t), t)
    ensures ZeroIndex(i, t) != Partner(ZeroIndex(j, t), t)
  {
    if i < j {
      ZeroIndexIncreasing(i, j, t);
    } else {
      ZeroIndexIncreasing(j, i, t);
    }
    ZeroIndexBits(i, t, 0);
    ZeroIndexBits(j, t, 0);
    PartnerAdds(ZeroIndex(i, t), t);
    PartnerAdds(ZeroIndex(j, t), t);
    PartnerBits(ZeroIndex(j, t), t, 0);
  }

  /** The zero indices of the pairs numbered below `count`. */
  ghost function ZeroIndices(count: nat, t: nat): (zeros: set<nat>)
  {
    set i: nat | i < count :: ZeroIndex(i, t)
  }

  /** The partner indices `zero | (1 << t)` of the pairs numbered below `count`. */
  ghost function PartnerIndices(count: nat, t: nat): (ones: set<nat>)
  {
    set i: nat | i < count :: Partner(ZeroIndex(i, t), t)
  }

  /** The indices below 2^k whose bit t is b. */
  ghost function WithBit(k: nat, t: nat, b: nat): (indices: set<nat>)
  {
    set m: nat | m < Pow2(k) && Bit(m, t) == b
  }

  /**
   * Over the pair numbers below 2^(k-1), the zero indices are exactly the
   * indices below 2^k with bit t clear, and the partners exactly those with
   * bit t set.
   */
  lemma PairIndexSets(k: nat, t: nat)
    requires t < k
    ensures ZeroIndices(Pow2(k - 1), t) == WithBit(k, t, 0)
    ensures PartnerIndices(Pow2(k - 1), t) == WithBit(k, t, 1)
  {
    var zeros, ones := ZeroIndices(Pow2(k - 1), t), PartnerIndices(Pow2(k - 1), t);
    var clear, withBit := WithBit(k, t, 0), WithBit(k, t, 1);
    forall x | x in zeros
      ensures x in clear
    {
      var i: nat :| i < Pow2(k - 1) && ZeroIndex(i, t) == x;
      ZeroIndexBound(i, t, k);
      ZeroIndexBits(i, t, 0);
    }
    forall x | x in ones
      ensures x in withBit
    {
      var i: nat :| i < Pow2(k - 1) && Partner(ZeroIndex(i, t), t) == x;
      ZeroIndexBound(i, t, k);
      CompressPartner(i, t);
      PartnerAdds(ZeroIndex(i, t), t);
    }
    forall m | m in clear
      ensures m in zeros
    {
      CompressBound(m, t, k);
      ZeroIndexCompress(m, t);
      assert ZeroIndex(Compress(m, t), t) == m;
    }
    forall m | m in withBit
      ensures m in ones
    {
      var c := Compress(m, t);
      CompressBound(m, t, k);
      ZeroIndexCompress(m, t);
      CompressPartner(c, t);
      PartnerAdds(ZeroIndex(c, t), t);
      assert Partner(ZeroIndex(c, t), t) == m;
    }
  }
}
