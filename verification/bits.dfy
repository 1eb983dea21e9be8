/** Shifts, low bits and bit reversal on naturals, one bit at a time. */
module Bits {
  /** n << k */
  function Shl(n: nat, k: nat): nat {
    if k == 0 then n else 2 * Shl(n, k - 1)
  }

  /** n >> k */
  function Shr(n: nat, k: nat): nat {
    if k == 0 then n else Shr(n / 2, k - 1)
  }

  /** n & ((1 << k) - 1) */
  function Low(n: nat, k: nat): nat {
    if k == 0 then 0 else n % 2 + 2 * Low(n / 2, k - 1)
  }

  /** The low k bits of n in reverse order. */
  function Reverse(n: nat, k: nat): nat {
    if k == 0 then 0 else Shl(n % 2, k - 1) + Reverse(n / 2, k - 1)
  }

  // ---------------------------------------------------------------- shifts

  lemma {:induction false} ShlSum(a: nat, b: nat, k: nat)
    ensures Shl(a + b, k) == Shl(a, k) + Shl(b, k)
  {
    if k > 0 {
      ShlSum(a, b, k - 1);
    }
  }

  lemma {:induction false} ShlTwice(n: nat, j: nat, k: nat)
    ensures Shl(Shl(n, j), k) == Shl(n, j + k)
  {
    if k > 0 {
      ShlTwice(n, j, k - 1);
    }
  }

  lemma {:induction false} ShlDouble(n: nat, k: nat)
    ensures Shl(2 * n, k) == 2 * Shl(n, k)
  {
    if k > 0 {
      ShlDouble(n, k - 1);
    }
  }

  lemma {:induction false} ShrTwice(n: nat, j: nat, k: nat)
    ensures Shr(Shr(n, j), k) == Shr(n, j + k)
  {
    if j > 0 {
      ShrTwice(n / 2, j - 1, k);
    }
  }

  lemma {:induction false} ShlOrder(a: nat, b: nat, k: nat)
    ensures a < b ==> Shl(a, k) + Shl(1, k) <= Shl(b, k)
    ensures Shl(0, k) == 0 && Shl(1, k) > 0
  {
    if k > 0 {
      ShlOrder(a, b, k - 1);
    }
  }

  lemma ShlLe(a: nat, b: nat, k: nat)
    ensures a <= b <==> Shl(a, k) <= Shl(b, k)
  {
  }

  lemma {:induction false} ShlGrows(n: nat, k: nat)
    ensures Shl(n, k) >= n && (k > 0 ==> Shl(n, k) >= 2 * n)
  {
    if k > 0 {
      ShlGrows(n, k - 1);
    }
  }

  lemma {:induction false} LowBound(n: nat, k: nat)
    ensures Low(n, k) < Shl(1, k)
  {
    if k > 0 {
      LowBound(n / 2, k - 1);
    }
  }

  /** A number is its low k bits and the rest. */
  lemma {:induction false} Split(n: nat, k: nat)
    ensures n == Shl(Shr(n, k), k) + Low(n, k)
  {
    if k > 0 {
      Split(n / 2, k - 1);
    }
  }

  /** ... and only so. */
  lemma {:induction false} Join(hi: nat, lo: nat, k: nat)
    requires lo < Shl(1, k)
    ensures Shr(Shl(hi, k) + lo, k) == hi && Low(Shl(hi, k) + lo, k) == lo
  {
    if k > 0 {
      assert (Shl(hi, k) + lo) / 2 == Shl(hi, k - 1) + lo / 2;
      Join(hi, lo / 2, k - 1);
    }
  }

  lemma LowOfSmall(n: nat, k: nat)
    requires n < Shl(1, k)
    ensures Low(n, k) == n && Shr(n, k) == 0
  {
  }

  lemma {:induction false} LowLow(n: nat, j: nat, k: nat)
    requires j <= k
    ensures Low(Low(n, k), j) == Low(n, j)
  {
    if j > 0 {
      LowLow(n / 2, j - 1, k - 1);
    }
  }

  lemma ShlDoubles(j: nat, k: nat)
    requires k == j + 8
    ensures Shl(1, k) == 256 * Shl(1, j) && Shl(1, k - 1) == 128 * Shl(1, j)
  {
    assert Shl(1, k) == 2 * Shl(1, k - 1) == 4 * Shl(1, k - 2) == 8 * Shl(1, k - 3) == 16 * Shl(1, k - 4);
    assert Shl(1, k - 4) == 2 * Shl(1, k - 5) == 4 * Shl(1, k - 6) == 8 * Shl(1, k - 7) == 16 * Shl(1, k - 8);
  }

  lemma ShlValues()
    ensures Shl(1, 1) == 2 && Shl(1, 4) == 16 && Shl(1, 8) == 256 && Shl(1, 9) == 512
    ensures Shl(1, 15) == 0x8000 && Shl(1, 16) == 0x1_0000
    ensures Shl(1, 24) == 0x100_0000 && Shl(1, 32) == 0x1_0000_0000
  {
    assert Shl(1, 8) == 256;
    ShlDoubles(8, 16);
    ShlDoubles(16, 24);
    ShlDoubles(24, 32);
  }

  // ---------------------------------------------------------------- reversal

  lemma {:induction false} ReverseBound(n: nat, k: nat)
    ensures Reverse(n, k) < Shl(1, k)
  {
    if k > 0 {
      ReverseBound(n / 2, k - 1);
      ShlOrder(0, 1, k - 1);
    }
  }

  /** Reversing s + k bits puts the reversal of the low s bits on top. */
  lemma {:induction false} ReverseSplit(n: nat, s: nat, k: nat)
    ensures Reverse(n, s + k) == Shl(Reverse(n, s), k) + Reverse(Shr(n, s), k)
  {
    if s == 0 {
      ShlOrder(0, 0, k);
    } else {
      ReverseSplit(n / 2, s - 1, k);
      ShlSum(Shl(n % 2, s - 1), Reverse(n / 2, s - 1), k);
      ShlTwice(n % 2, s - 1, k);
    }
  }

  lemma ReverseTop(n: nat, k: nat, s: nat)
    requires s <= k
    ensures Shr(Reverse(n, k), k - s) == Reverse(n, s)
  {
    ReverseSplit(n, s, k - s);
    ReverseBound(Shr(n, s), k - s);
    Join(Reverse(n, s), Reverse(Shr(n, s), k - s), k - s);
  }

  /** Only the low k bits matter. */
  lemma {:induction false} ReverseLow(n: nat, k: nat)
    ensures Reverse(Low(n, k), k) == Reverse(n, k)
  {
    if k > 0 {
      ReverseLow(n / 2, k - 1);
    }
  }

  lemma {:induction false} ReverseTwice(n: nat, k: nat)
    ensures Reverse(Reverse(n, k), k) == Low(n, k)
  {
    hide Shr;
    if k > 0 {
      var x := Reverse(n, k);
      var r := Reverse(n / 2, k - 1);
      ReverseBound(n / 2, k - 1);
      Join(n % 2, r, k - 1);
      ReverseSplit(x, k - 1, 1);
      ReverseLow(x, k - 1);
      ReverseTwice(n / 2, k - 1);
      assert Reverse(n % 2, 1) == n % 2;
    }
  }

  /** Bit b of a number. */
  function Bit(n: nat, b: nat): nat {
    Shr(n, b) % 2
  }

  lemma {:induction false} ReverseBit(n: nat, k: nat, b: nat)
    requires b < k
    ensures Bit(Reverse(n, k), k - 1 - b) == Bit(n, b)
  {
    ReverseTop(n, k, b + 1);
    ReverseSplit(n, b, 1);
    assert Reverse(Shr(n, b), 1) == Shr(n, b) % 2;
    assert Shl(Reverse(n, b), 1) == 2 * Reverse(n, b);
  }

  /** Numbers below 2^k with the same bits are equal. */
  lemma {:induction false} SameBits(m: nat, n: nat, k: nat)
    requires m < Shl(1, k) && n < Shl(1, k)
    requires forall b :: 0 <= b < k ==> Bit(m, b) == Bit(n, b)
    ensures m == n
  {
    if k > 0 {
      assert Bit(m, 0) == Bit(n, 0);
      forall b | 0 <= b < k - 1 ensures Bit(m / 2, b) == Bit(n / 2, b) {
        assert Bit(m, b + 1) == Bit(n, b + 1);
      }
      SameBits(m / 2, n / 2, k - 1);
    }
  }

  /** The bits of a number put together from a high part and k low bits. */
  lemma {:induction false} JoinBit(hi: nat, lo: nat, k: nat, b: nat)
    requires lo < Shl(1, k)
    ensures Bit(Shl(hi, k) + lo, b) == if b < k then Bit(lo, b) else Bit(hi, b - k)
  {
    if k > 0 && b > 0 {
      assert (Shl(hi, k) + lo) / 2 == Shl(hi, k - 1) + lo / 2;
      JoinBit(hi, lo / 2, k - 1, b - 1);
    }
  }

  // ---------------------------------------------------------------- masks

  /** a & b */
  function And(a: nat, b: nat): nat
    decreases b
  {
    if b == 0 then 0 else a % 2 * (b % 2) + 2 * And(a / 2, b / 2)
  }

  /** a | b */
  function Or(a: nat, b: nat): nat
    decreases a + b
  {
    if a == 0 && b == 0 then 0 else (if a % 2 + b % 2 > 0 then 1 else 0) + 2 * Or(a / 2, b / 2)
  }

  /** A number of k ones. */
  function Ones(k: nat): nat {
    if k == 0 then 0 else 1 + 2 * Ones(k - 1)
  }

  lemma {:induction false} AndOnes(n: nat, k: nat)
    ensures And(n, Ones(k)) == Low(n, k)
  {
    if k > 0 {
      AndOnes(n / 2, k - 1);
    }
  }

  /** A mask is applied to the low k bits and to the rest. */
  lemma {:induction false} AndJoin(n: nat, hi: nat, lo: nat, k: nat)
    requires lo < Shl(1, k)
    ensures And(n, Shl(hi, k) + lo) == Shl(And(Shr(n, k), hi), k) + And(n, lo)
  {
    if k == 0 {
      assert And(n, 0) == 0;
    } else {
      assert (Shl(hi, k) + lo) / 2 == Shl(hi, k - 1) + lo / 2;
      AndJoin(n / 2, hi, lo / 2, k - 1);
    }
  }

  lemma {:induction false} AndShifted(n: nat, m: nat, k: nat)
    ensures And(n, Shl(m, k)) == Shl(And(Shr(n, k), m), k)
  {
    OneBelow(k);
    AndJoin(n, m, 0, k);
  }

  lemma {:induction false} OneBelow(k: nat)
    ensures 0 < Shl(1, k) && Ones(k) < Shl(1, k)
  {
    if k > 0 {
      OneBelow(k - 1);
    }
  }

  lemma {:induction false} OneGrows(j: nat, k: nat)
    ensures Shl(1, j) <= Shl(1, j + k)
  {
    if k > 0 {
      OneGrows(j, k - 1);
    }
  }

  lemma {:induction false} OrJoin(a: nat, b: nat, c: nat, d: nat, k: nat)
    requires b < Shl(1, k) && d < Shl(1, k)
    ensures Or(Shl(a, k) + b, Shl(c, k) + d) == Shl(Or(a, c), k) + Or(b, d)
  {
    if k == 0 {
      assert b == d == 0;
    } else {
      assert (Shl(a, k) + b) / 2 == Shl(a, k - 1) + b / 2 && (Shl(c, k) + d) / 2 == Shl(c, k - 1) + d / 2;
      assert (Shl(a, k) + b) % 2 == b % 2 && (Shl(c, k) + d) % 2 == d % 2;
      OrJoin(a, b / 2, c, d / 2, k - 1);
    }
  }

  lemma {:induction false} OrZero(n: nat)
    ensures Or(n, 0) == n == Or(0, n)
  {
    if n > 0 {
      OrZero(n / 2);
    }
  }

  /** Bits put above the others are or-ed in or added, which is the same. */
  lemma OrIsSum(lo: nat, hi: nat, k: nat)
    requires lo < Shl(1, k)
    ensures Or(lo, Shl(hi, k)) == lo + Shl(hi, k)
  {
    OrJoin(0, lo, hi, 0, k);
    OrZero(lo);
    OrZero(hi);
    ShlZero(k);
  }

  lemma {:induction false} ShlZero(k: nat)
    ensures Shl(0, k) == 0
  {
    if k > 0 {
      ShlZero(k - 1);
    }
  }

  // ---------------------------------------------------------------- stbi__bitreverse16

  /** Ones in the low half of each of so many groups of 2w bits. */
  function LowMask(w: nat, groups: nat): nat
    decreases groups
  {
    if groups == 0 then 0 else Shl(LowMask(w, groups - 1), 2 * w) + Ones(w)
  }

  /** ((n & high) >> w) | ((n & low) << w) */
  function SwapMasked(n: nat, high: nat, low: nat, w: nat): nat {
    Or(Shr(And(n, high), w), Shl(And(n, low), w))
  }

  function BitReverse16(n: nat): nat {
    var n1 := SwapMasked(n, 0xAAAA, 0x5555, 1);
    var n2 := SwapMasked(n1, 0xCCCC, 0x3333, 2);
    var n3 := SwapMasked(n2, 0xF0F0, 0x0F0F, 4);
    SwapMasked(n3, 0xFF00, 0x00FF, 8)
  }

  /** Exchanges the halves of every 2w-bit group of n, over the given number of groups. */
  function SwapGroups(n: nat, w: nat, groups: nat): nat
    decreases groups
  {
    if groups == 0 then 0
    else Low(Shr(n, w), w) + Shl(Low(n, w), w) + Shl(SwapGroups(Shr(n, 2 * w), w, groups - 1), 2 * w)
  }

  /** Every w-bit group of n reversed in place. */
  ghost function ReverseGroups(n: nat, w: nat, groups: nat): nat
    decreases groups
  {
    if groups == 0 then 0
    else Reverse(n, w) + Shl(ReverseGroups(Shr(n, w), w, groups - 1), w)
  }

  /** The low halves of the groups, each at the bottom of its group. */
  ghost function LowHalves(n: nat, w: nat, groups: nat): nat
    decreases groups
  {
    if groups == 0 then 0 else Shl(LowHalves(Shr(n, 2 * w), w, groups - 1), 2 * w) + Low(n, w)
  }

  lemma {:induction false} LowHalvesMasked(n: nat, w: nat, groups: nat)
    ensures And(n, LowMask(w, groups)) == LowHalves(n, w, groups)
    decreases groups
  {
    if groups > 0 {
      OneBelow(w);
      OneGrows(w, w);
      AndJoin(n, LowMask(w, groups - 1), Ones(w), 2 * w);
      AndOnes(n, w);
      LowHalvesMasked(Shr(n, 2 * w), w, groups - 1);
    }
  }

  /** Putting the low halves of the groups of n and of the next groups together swaps them. */
  lemma {:induction false} HalvesSwapped(n: nat, w: nat, groups: nat)
    ensures Or(LowHalves(Shr(n, w), w, groups), Shl(LowHalves(n, w, groups), w)) == SwapGroups(n, w, groups)
    decreases groups
  {
    hide Or, Shl, Shr, Low;
    if groups == 0 {
      ShlZero(w);
      OrZero(0);
    } else {
      var u, v := LowHalves(Shr(Shr(n, w), 2 * w), w, groups - 1), LowHalves(Shr(n, 2 * w), w, groups - 1);
      var h, l := Low(Shr(n, w), w), Low(n, w);
      ShrTwice(n, w, 2 * w);
      ShrTwice(n, 2 * w, w);
      HalvesSwapped(Shr(n, 2 * w), w, groups - 1);
      ShlSum(Shl(v, 2 * w), l, w);
      ShlTwice(v, 2 * w, w);
      ShlTwice(v, w, 2 * w);
      LowBound(Shr(n, w), w);
      LowBound(n, w);
      OneGrows(w, w);
      ShlBelow(l, w, w);
      OrJoin(u, h, Shl(v, w), Shl(l, w), 2 * w);
      OrIsSum(h, l, w);
    }
  }

  lemma {:induction false} ShlBelow(n: nat, j: nat, k: nat)
    requires n < Shl(1, j)
    ensures Shl(n, k) < Shl(1, j + k)
  {
    if k > 0 {
      ShlBelow(n, j, k - 1);
    }
  }

  /** The masked shifts swap the halves of all groups. */
  lemma MaskedIsSwap(n: nat, high: nat, low: nat, w: nat, groups: nat)
    requires low == LowMask(w, groups) && high == Shl(low, w)
    ensures SwapMasked(n, high, low, w) == SwapGroups(n, w, groups)
  {
    AndShifted(n, low, w);
    LowHalvesMasked(Shr(n, w), w, groups);
    LowHalvesMasked(n, w, groups);
    OneBelow(w);
    Join(LowHalves(Shr(n, w), w, groups), 0, w);
    HalvesSwapped(n, w, groups);
  }

  /** The masks of the four rounds. */
  lemma Masks()
    ensures LowMask(1, 8) == 0x5555 && Shl(0x5555, 1) == 0xAAAA
    ensures LowMask(2, 4) == 0x3333 && Shl(0x3333, 2) == 0xCCCC
    ensures LowMask(4, 2) == 0x0F0F && Shl(0x0F0F, 4) == 0xF0F0
    ensures LowMask(8, 1) == 0x00FF && Shl(0x00FF, 8) == 0xFF00
  {
    assert Ones(1) == 1 && Ones(2) == 3 && Ones(4) == 15;
    assert Ones(5) == 31 && Ones(6) == 63 && Ones(7) == 127 && Ones(8) == 255;
    assert LowMask(1, 1) == 1 && LowMask(1, 2) == 5 && LowMask(1, 3) == 0x15 && LowMask(1, 4) == 0x55;
    assert LowMask(1, 5) == 0x155 && LowMask(1, 6) == 0x555 && LowMask(1, 7) == 0x1555;
    assert LowMask(2, 1) == 3 && LowMask(2, 2) == 0x33 && LowMask(2, 3) == 0x333;
    Shl8(15);
    assert LowMask(4, 1) == 15;
    ShlZero(16);
    assert LowMask(8, 1) == Shl(0, 16) + 255;
    Shl8(0xFF);
  }

  lemma Shl8(n: nat)
    ensures Shl(n, 4) == 16 * n && Shl(n, 8) == 256 * n
  {
    assert Shl(n, 4) == 2 * Shl(n, 3) == 4 * Shl(n, 2) == 8 * Shl(n, 1);
    assert Shl(n, 8) == 2 * Shl(n, 7) == 4 * Shl(n, 6) == 8 * Shl(n, 5);
  }

  function BitReverse(v: nat, bits: nat): nat
    requires bits <= 16
  {
    Shr(BitReverse16(v), 16 - bits)
  }

  /** Swapping the halves of groups whose halves are reversed reverses the groups. */
  lemma {:induction false} SwapReversed(n: nat, w: nat, groups: nat)
    ensures SwapGroups(ReverseGroups(n, w, 2 * groups), w, groups) == ReverseGroups(n, 2 * w, groups)
    decreases groups
  {
    if groups > 0 {
      var lo, hi := Reverse(n, w), Reverse(Shr(n, w), w);
      var rest := ReverseGroups(Shr(Shr(n, w), w), w, 2 * groups - 2);
      var x := ReverseGroups(n, w, 2 * groups);
      assert ReverseGroups(Shr(n, w), w, 2 * groups - 1) == hi + Shl(rest, w);
      assert x == lo + Shl(hi + Shl(rest, w), w);
      ReverseBound(n, w);
      ReverseBound(Shr(n, w), w);
      Join(hi + Shl(rest, w), lo, w);
      Join(rest, hi, w);
      ShrTwice(x, w, w);
      ShrTwice(n, w, w);
      SwapReversed(Shr(n, 2 * w), w, groups - 1);
      ReverseSplit(n, w, w);
    }
  }

  lemma {:induction false} SwapBits(n: nat, groups: nat)
    ensures SwapGroups(n, 1, groups) == ReverseGroups(n, 2, groups)
    decreases groups
  {
    if groups > 0 {
      assert Shr(n, 1) == n / 2;
      assert Low(n / 2, 1) == n / 2 % 2 && Low(n, 1) == n % 2;
      assert Reverse(n / 2, 1) == n / 2 % 2;
      assert Reverse(n, 2) == Shl(n % 2, 1) + n / 2 % 2;
      SwapBits(Shr(n, 2), groups - 1);
    }
  }

  lemma OneGroup(n: nat)
    ensures ReverseGroups(n, 16, 1) == Reverse(n, 16)
  {
    ShlZero(16);
  }

  /** The four rounds of swaps reverse sixteen bits. */
  lemma BitReverse16IsReverse(n: nat)
    ensures BitReverse16(n) == Reverse(n, 16)
  {
    hide SwapMasked, SwapGroups, ReverseGroups, LowMask, Reverse;
    Masks();
    var n1 := SwapMasked(n, 0xAAAA, 0x5555, 1);
    var n2 := SwapMasked(n1, 0xCCCC, 0x3333, 2);
    var n3 := SwapMasked(n2, 0xF0F0, 0x0F0F, 4);
    MaskedIsSwap(n, 0xAAAA, 0x5555, 1, 8);
    MaskedIsSwap(n1, 0xCCCC, 0x3333, 2, 4);
    MaskedIsSwap(n2, 0xF0F0, 0x0F0F, 4, 2);
    MaskedIsSwap(n3, 0xFF00, 0x00FF, 8, 1);
    SwapBits(n, 8);
    SwapReversed(n, 2, 4);
    SwapReversed(n, 4, 2);
    SwapReversed(n, 8, 1);
    OneGroup(n);
  }

  /** stbi__bit_reverse reverses the low bits of v. */
  lemma BitReverseIsReverse(v: nat, bits: nat)
    requires bits <= 16
    ensures BitReverse(v, bits) == Reverse(v, bits)
  {
    hide BitReverse16, Reverse, Shr;
    BitReverse16IsReverse(v);
    ReverseTop(v, 16, bits);
  }
}
