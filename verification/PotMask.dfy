/** Sets of pots as the firmware's 16-bit masks, with the bit operations it uses on them
    written as arithmetic on the low bit. */
module PotMask {

  const MAX_POTS := 16

  /** (m & (1 << i)) != 0 */
  predicate Bit(m: nat, i: nat) {
    if i == 0 then m % 2 == 1 else Bit(m / 2, i - 1)
  }

  /** m | (1 << i) */
  function SetBit(m: nat, i: nat): (r: nat)
    ensures r > 0
  {
    if i == 0 then m / 2 * 2 + 1 else SetBit(m / 2, i - 1) * 2 + m % 2
  }

  /** 1 << i */
  function OneBit(i: nat): nat {
    SetBit(0, i)
  }

  /** m >> n, which is nonzero exactly when m & ~((1 << n) - 1) is. */
  function HighBits(m: nat, n: nat): nat {
    if n == 0 then m else HighBits(m / 2, n - 1)
  }

  /** m & ((1 << n) - 1) */
  function LowBits(m: nat, n: nat): nat {
    if n == 0 then 0 else LowBits(m / 2, n - 1) * 2 + m % 2
  }

  /** __builtin_popcount */
  function Popcount(m: nat): nat {
    if m == 0 then 0 else Popcount(m / 2) + m % 2
  }

  /** The pots below `n` that the mask selects, in ascending order. */
  function Pots(m: nat, n: nat): (ps: seq<nat>)
    ensures forall i :: 0 <= i < |ps| ==> ps[i] < n && Bit(m, ps[i])
    ensures forall i, j :: 0 <= i < j < |ps| ==> ps[i] < ps[j]
    ensures |ps| <= n
  {
    if n == 0 then [] else Pots(m, n - 1) + (if Bit(m, n - 1) then [n - 1] else [])
  }

  lemma {:induction false} PotsComplete(m: nat, n: nat, p: nat)
    ensures p in Pots(m, n) <==> p < n && Bit(m, p)
  {
    if n > 0 {
      PotsComplete(m, n - 1, p);
    }
  }

  lemma {:induction false} NoBits(i: nat)
    ensures !Bit(0, i)
  {
    if i > 0 { NoBits(i - 1); }
  }

  lemma {:induction false} BitOfSetBit(m: nat, i: nat, j: nat)
    ensures Bit(SetBit(m, i), j) <==> i == j || Bit(m, j)
  {
    if i > 0 && j > 0 {
      BitOfSetBit(m / 2, i - 1, j - 1);
    }
  }

  lemma BitOfOneBit(i: nat, j: nat)
    ensures Bit(OneBit(i), j) <==> i == j
  {
    BitOfSetBit(0, i, j);
    NoBits(j);
  }

  lemma {:induction false} HighStep(m: nat, n: nat)
    ensures HighBits(m, n + 1) == HighBits(m, n) / 2
    ensures Bit(m, n) <==> HighBits(m, n) % 2 == 1
  {
    if n > 0 { HighStep(m / 2, n - 1); }
  }

  lemma {:induction false} CountSplit(m: nat, n: nat)
    ensures |Pots(m, n)| + Popcount(HighBits(m, n)) == Popcount(m)
  {
    if n > 0 {
      CountSplit(m, n - 1);
      HighStep(m, n - 1);
    }
  }

  /** A mask without bits from `n` on selects popcount many pots below `n`. */
  lemma PotsCount(m: nat, n: nat)
    requires HighBits(m, n) == 0
    ensures |Pots(m, n)| == Popcount(m)
  {
    CountSplit(m, n);
  }

  lemma {:induction false} HighBitsMonotone(m: nat, n: nat, k: nat)
    requires HighBits(m, n) == 0 && n <= k
    ensures HighBits(m, k) == 0
    decreases k - n
  {
    if n < k {
      HighStep(m, n);
      HighBitsMonotone(m, n + 1, k);
    }
  }

  lemma {:induction false} SetBitKeepsLow(m: nat, i: nat, n: nat)
    requires HighBits(m, n) == 0 && i < n
    ensures HighBits(SetBit(m, i), n) == 0
  {
    if i > 0 { SetBitKeepsLow(m / 2, i - 1, n - 1); }
    else { assert SetBit(m, 0) / 2 == m / 2; }
  }

  lemma {:induction false} ZeroHigh(n: nat)
    ensures HighBits(0, n) == 0
  {
    if n > 0 { ZeroHigh(n - 1); }
  }

  lemma {:induction false} LowBitsIdentity(m: nat, n: nat)
    requires HighBits(m, n) == 0
    ensures LowBits(m, n) == m
  {
    if n > 0 { LowBitsIdentity(m / 2, n - 1); }
  }

  lemma OneBitFits(i: nat, n: nat)
    requires i < n
    ensures HighBits(OneBit(i), n) == 0 && LowBits(OneBit(i), n) == OneBit(i)
  {
    ZeroHigh(n);
    SetBitKeepsLow(0, i, n);
    LowBitsIdentity(OneBit(i), n);
  }

  lemma {:induction false} OneBitPopcount(i: nat)
    ensures Popcount(OneBit(i)) == 1
  {
    if i > 0 { OneBitPopcount(i - 1); }
  }

  /** Sixteen-bit masks are exactly those without bits from 16 on. */
  lemma SixteenBits(m: nat)
    ensures m < 0x1_0000 <==> HighBits(m, MAX_POTS) == 0
  {
    assert PowerOfTwo(16, 0x1_0000);
    Shifted(m, MAX_POTS, 0x1_0000);
  }

  predicate PowerOfTwo(n: nat, x: nat) {
    if n == 0 then x == 1 else x % 2 == 0 && PowerOfTwo(n - 1, x / 2)
  }

  lemma {:induction false} Shifted(m: nat, n: nat, x: nat)
    requires PowerOfTwo(n, x)
    ensures m < x <==> HighBits(m, n) == 0
  {
    if n > 0 { Shifted(m / 2, n - 1, x / 2); }
  }

  lemma {:induction false} SetBitOnlyAdds(m: nat, i: nat, n: nat)
    requires n <= i
    ensures Pots(SetBit(m, i), n) == Pots(m, n)
  {
    if n > 0 {
      SetBitOnlyAdds(m, i, n - 1);
      BitOfSetBit(m, i, n - 1);
    }
  }

  /** Setting the bit of the next pot appends that pot to the selection. */
  lemma SetBitAppends(m: nat, i: nat)
    ensures Pots(SetBit(m, i), i + 1) == Pots(m, i) + [i]
  {
    SetBitOnlyAdds(m, i, i);
    BitOfSetBit(m, i, i);
  }

  lemma {:induction false} PotsBeyond(m: nat, n: nat, k: nat)
    requires HighBits(m, n) == 0 && n <= k
    ensures Pots(m, k) == Pots(m, n)
    decreases k - n
  {
    if n < k {
      PotsBeyond(m, n, k - 1);
      HighBitsMonotone(m, n, k - 1);
      HighStep(m, k - 1);
    }
  }

  lemma ZeroIffNoPots(m: nat, n: nat)
    requires HighBits(m, n) == 0
    ensures m == 0 <==> Pots(m, n) == []
  {
    PotsCount(m, n);
    PopcountZero(m);
  }

  lemma {:induction false} PopcountZero(m: nat)
    ensures Popcount(m) == 0 <==> m == 0
  {
    if m > 0 { PopcountZero(m / 2); }
  }
}
