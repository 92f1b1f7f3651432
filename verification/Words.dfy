/** 32-bit words and their bits, numbered from the least significant one.

    Addresses and curve axes are arrays of `u32`.  A word is modelled by its value, and
    the bitwise operators by the usual recursion on the two halves of the value.  The
    rest of the project reasons about single bits: each `u32` operation the program uses
    gets one lemma that says what it does to bit `n`. */
module Words {
  const WORD_MODULUS := 0x1_0000_0000
  const ALL_ONES: Word := 0xFFFF_FFFF

  type Word = w: int | 0 <= w < 0x1_0000_0000

  function Pow2(n: nat): (p: int)
    ensures p >= 1
  {
    if n == 0 then 1 else 2 * Pow2(n - 1)
  }

  lemma {:induction false} Pow2Adds(m: nat, n: nat)
    ensures Pow2(m + n) == Pow2(m) * Pow2(n)
  {
    if m > 0 {
      Pow2Adds(m - 1, n);
      assert 2 * (Pow2(m - 1) * Pow2(n)) == (2 * Pow2(m - 1)) * Pow2(n);
    }
  }

  lemma {:induction false} Pow2Grows(m: nat, n: nat)
    requires m <= n
    ensures Pow2(m) <= Pow2(n)
  {
    if m < n {
      Pow2Grows(m, n - 1);
    }
  }

  lemma Pow2Is32()
    ensures Pow2(32) == WORD_MODULUS
  {
    assert Pow2(8) == 256;
    Pow2Adds(8, 8);
    Pow2Adds(16, 16);
  }

  /** `(w >> n) & 1`, read as a boolean. */
  predicate Bit(w: nat, n: nat) {
    if n == 0 then w % 2 == 1 else Bit(w / 2, n - 1)
  }

  /** `w >> n`. */
  function Shr(w: nat, n: nat): nat {
    if n == 0 then w else Shr(w / 2, n - 1)
  }

  lemma {:induction false} ShrBit(w: nat, n: nat, k: nat)
    ensures Bit(Shr(w, n), k) == Bit(w, n + k)
  {
    if n > 0 {
      ShrBit(w / 2, n - 1, k);
    }
  }

  lemma {:induction false} ShrMore(w: nat, n: nat)
    ensures Shr(w, n + 1) == Shr(w, n) / 2
  {
    if n > 0 {
      ShrMore(w / 2, n - 1);
    }
  }

  /** Shifting drops the low part of a sum. */
  lemma {:induction false} ShrSum(q: nat, m: nat, n: nat, r: nat)
    requires r < Pow2(m + n)
    ensures Shr(q * Pow2(m + n) + r, n) == q * Pow2(m) + Shr(r, n)
    ensures Shr(r, n) < Pow2(m)
    decreases n
  {
    if n > 0 {
      HalveSum(q, Pow2(m + n - 1), r);
      ShrSum(q, m, n - 1, r / 2);
    }
  }

  lemma HalveSum(q: nat, p: nat, r: nat)
    ensures (q * (2 * p) + r) / 2 == q * p + r / 2
  {
    assert q * (2 * p) + r == 2 * (q * p) + r;
  }

  /** Shifting commutes with complementing. */
  lemma {:induction false} ShrComplement(m: nat, n: nat, x: nat)
    requires x < Pow2(m + n)
    ensures Shr(x, n) < Pow2(m) && Shr(Pow2(m + n) - 1 - x, n) == Pow2(m) - 1 - Shr(x, n)
    decreases n
  {
    if n > 0 {
      assert (Pow2(m + n) - 1 - x) / 2 == Pow2(m + n - 1) - 1 - x / 2;
      ShrComplement(m, n - 1, x / 2);
    }
  }

  // ----- bitwise operators -----

  function Xor(a: nat, b: nat): nat {
    if a == 0 && b == 0 then 0 else 2 * Xor(a / 2, b / 2) + (if a % 2 != b % 2 then 1 else 0)
  }

  function Or(a: nat, b: nat): nat {
    if a == 0 && b == 0 then 0 else 2 * Or(a / 2, b / 2) + (if a % 2 == 1 || b % 2 == 1 then 1 else 0)
  }

  function And(a: nat, b: nat): nat {
    if a == 0 && b == 0 then 0 else 2 * And(a / 2, b / 2) + (if a % 2 == 1 && b % 2 == 1 then 1 else 0)
  }

  lemma {:induction false} ZeroBit(n: nat)
    ensures !Bit(0, n)
  {
    if n > 0 {
      ZeroBit(n - 1);
    }
  }

  lemma {:induction false} XorBit(a: nat, b: nat, n: nat)
    ensures Bit(Xor(a, b), n) == (Bit(a, n) != Bit(b, n))
    decreases n
  {
    if a == 0 && b == 0 {
      ZeroBit(n);
    } else if n > 0 {
      XorBit(a / 2, b / 2, n - 1);
    }
  }

  lemma {:induction false} OrBit(a: nat, b: nat, n: nat)
    ensures Bit(Or(a, b), n) == (Bit(a, n) || Bit(b, n))
    decreases n
  {
    if a == 0 && b == 0 {
      ZeroBit(n);
    } else if n > 0 {
      OrBit(a / 2, b / 2, n - 1);
    }
  }

  lemma {:induction false} AndBit(a: nat, b: nat, n: nat)
    ensures Bit(And(a, b), n) == (Bit(a, n) && Bit(b, n))
    decreases n
  {
    if a == 0 && b == 0 {
      ZeroBit(n);
    } else if n > 0 {
      AndBit(a / 2, b / 2, n - 1);
    }
  }

  /** The operators stay within any power of two that bounds both operands. */
  lemma {:induction false} BitwiseBound(a: nat, b: nat, n: nat)
    requires a < Pow2(n) && b < Pow2(n)
    ensures Xor(a, b) < Pow2(n) && Or(a, b) < Pow2(n) && And(a, b) < Pow2(n)
    decreases n
  {
    if n > 0 {
      BitwiseBound(a / 2, b / 2, n - 1);
    }
  }

  /** Masking with the low `k` bits leaves a number of `k` bits, ... */
  lemma {:induction false} AndMaskBound(a: nat, k: nat)
    ensures And(a, Pow2(k) - 1) < Pow2(k)
    decreases k
  {
    if k == 0 {
      AndZero(a);
    } else {
      assert (Pow2(k) - 1) / 2 == Pow2(k - 1) - 1;
      AndMaskBound(a / 2, k - 1);
    }
  }

  lemma {:induction false} AndZero(a: nat)
    ensures And(a, 0) == 0
  {
    if a > 0 {
      AndZero(a / 2);
    }
  }

  /** ... and changes no number that already is one. */
  lemma {:induction false} AndMaskKeeps(a: nat, k: nat)
    requires a < Pow2(k)
    ensures And(a, Pow2(k) - 1) == a
    decreases k
  {
    if k > 0 {
      assert (Pow2(k) - 1) / 2 == Pow2(k - 1) - 1;
      AndMaskKeeps(a / 2, k - 1);
    }
  }

  function XorWord(a: Word, b: Word): Word {
    Pow2Is32();
    BitwiseBound(a, b, 32);
    Xor(a, b)
  }

  function OrWord(a: Word, b: Word): Word {
    Pow2Is32();
    BitwiseBound(a, b, 32);
    Or(a, b)
  }

  function AndWord(a: Word, b: Word): Word {
    Pow2Is32();
    BitwiseBound(a, b, 32);
    And(a, b)
  }

  // ----- constants -----

  lemma {:induction false} OneHotBit(k: nat, n: nat)
    ensures Bit(Pow2(k), n) == (n == k)
  {
    if k == 0 {
      if n > 0 {
        ZeroBit(n - 1);
      }
    } else if n > 0 {
      OneHotBit(k - 1, n - 1);
    }
  }

  lemma {:induction false} LowMaskBit(k: nat, n: nat)
    ensures Bit(Pow2(k) - 1, n) == (n < k)
  {
    if k == 0 {
      ZeroBit(n);
    } else {
      assert (Pow2(k) - 1) / 2 == Pow2(k - 1) - 1;
      if n > 0 {
        LowMaskBit(k - 1, n - 1);
      }
    }
  }

  /** `w << n` in 32 bits. */
  function ShiftLeft(w: Word, n: nat): Word {
    (w * Pow2(n)) % WORD_MODULUS
  }

  /** `1u32 << n`. */
  function OneHot(n: nat): (w: Word)
    requires n < 32
    ensures w == Pow2(n)
  {
    Pow2Grows(n, 31);
    Pow2Is32();
    ShiftLeft(1, n)
  }

  lemma OnesTimes(p: int)
    requires 1 <= p <= WORD_MODULUS
    ensures (ALL_ONES * p) % WORD_MODULUS == WORD_MODULUS - p
  {
    assert ALL_ONES * p == WORD_MODULUS * (p - 1) + (WORD_MODULUS - p);
  }

  /** Complementing `n` bits subtracts from `2^n - 1`. */
  lemma {:induction false} XorOnes(a: nat, n: nat)
    requires a < Pow2(n)
    ensures Xor(Pow2(n) - 1, a) == Pow2(n) - 1 - a
    decreases n
  {
    if n > 0 {
      var ones := Pow2(n - 1) - 1;
      XorOnes(a / 2, n - 1);
      assert Pow2(n) - 1 == 2 * ones + 1 && (2 * ones + 1) / 2 == ones && (2 * ones + 1) % 2 == 1;
      assert Xor(2 * ones + 1, a) == 2 * Xor(ones, a / 2) + (1 - a % 2);
    }
  }

  /** `!0u32 << k` has exactly the bits from `k` up. */
  lemma HighMaskBit(k: nat, n: nat)
    requires k < 32 && n < 32
    ensures Bit(ShiftLeft(ALL_ONES, k), n) == (k <= n)
  {
    Pow2Is32();
    Pow2Grows(k, 32);
    var low := Pow2(k) - 1;
    OnesTimes(Pow2(k));
    XorOnes(low, 32);
    XorBit(ALL_ONES, low, n);
    LowMaskBit(k, n);
    LowMaskBit(32, n);
  }

  /** A number below `2^n` is determined by its low `n` bits. */
  lemma {:induction false} SameBits(a: nat, b: nat, n: nat)
    requires a < Pow2(n) && b < Pow2(n)
    requires forall k: nat | k < n :: Bit(a, k) == Bit(b, k)
    ensures a == b
    decreases n
  {
    if n > 0 {
      assert Bit(a, 0) == Bit(b, 0);
      forall k: nat | k < n - 1 ensures Bit(a / 2, k) == Bit(b / 2, k) {
        assert Bit(a, k + 1) == Bit(b, k + 1);
      }
      SameBits(a / 2, b / 2, n - 1);
    }
  }

  /** `u32::leading_zeros`, scanning down from the most significant bit. */
  function LeadingZeros(w: Word): (z: nat)
    ensures z <= 32
    ensures forall n: nat | 32 - z <= n < 32 :: !Bit(w, n)
    ensures z < 32 ==> Bit(w, 31 - z)
  {
    LeadingZerosFrom(w, 0)
  }

  function LeadingZerosFrom(w: Word, z: nat): (r: nat)
    requires z <= 32
    requires forall n: nat | 32 - z <= n < 32 :: !Bit(w, n)
    ensures z <= r <= 32
    ensures forall n: nat | 32 - r <= n < 32 :: !Bit(w, n)
    ensures r < 32 ==> Bit(w, 31 - r)
    decreases 32 - z
  {
    if z == 32 || Bit(w, 31 - z) then z else LeadingZerosFrom(w, z + 1)
  }

  lemma LeadingZerosFull(w: Word)
    ensures LeadingZeros(w) == 32 <==> w == 0
  {
    Pow2Is32();
    forall n: nat ensures !Bit(0, n) {
      ZeroBit(n);
    }
    if LeadingZeros(w) == 32 {
      SameBits(w, 0, 32);
    }
  }

  lemma {:induction false} OrZero(v: nat)
    ensures Or(v, 0) == v
  {
    if v > 0 {
      OrZero(v / 2);
    }
  }

  /** Setting a clear bit adds its weight. */
  lemma {:induction false} OrAdds(v: nat, k: nat)
    requires !Bit(v, k)
    ensures Or(v, Pow2(k)) == v + Pow2(k)
    decreases k
  {
    if k == 0 {
      OrZero(v / 2);
    } else {
      OrAdds(v / 2, k - 1);
    }
  }

  /** The bits of two words side by side. */
  lemma {:induction false} LowBits(q: nat, n: nat, r: nat, j: nat)
    requires r < Pow2(n)
    ensures Bit(q * Pow2(n) + r, j) == if j < n then Bit(r, j) else Bit(q, j - n)
    decreases n
  {
    var v := q * Pow2(n) + r;
    if n > 0 {
      assert v == 2 * (q * Pow2(n - 1)) + r;
      assert v / 2 == q * Pow2(n - 1) + r / 2 && v % 2 == r % 2;
      if j > 0 {
        LowBits(q, n - 1, r / 2, j - 1);
      }
    }
  }

  /** Bits from `n` up of a number below `2^n` are clear. */
  lemma HighBitsClear(v: nat, n: nat, j: nat)
    requires v < Pow2(n) && j >= n
    ensures !Bit(v, j)
  {
    LowBits(0, n, v, j);
    ZeroBit(j - n);
  }
}
