/**
Natural numbers seen as little-endian bit strings.

Machine words are modelled as natural numbers, and the shifts and masks that the
program applies to them are defined here one bit at a time. `Bit` is the common
observation: every operation is characterised by what it does to each bit, and
`SameBits` says that a number is determined by its bits.
 */
module Bits {

  function Pow2(n: nat): (p: nat)
    ensures p > 0
  {
    if n == 0 then 1 else 2 * Pow2(n - 1)
  }

  /** Bit number `i` of `d`, counted from the low-order end. */
  predicate Bit(d: nat, i: nat)
    decreases i
  {
    if i == 0 then d % 2 == 1 else Bit(d / 2, i - 1)
  }

  /** The `n` low-order bits of `d`, lowest first. */
  function ToBits(d: nat, n: nat): (s: seq<bool>)
    ensures |s| == n
  {
    seq(n, (i: nat) => Bit(d, i))
  }

  /** The number whose bits are `s`, lowest first. */
  function FromBits(s: seq<bool>): (d: nat)
    ensures d < Pow2(|s|)
  {
    if s == [] then 0 else (if s[0] then 1 else 0) + 2 * FromBits(s[1..])
  }

  /** `d << k`, without loss of high-order bits. */
  function Shl(d: nat, k: nat): (r: nat)
  {
    if k == 0 then d else 2 * Shl(d, k - 1)
  }

  /** `d >> k` */
  function Shr(d: nat, k: nat): (r: nat)
  {
    if k == 0 then d else Shr(d / 2, k - 1)
  }

  /** `d` truncated to its `n` low-order bits. */
  function Low(d: nat, n: nat): (r: nat)
    ensures r < Pow2(n)
  {
    if n == 0 then 0 else d % 2 + 2 * Low(d / 2, n - 1)
  }

  /** `a | b` */
  function Or(a: nat, b: nat): (r: nat)
    decreases a + b
  {
    if a == 0 && b == 0 then 0
    else (if a % 2 == 1 || b % 2 == 1 then 1 else 0) + 2 * Or(a / 2, b / 2)
  }

  /** `a & b` */
  function And(a: nat, b: nat): (r: nat)
    decreases a + b
  {
    if a == 0 && b == 0 then 0
    else (if a % 2 == 1 && b % 2 == 1 then 1 else 0) + 2 * And(a / 2, b / 2)
  }

  lemma Halve(low: nat, rest: nat)
    requires low < 2
    ensures (low + 2 * rest) / 2 == rest && (low + 2 * rest) % 2 == low
  {
  }

  lemma {:induction false} ShlBit(d: nat, k: nat, i: nat)
    ensures Bit(Shl(d, k), i) == (k <= i && Bit(d, i - k))
  {
    if k > 0 {
      var y := Shl(d, k - 1);
      Halve(0, y);
      if i > 0 {
        ShlBit(d, k - 1, i - 1);
      }
    }
  }

  lemma {:induction false} ShrBit(d: nat, k: nat, i: nat)
    ensures Bit(Shr(d, k), i) == Bit(d, i + k)
    decreases k
  {
    if k > 0 {
      ShrBit(d / 2, k - 1, i);
    }
  }

  lemma {:induction false} ZeroBit(i: nat)
    ensures !Bit(0, i)
  {
    if i > 0 {
      ZeroBit(i - 1);
    }
  }

  lemma {:induction false} LowBit(d: nat, n: nat, i: nat)
    ensures Bit(Low(d, n), i) == (i < n && Bit(d, i))
    decreases n
  {
    if n == 0 {
      ZeroBit(i);
    } else if i > 0 {
      Halve(d % 2, Low(d / 2, n - 1));
      LowBit(d / 2, n - 1, i - 1);
    }
  }

  lemma {:induction false} OrBit(a: nat, b: nat, i: nat)
    ensures Bit(Or(a, b), i) == (Bit(a, i) || Bit(b, i))
    decreases i
  {
    if a == 0 && b == 0 {
      ZeroBit(i);
    } else if i > 0 {
      Halve(if a % 2 == 1 || b % 2 == 1 then 1 else 0, Or(a / 2, b / 2));
      OrBit(a / 2, b / 2, i - 1);
    }
  }

  lemma {:induction false} AndBit(a: nat, b: nat, i: nat)
    ensures Bit(And(a, b), i) == (Bit(a, i) && Bit(b, i))
    decreases i
  {
    if a == 0 && b == 0 {
      ZeroBit(i);
    } else if i > 0 {
      Halve(if a % 2 == 1 && b % 2 == 1 then 1 else 0, And(a / 2, b / 2));
      AndBit(a / 2, b / 2, i - 1);
    }
  }

  /** A number is determined by its bits. */
  lemma {:induction false} SameBits(a: nat, b: nat)
    requires forall i: nat :: Bit(a, i) == Bit(b, i)
    ensures a == b
    decreases a + b
  {
    assert Bit(a, 0) == Bit(b, 0);
    if a + b > 0 {
      forall i: nat ensures Bit(a / 2, i) == Bit(b / 2, i) {
        assert Bit(a, i + 1) == Bit(b, i + 1);
      }
      SameBits(a / 2, b / 2);
    }
  }

  /** A number that fits in `n` bits has no bit at or above `n`, and conversely. */
  lemma {:induction false} FitsBit(d: nat, n: nat, i: nat)
    requires d < Pow2(n) && n <= i
    ensures !Bit(d, i)
    decreases n
  {
    if n == 0 {
      ZeroBit(i);
    } else {
      FitsBit(d / 2, n - 1, i - 1);
    }
  }

  lemma {:induction false} BitsFit(d: nat, n: nat)
    requires forall i: nat :: n <= i ==> !Bit(d, i)
    ensures d < Pow2(n)
    decreases n
  {
    if n == 0 {
      forall i: nat ensures Bit(d, i) == Bit(0, i) {
        ZeroBit(i);
      }
      SameBits(d, 0);
    } else {
      forall i: nat | n - 1 <= i ensures !Bit(d / 2, i) {
        assert !Bit(d, i + 1);
      }
      BitsFit(d / 2, n - 1);
    }
  }

  lemma {:induction false} FromBitsBit(s: seq<bool>, i: nat)
    ensures Bit(FromBits(s), i) == (i < |s| && s[i])
  {
    if s == [] {
      ZeroBit(i);
    } else if i > 0 {
      assert FromBits(s) / 2 == FromBits(s[1..]);
      FromBitsBit(s[1..], i - 1);
    }
  }

  /** Printing a number that fits and reading it back gives the number. */
  lemma FromToBits(d: nat, n: nat)
    requires d < Pow2(n)
    ensures FromBits(ToBits(d, n)) == d
  {
    forall i: nat ensures Bit(FromBits(ToBits(d, n)), i) == Bit(d, i) {
      FromBitsBit(ToBits(d, n), i);
      if n <= i {
        FitsBit(d, n, i);
      }
    }
    SameBits(FromBits(ToBits(d, n)), d);
  }

  /** Reading a bit string and printing it back gives the bit string. */
  lemma ToFromBits(s: seq<bool>)
    ensures ToBits(FromBits(s), |s|) == s
  {
    forall i | 0 <= i < |s| ensures ToBits(FromBits(s), |s|)[i] == s[i] {
      FromBitsBit(s, i);
    }
  }

  lemma {:induction false} Pow2Monotone(m: nat, n: nat)
    requires m <= n
    ensures Pow2(m) <= Pow2(n)
    decreases n
  {
    if m < n {
      Pow2Monotone(m, n - 1);
    }
  }

  lemma {:induction false} Pow2Sum(m: nat, n: nat)
    ensures Pow2(m + n) == Pow2(m) * Pow2(n)
    decreases m
  {
    if m > 0 {
      Pow2Sum(m - 1, n);
    }
  }

  /** Shifting splits a bit string: the bits that fall off, then those that stay. */
  lemma SplitBits(d: nat, m: nat, n: nat)
    ensures ToBits(d, m + n) == ToBits(d, m) + ToBits(Shr(d, m), n)
  {
    forall i: nat | i < n ensures Bit(Shr(d, m), i) == Bit(d, i + m) {
      ShrBit(d, m, i);
    }
  }

  /** Shifting out `m` bits of a number that fits in `m + n` bits leaves one that fits in `n`. */
  lemma {:induction false} ShrFits(d: nat, m: nat, n: nat)
    requires d < Pow2(m + n)
    ensures Shr(d, m) < Pow2(n)
    decreases m
  {
    if m > 0 {
      ShrFits(d / 2, m - 1, n);
    }
  }

  lemma {:induction false} ShlFits(d: nat, k: nat, m: nat)
    requires d < Pow2(m)
    ensures Shl(d, k) < Pow2(k + m)
  {
    if k > 0 {
      ShlFits(d, k - 1, m);
    }
  }

  lemma {:induction false} ShrShr(d: nat, j: nat, k: nat)
    ensures Shr(Shr(d, j), k) == Shr(d, j + k)
    decreases j
  {
    if j > 0 {
      ShrShr(d / 2, j - 1, k);
    }
  }

  lemma ShrZero(d: nat)
    ensures Shr(d, 0) == d
  {
  }

  lemma {:induction false} OrZero(d: nat)
    ensures Or(d, 0) == d
  {
    if d > 0 {
      OrZero(d / 2);
    }
  }

  lemma {:induction false} OrShr(a: nat, b: nat, k: nat)
    ensures Shr(Or(a, b), k) == Or(Shr(a, k), Shr(b, k))
    decreases k
  {
    if k > 0 {
      OrShr(a / 2, b / 2, k - 1);
    }
  }

  lemma Pow2Values()
    ensures Pow2(8) == 256 && Pow2(0) == 1
  {
  }

  /** Shifting out all the bits of a number leaves nothing. */
  lemma ShrGone(d: nat, n: nat, k: nat)
    requires d < Pow2(n) && n <= k
    ensures Shr(d, k) == 0
  {
    hide Pow2, Shr;
    Pow2Monotone(n, k);
    ShrFits(d, k, 0);
    Pow2Values();
  }

  /** Placing `hi` above the `k` bits of `lo` with a shift and an `|` joins the two bit strings. */
  lemma JoinBits(lo: nat, k: nat, hi: nat, m: nat)
    requires lo < Pow2(k) && hi < Pow2(m)
    ensures Or(lo, Shl(hi, k)) < Pow2(k + m)
    ensures ToBits(Or(lo, Shl(hi, k)), k + m) == ToBits(lo, k) + ToBits(hi, m)
  {
    var r := Or(lo, Shl(hi, k));
    forall i: nat
      ensures Bit(r, i) == if i < k then Bit(lo, i) else Bit(hi, i - k)
    {
      OrBit(lo, Shl(hi, k), i);
      ShlBit(hi, k, i);
      if k <= i {
        FitsBit(lo, k, i);
      }
    }
    forall i: nat | k + m <= i ensures !Bit(r, i) {
      FitsBit(hi, m, i - k);
    }
    BitsFit(r, k + m);
  }

  /** Truncating to `n` bits changes nothing when the number fits in `n` bits. */
  lemma {:induction false} LowOfFitting(d: nat, n: nat)
    requires d < Pow2(n)
    ensures Low(d, n) == d
    decreases n
  {
    if n > 0 {
      LowOfFitting(d / 2, n - 1);
    }
  }

  lemma LowBits(d: nat, n: nat)
    ensures ToBits(Low(d, n), n) == ToBits(d, n)
  {
    forall i: nat | i < n ensures Bit(Low(d, n), i) == Bit(d, i) {
      LowBit(d, n, i);
    }
  }

  /** A carry out of the `n` low-order bits is lost. */
  lemma {:induction false} LowWithCarry(d: nat, n: nat)
    requires d < Pow2(n)
    ensures Low(Pow2(n) + d, n) == d
    decreases n
  {
    if n > 0 {
      var half := Pow2(n - 1) + d / 2;
      Halve(d % 2, half);
      assert Pow2(n) + d == d % 2 + 2 * half;
      LowWithCarry(d / 2, n - 1);
    }
  }

  lemma {:induction false} AndZero(d: nat)
    ensures And(d, 0) == 0
  {
    if d > 0 {
      AndZero(d / 2);
    }
  }

  /** Masking with `k` ones truncates to `k` bits. */
  lemma {:induction false} AndOnes(d: nat, k: nat)
    ensures And(d, Pow2(k) - 1) == Low(d, k)
    decreases k
  {
    if k > 0 {
      var ones := Pow2(k) - 1;
      assert ones / 2 == Pow2(k - 1) - 1 && ones % 2 == 1;
      AndOnes(d / 2, k - 1);
    } else {
      AndZero(d);
    }
  }

  lemma {:induction false} LowOfOnes(u: nat, w: nat)
    requires w <= u
    ensures Low(Pow2(u) - 1, w) == Pow2(w) - 1
    decreases w
  {
    if w > 0 {
      var ones := Pow2(u) - 1;
      assert ones / 2 == Pow2(u - 1) - 1 && ones % 2 == 1;
      LowOfOnes(u - 1, w - 1);
    }
  }

  lemma {:induction false} ShiftedOnes(u: nat, c: nat, w: nat)
    requires c <= w <= u + c
    ensures Low(Shl(Pow2(u) - 1, c), w) == Pow2(w) - Pow2(c)
    decreases c
  {
    if c == 0 {
      LowOfOnes(u, w);
    } else {
      var y := Shl(Pow2(u) - 1, c - 1);
      assert 2 * y / 2 == y;
      ShiftedOnes(u, c - 1, w - 1);
    }
  }

  // ----- 64-bit words and bytes -----

  type Byte = b: nat | b < 256

  /** `d << k` on a 64-bit word, which is defined for shifts below the word size only. */
  function Shl64(d: nat, k: nat): (r: nat)
    requires k < 64
  {
    Low(Shl(d, k), 64)
  }

  /** `d >> k` on a 64-bit word, likewise. */
  function Shr64(d: nat, k: nat): (r: nat)
    requires k < 64
  {
    Shr(d, k)
  }

  /** `b >> k` on a byte, which is defined for shifts below 8 only. */
  function Shr8(b: Byte, k: nat): (r: nat)
    requires k < 8
  {
    Shr(b, k)
  }

  /** `!(u64::MAX << count)` */
  function LowOrderOnes(count: nat): (mask: nat)
    requires count < 64
  {
    var max := Pow2(64) - 1;
    max - Shl64(max, count)
  }

  lemma LowOrderOnesAreOnes(count: nat)
    requires count < 64
    ensures LowOrderOnes(count) == Pow2(count) - 1
  {
    hide Pow2, Low, Shl;
    ShiftedOnes(64, count, 64);
  }

  /** `d as u8` */
  function AsByte(d: nat): (b: Byte)
  {
    assert Pow2(8) == 256;
    Low(d, 8)
  }
}
