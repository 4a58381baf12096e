/**
 Bits of natural numbers.  Machine words of any width are modelled as naturals
 below a power of two; shifts are multiplication and division by powers of two,
 and the bitwise operators are defined bit by bit.
 */
module Bits {
  import opened Words

  type Byte = x: int | 0 <= x < 256

  function Pow2(n: nat): (p: nat)
    ensures p > 0
  {
    if n == 0 then 1 else 2 * Pow2(n - 1)
  }

  /** Is bit `k` of `x` set? */
  predicate Bit(x: nat, k: nat) {
    if k == 0 then x % 2 == 1 else Bit(x / 2, k - 1)
  }

  function BitOr(x: nat, y: nat): nat {
    if x == 0 then y else if y == 0 then x
    else 2 * BitOr(x / 2, y / 2) + (if x % 2 == 1 || y % 2 == 1 then 1 else 0)
  }

  function BitAnd(x: nat, y: nat): nat {
    if x == 0 || y == 0 then 0
    else 2 * BitAnd(x / 2, y / 2) + (if x % 2 == 1 && y % 2 == 1 then 1 else 0)
  }

  /** Left shift without overflow. */
  function Shl(x: nat, n: nat): nat {
    if n == 0 then x else 2 * Shl(x, n - 1)
  }

  lemma ShlStep(x: nat, n: nat)
    ensures Shl(x, n) == if n == 0 then x else 2 * Shl(x, n - 1)
  {
  }

  /** Right shift. */
  function Shr(x: nat, n: nat): nat {
    if n == 0 then x else Shr(x / 2, n - 1)
  }

  /** The low `n` bits. */
  function Low(x: nat, n: nat): (r: nat)
    ensures r < Pow2(n)
  {
    if n == 0 then 0 else x % 2 + 2 * Low(x / 2, n - 1)
  }

  lemma Pow2Zero()
    ensures Pow2(0) == 1
  {
  }

  lemma {:induction false} Pow2Add(m: nat, n: nat)
    ensures Pow2(m + n) == Pow2(m) * Pow2(n)
  {
    if m > 0 {
      Pow2Add(m - 1, n);
      MulAssoc(2, Pow2(m - 1), Pow2(n));
    }
  }

  lemma {:induction false} Pow2Mono(m: nat, n: nat)
    requires m <= n
    ensures Pow2(m) <= Pow2(n)
  {
    if m < n { Pow2Mono(m, n - 1); }
  }

  lemma {:induction false} LowShrShl(x: nat, n: nat)
    ensures x == Low(x, n) + Shl(Shr(x, n), n)
  {
    if n > 0 { LowShrShl(x / 2, n - 1); }
  }

  lemma {:induction false} ShlParts(lo: nat, hi: nat, n: nat)
    requires lo < Pow2(n)
    ensures Low(lo + Shl(hi, n), n) == lo && Shr(lo + Shl(hi, n), n) == hi
  {
    if n > 0 {
      Halve(lo, Shl(hi, n - 1));
      ShlParts(lo / 2, hi, n - 1);
    }
  }

  /** A number is its low bits plus its high bits moved up. */
  lemma Parts(x: nat, n: nat)
    ensures x == Low(x, n) + Pow2(n) * Shr(x, n)
  {
    LowShrShl(x, n);
    ShlIsProduct(Shr(x, n), n);
  }

  lemma PartsUnique(x: nat, n: nat, lo: nat, hi: nat)
    requires lo < Pow2(n) && x == lo + Pow2(n) * hi
    ensures Low(x, n) == lo && Shr(x, n) == hi
  {
    ShlIsProduct(hi, n);
    ShlParts(lo, hi, n);
  }

  /** In arithmetic terms: remainder and quotient by a power of two. */
  lemma LowShrDivMod(x: nat, n: nat)
    ensures Low(x, n) == x % Pow2(n) && Shr(x, n) == x / Pow2(n)
  {
    Parts(x, n);
    DivModUnique(x, Pow2(n), Shr(x, n), Low(x, n));
  }

  lemma {:induction false} BitZero(k: nat)
    ensures !Bit(0, k)
  {
    if k > 0 { BitZero(k - 1); }
  }

  lemma {:induction false} BitOrBit(x: nat, y: nat, k: nat)
    ensures Bit(BitOr(x, y), k) == (Bit(x, k) || Bit(y, k))
  {
    if x == 0 || y == 0 {
      BitZero(k);
    } else if k > 0 {
      BitOrBit(x / 2, y / 2, k - 1);
    }
  }

  lemma {:induction false} BitAndBit(x: nat, y: nat, k: nat)
    ensures Bit(BitAnd(x, y), k) == (Bit(x, k) && Bit(y, k))
  {
    if x == 0 || y == 0 {
      BitZero(k);
    } else if k > 0 {
      BitAndBit(x / 2, y / 2, k - 1);
    }
  }

  lemma {:induction false} BitAbove(x: nat, n: nat, k: nat)
    requires x < Pow2(n) && n <= k
    ensures !Bit(x, k)
  {
    if n == 0 {
      BitZero(k);
    } else {
      BitAbove(x / 2, n - 1, k - 1);
    }
  }

  lemma Pow2Halves(x: nat, n: nat)
    requires n > 0 && x < Pow2(n)
    ensures x / 2 < Pow2(n - 1)
  {
  }

  lemma Halve(x: nat, t: nat)
    ensures (x + 2 * t) % 2 == x % 2 && (x + 2 * t) / 2 == x / 2 + t
  {
  }

  lemma {:induction false} BitShl(lo: nat, hi: nat, n: nat, k: nat)
    requires lo < Pow2(n)
    ensures Bit(lo + Shl(hi, n), k) == if k < n then Bit(lo, k) else Bit(hi, k - n)
  {
    if n > 0 {
      Halve(lo, Shl(hi, n - 1));
      if k > 0 { BitShl(lo / 2, hi, n - 1, k - 1); }
    }
  }

  /** The low and the high part of a number carry its bits. */
  lemma BitJoin(lo: nat, hi: nat, n: nat, k: nat)
    requires lo < Pow2(n)
    ensures Bit(lo + Pow2(n) * hi, k) == if k < n then Bit(lo, k) else Bit(hi, k - n)
  {
    BitShl(lo, hi, n, k);
    ShlIsProduct(hi, n);
  }

  /** Numbers with the same bits are equal. */
  lemma {:induction false} BitsEqual(x: nat, y: nat, n: nat)
    requires x < Pow2(n) && y < Pow2(n)
    requires forall k :: 0 <= k < n ==> Bit(x, k) == Bit(y, k)
    ensures x == y
  {
    if n > 0 {
      assert Bit(x, 0) == Bit(y, 0);
      forall k | 0 <= k < n - 1 ensures Bit(x / 2, k) == Bit(y / 2, k) {
        assert Bit(x, k + 1) == Bit(y, k + 1);
      }
      BitsEqual(x / 2, y / 2, n - 1);
    }
  }

  lemma {:induction false} BitOrShl(hi: nat, lo: nat, n: nat)
    requires lo < Pow2(n)
    ensures BitOr(Shl(hi, n), lo) == Shl(hi, n) + lo
  {
    if n > 0 { BitOrShl(hi, lo / 2, n - 1); }
  }

  /** Or-ing a number into zeroed low bits adds it. */
  lemma BitOrDisjoint(hi: nat, lo: nat, n: nat)
    requires lo < Pow2(n)
    ensures BitOr(Pow2(n) * hi, lo) == Pow2(n) * hi + lo
  {
    BitOrShl(hi, lo, n);
    ShlIsProduct(hi, n);
  }

  lemma {:induction false} BitOrComm(x: nat, y: nat)
    ensures BitOr(x, y) == BitOr(y, x)
  {
    if x != 0 && y != 0 { BitOrComm(x / 2, y / 2); }
  }

  lemma {:induction false} ShlIsProduct(x: nat, n: nat)
    ensures Shl(x, n) == Pow2(n) * x
  {
    if n > 0 {
      ShlIsProduct(x, n - 1);
      MulAssoc(2, Pow2(n - 1), x);
    }
  }

  lemma {:induction false} BitAndShl(lo: nat, hi: nat, mlo: nat, mhi: nat, n: nat)
    requires lo < Pow2(n) && mlo < Pow2(n)
    ensures BitAnd(lo + Shl(hi, n), mlo + Shl(mhi, n)) == BitAnd(lo, mlo) + Shl(BitAnd(hi, mhi), n)
  {
    hide BitAnd, Shl, Pow2;
    ShlStep(hi, n);
    ShlStep(mhi, n);
    ShlStep(BitAnd(hi, mhi), n);
    if n > 0 {
      Pow2Halves(lo, n);
      Pow2Halves(mlo, n);
      BitAndShl(lo / 2, hi, mlo / 2, mhi, n - 1);
      BitAndHalves(lo, Shl(hi, n - 1), mlo, Shl(mhi, n - 1), Shl(BitAnd(hi, mhi), n - 1));
    } else {
      Pow2Zero();
      ZeroBits();
    }
  }

  lemma ZeroBits()
    ensures BitAnd(0, 0) == 0 && BitOr(0, 0) == 0
  {
  }

  lemma BitAndHalves(lo: nat, t: nat, mlo: nat, u: nat, v: nat)
    requires BitAnd(lo / 2 + t, mlo / 2 + u) == BitAnd(lo / 2, mlo / 2) + v
    ensures BitAnd(lo + 2 * t, mlo + 2 * u) == BitAnd(lo, mlo) + 2 * v
  {
    hide BitAnd;
    Halve(lo, t);
    Halve(mlo, u);
    BitAndStep(lo + 2 * t, mlo + 2 * u);
    BitAndStep(lo, mlo);
  }

  /** Bitwise and works on low and high parts separately. */
  lemma BitAndJoin(lo: nat, hi: nat, mlo: nat, mhi: nat, n: nat)
    requires lo < Pow2(n) && mlo < Pow2(n)
    ensures BitAnd(lo + Pow2(n) * hi, mlo + Pow2(n) * mhi) == BitAnd(lo, mlo) + Pow2(n) * BitAnd(hi, mhi)
  {
    BitAndShl(lo, hi, mlo, mhi, n);
    ShlIsProduct(hi, n);
    ShlIsProduct(mhi, n);
    ShlIsProduct(BitAnd(hi, mhi), n);
  }

  lemma BitAndStep(x: nat, y: nat)
    ensures BitAnd(x, y) == 2 * BitAnd(x / 2, y / 2) + (if x % 2 == 1 && y % 2 == 1 then 1 else 0)
  {
  }

  lemma BitOrStep(x: nat, y: nat)
    ensures BitOr(x, y) == 2 * BitOr(x / 2, y / 2) + (if x % 2 == 1 || y % 2 == 1 then 1 else 0)
  {
  }

  lemma {:induction false} BitOrShl2(lo: nat, hi: nat, mlo: nat, mhi: nat, n: nat)
    requires lo < Pow2(n) && mlo < Pow2(n)
    ensures BitOr(lo + Shl(hi, n), mlo + Shl(mhi, n)) == BitOr(lo, mlo) + Shl(BitOr(hi, mhi), n)
  {
    hide BitOr, Shl, Pow2;
    ShlStep(hi, n);
    ShlStep(mhi, n);
    ShlStep(BitOr(hi, mhi), n);
    if n > 0 {
      Pow2Halves(lo, n);
      Pow2Halves(mlo, n);
      BitOrShl2(lo / 2, hi, mlo / 2, mhi, n - 1);
      BitOrHalves(lo, Shl(hi, n - 1), mlo, Shl(mhi, n - 1), Shl(BitOr(hi, mhi), n - 1));
    } else {
      Pow2Zero();
      ZeroBits();
    }
  }

  lemma BitOrHalves(lo: nat, t: nat, mlo: nat, u: nat, v: nat)
    requires BitOr(lo / 2 + t, mlo / 2 + u) == BitOr(lo / 2, mlo / 2) + v
    ensures BitOr(lo + 2 * t, mlo + 2 * u) == BitOr(lo, mlo) + 2 * v
  {
    hide BitOr;
    Halve(lo, t);
    Halve(mlo, u);
    BitOrStep(lo + 2 * t, mlo + 2 * u);
    BitOrStep(lo, mlo);
  }

  /** Bitwise or works on low and high parts separately. */
  lemma BitOrJoin(lo: nat, hi: nat, mlo: nat, mhi: nat, n: nat)
    requires lo < Pow2(n) && mlo < Pow2(n)
    ensures BitOr(lo + Pow2(n) * hi, mlo + Pow2(n) * mhi) == BitOr(lo, mlo) + Pow2(n) * BitOr(hi, mhi)
  {
    BitOrShl2(lo, hi, mlo, mhi, n);
    ShlIsProduct(hi, n);
    ShlIsProduct(mhi, n);
    ShlIsProduct(BitOr(hi, mhi), n);
  }

  /** Multiples of 2^n do not reach the low n bits. */
  lemma LowPeriodic(x: nat, k: nat, n: nat)
    ensures Low(x + Pow2(n) * k, n) == Low(x, n)
  {
    hide Pow2, Low;
    Parts(x, n);
    MulDistrib(Pow2(n), Shr(x, n), k);
    PartsUnique(x + Pow2(n) * k, n, Low(x, n), Shr(x, n) + k);
  }

  lemma LowSmall(x: nat, n: nat)
    requires x < Pow2(n)
    ensures Low(x, n) == x
  {
    PartsUnique(x, n, x, 0);
  }

  lemma {:induction false} LowSplit(x: nat, m: nat, n: nat)
    ensures Low(x, m + n) == Low(x, m) + Pow2(m) * Low(Shr(x, m), n)
  {
    if m > 0 {
      LowSplit(x / 2, m - 1, n);
      MulAssoc(2, Pow2(m - 1), Low(Shr(x / 2, m - 1), n));
    }
  }

  /** Masking with all ones keeps the low bits. */
  lemma {:induction false} BitAndMask(x: nat, n: nat)
    ensures BitAnd(x, Pow2(n) - 1) == Low(x, n)
  {
    if n > 0 {
      BitAndMask(x / 2, n - 1);
      BitAndStep(x, Pow2(n) - 1);
    }
  }

  /** The complement in n bits. */
  function Complement(x: nat, n: nat): nat
    requires x < Pow2(n)
  {
    Pow2(n) - 1 - x
  }

  lemma {:induction false} BitComplement(x: nat, n: nat, k: nat)
    requires x < Pow2(n) && k < n
    ensures Bit(Complement(x, n), k) == !Bit(x, k)
  {
    if k > 0 { BitComplement(x / 2, n - 1, k - 1); }
  }

  lemma {:induction false} BitPow2(n: nat, k: nat)
    ensures Bit(Pow2(n), k) == (k == n)
  {
    if n > 0 && k > 0 {
      BitPow2(n - 1, k - 1);
    } else if k > 0 {
      BitZero(k - 1);
    }
  }

  /** Masking with one bit tests it. */
  lemma {:induction false} BitTest(x: nat, n: nat)
    ensures BitAnd(x, Pow2(n)) == if Bit(x, n) then Pow2(n) else 0
  {
    BitAndStep(x, Pow2(n));
    if n > 0 { BitTest(x / 2, n - 1); }
  }

  lemma {:induction false} BitLow(x: nat, n: nat, k: nat)
    ensures Bit(Low(x, n), k) == (k < n && Bit(x, k))
  {
    if n == 0 {
      BitZero(k);
    } else if k > 0 {
      BitLow(x / 2, n - 1, k - 1);
    }
  }

  lemma DivModUnique(x: int, d: int, q: int, r: int)
    requires d > 0 && x == d * q + r && 0 <= r < d
    ensures x / d == q && x % d == r
  {
    var q', r' := x / d, x % d;
    assert d * q' + r' == d * q + r;
    if q' > q { MulStep(d, q, q'); }
    if q' < q { MulStep(d, q', q); }
  }

  lemma MulStep(d: int, q: int, q': int)
    requires d > 0 && q < q'
    ensures d * q + d <= d * q'
  {
    MulLe(q + 1, q', d);
    assert (q + 1) * d == q * d + d;
  }

  lemma ShrBelow(x: nat, m: nat, n: nat)
    requires x < Pow2(m + n)
    ensures Shr(x, m) < Pow2(n)
  {
    hide Pow2, Shr;
    Parts(x, m);
    Pow2Add(m, n);
    if Shr(x, m) >= Pow2(n) { MulLe(Pow2(n), Shr(x, m), Pow2(m)); }
  }

  // ----- bytes in memory -----

  /** Bytes in memory as a little-endian word. */
  function Word(bytes: seq<Byte>): nat {
    if bytes == [] then 0 else bytes[0] + 256 * Word(bytes[1..])
  }

  /** The first n bytes of a little-endian word in memory. */
  function Bytes(x: nat, n: nat): (s: seq<Byte>)
    ensures |s| == n
  {
    if n == 0 then [] else [x % 256] + Bytes(x / 256, n - 1)
  }

  lemma EightMore(n: nat)
    ensures Pow2(8 * (n + 1)) == 256 * Pow2(8 * n)
  {
    Pow2Add(8, 8 * n);
    assert Pow2(8) == 256;
  }

  lemma {:induction false} WordBelow(bytes: seq<Byte>)
    ensures Word(bytes) < Pow2(8 * |bytes|)
  {
    if bytes != [] {
      WordBelow(bytes[1..]);
      EightMore(|bytes| - 1);
    }
  }

  lemma {:induction false} WordConcat(s: seq<Byte>, t: seq<Byte>)
    ensures Word(s + t) == Word(s) + Pow2(8 * |s|) * Word(t)
  {
    if s == [] {
      assert s + t == t;
    } else {
      WordConcat(s[1..], t);
      assert (s + t)[1..] == s[1..] + t;
      EightMore(|s| - 1);
      MulAssoc(256, Pow2(8 * (|s| - 1)), Word(t));
    }
  }

  /** Storing n bytes of a word and loading them again keeps its low bits. */
  lemma {:induction false} WordBytes(x: nat, n: nat)
    ensures x == Word(Bytes(x, n)) + Pow2(8 * n) * Shr(x, 8 * n) && Word(Bytes(x, n)) < Pow2(8 * n)
  {
    WordBelow(Bytes(x, n));
    if n > 0 {
      WordBytes(x / 256, n - 1);
      EightMore(n - 1);
      ShrByte(x, 8 * (n - 1));
      MulAssoc(256, Pow2(8 * (n - 1)), Shr(x / 256, 8 * (n - 1)));
      assert Bytes(x, n)[1..] == Bytes(x / 256, n - 1);
    }
  }

  lemma {:induction false} ShrShr(x: nat, m: nat, n: nat)
    ensures Shr(x, m + n) == Shr(Shr(x, m), n)
  {
    if m > 0 { ShrShr(x / 2, m - 1, n); }
  }

  lemma ShrByte(x: nat, n: nat)
    ensures Shr(x, n + 8) == Shr(x / 256, n)
  {
    assert Pow2(8) == 256;
    LowShrDivMod(x, 8);
    ShrShr(x, 8, n);
  }
}
