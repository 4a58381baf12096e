/**
 has_eight_digits and eight_digits_to_value of AK/FloatingPointStringConversions.cpp:
 eight ASCII characters tested and converted at once inside one 64-bit word.
 */
module EightDigits {
  import opened Bits

  predicate IsDigit(c: int) { 0x30 <= c <= 0x39 }

  /** The word with all n bytes equal to c. */
  function Repeated(c: nat, n: nat): nat {
    if n == 0 then 0 else c + 256 * Repeated(c, n - 1)
  }

  lemma Constants()
    ensures Pow2(8) == 256 && Pow2(16) == 0x1_0000 && Pow2(32) == 0x1_0000_0000 && Pow2(64) == 0x1_0000_0000_0000_0000
    ensures Repeated(0x46, 8) == 0x4646464646464646 && Repeated(0x30, 8) == 0x3030303030303030
    ensures Repeated(0x80, 8) == 0x8080808080808080
  {
    assert Pow2(8) == 256;
    Pow2Add(8, 8);
    Pow2Add(16, 16);
    Pow2Add(32, 32);
  }

  /** has_eight_digits, with u64 sums and differences. */
  predicate HasEightDigits(value: nat)
    requires value < Pow2(64)
  {
    BitAnd(BitOr(Low(value + 0x4646464646464646, 64),
                 Low(value + 0x1_0000_0000_0000_0000 - 0x3030303030303030, 64)),
           0x8080808080808080) == 0
  }

  // ----- the test, byte by byte -----

  lemma {:induction false} RepeatedBelow(c: nat, n: nat)
    requires c < 256
    ensures Repeated(c, n) < Pow2(8 * n)
  {
    if n > 0 {
      RepeatedBelow(c, n - 1);
      EightMore(n - 1);
    }
  }

  lemma RepeatedStep(c: nat, n: nat)
    ensures Repeated(c, n + 1) == c + 256 * Repeated(c, n)
  {
  }

  /** The test on n bytes instead of eight. */
  ghost function Test(bytes: seq<Byte>): nat {
    var n := |bytes|;
    RepeatedBelow(0x30, n);
    BitAnd(BitOr(Low(Word(bytes) + Repeated(0x46, n), 8 * n),
                 Low(Word(bytes) + (Pow2(8 * n) - Repeated(0x30, n)), 8 * n)),
           Repeated(0x80, n))
  }

  lemma LowByte(lo: nat, hi: nat, n: nat)
    requires lo < 256
    ensures Low(lo + 256 * hi, 8 * (n + 1)) == lo + 256 * Low(hi, 8 * n)
  {
    hide Pow2, Low;
    assert Pow2(8) == 256 by { Constants(); }
    LowSplit(lo + 256 * hi, 8, 8 * n);
    PartsUnique(lo + 256 * hi, 8, lo, hi);
  }

  /** The lowest byte of the test stands apart. */
  lemma TestJoin(alo: nat, a: nat, slo: nat, s: nat, m: nat)
    requires alo < 256 && slo < 256
    ensures BitAnd(BitOr(alo + 256 * a, slo + 256 * s), 0x80 + 256 * m) ==
            BitAnd(BitOr(alo, slo), 0x80) + 256 * BitAnd(BitOr(a, s), m)
  {
    hide Pow2, BitAnd, BitOr;
    assert Pow2(8) == 256 by { Constants(); }
    BitOrJoin(alo, a, slo, s, 8);
    BitOrBelow(alo, slo, 8);
    BitAndJoin(BitOr(alo, slo), BitOr(a, s), 0x80, m, 8);
  }

  lemma {:induction false} BitOrBelow(x: nat, y: nat, n: nat)
    requires x < Pow2(n) && y < Pow2(n)
    ensures BitOr(x, y) < Pow2(n)
  {
    if n > 0 && x > 0 && y > 0 { BitOrBelow(x / 2, y / 2, n - 1); }
  }

  lemma {:induction false} TopBit(x: nat, n: nat)
    requires x < Pow2(n + 1)
    ensures Bit(x, n) <==> x >= Pow2(n)
  {
    if n > 0 { TopBit(x / 2, n - 1); }
  }

  lemma ByteTest(a: nat, s: nat)
    requires a < 256 && s < 256
    ensures BitAnd(BitOr(a, s), 0x80) == 0 <==> a < 0x80 && s < 0x80
  {
    assert Pow2(7) == 0x80 && Pow2(8) == 0x100;
    hide Pow2, BitAnd, BitOr, Bit;
    BitTest(BitOr(a, s), 7);
    BitOrBit(a, s, 7);
    TopBit(a, 7);
    TopBit(s, 7);
  }

  /** One byte of the sum and of the difference, with what is left for the higher bytes. */
  lemma TestStep(bytes: seq<Byte>, alo: nat, a: nat, slo: nat, s: nat)
    requires bytes != [] && alo < 256 && slo < 256
    requires alo + 256 * a == Word(bytes) + Repeated(0x46, |bytes|)
    requires slo + 256 * s == Word(bytes) + (Pow2(8 * |bytes|) - Repeated(0x30, |bytes|))
    ensures var n := |bytes| - 1;
            Test(bytes) == BitAnd(BitOr(alo, slo), 0x80)
                           + 256 * BitAnd(BitOr(Low(a, 8 * n), Low(s, 8 * n)), Repeated(0x80, n))
  {
    hide Pow2, BitAnd, BitOr, Low, Word, Repeated;
    var n := |bytes| - 1;
    RepeatedStep(0x80, n);
    LowByte(alo, a, n);
    LowByte(slo, s, n);
    TestJoin(alo, Low(a, 8 * n), slo, Low(s, 8 * n), Repeated(0x80, n));
  }

  /** The lowest byte of the sum, with the carry into the others. */
  lemma SumByte(bytes: seq<Byte>)
    requires bytes != []
    ensures var x, n, rest := bytes[0], |bytes| - 1, bytes[1..]; var carry := if x + 0x46 >= 256 then 1 else 0;
            (x + 0x46 - 256 * carry) + 256 * (Word(rest) + Repeated(0x46, n) + carry) ==
            Word(bytes) + Repeated(0x46, |bytes|)
  {
  }

  /** The lowest byte of the difference, with the borrow from the others. */
  lemma DifferenceByte(bytes: seq<Byte>)
    requires bytes != []
    ensures var x, n, rest := bytes[0], |bytes| - 1, bytes[1..]; var borrow := if x < 0x30 then 1 else 0;
            && Repeated(0x30, n) < Pow2(8 * n)
            && (x - 0x30 + 256 * borrow) + 256 * (Word(rest) + (Pow2(8 * n) - Repeated(0x30, n)) - borrow)
               == Word(bytes) + (Pow2(8 * |bytes|) - Repeated(0x30, |bytes|))
  {
    hide Pow2;
    RepeatedBelow(0x30, |bytes| - 1);
    EightMore(|bytes| - 1);
  }

  /** A borrow or a carry out of the lowest wrong byte cannot hide it. */
  lemma TestByte(bytes: seq<Byte>)
    requires bytes != []
    ensures if IsDigit(bytes[0]) then Test(bytes) == 256 * Test(bytes[1..]) else Test(bytes) != 0
  {
    hide Pow2, BitAnd, BitOr, Low, Word, Repeated;
    var x: int, n, rest := bytes[0], |bytes| - 1, bytes[1..];
    SumByte(bytes);
    DifferenceByte(bytes);
    var carry, borrow := if x + 0x46 >= 256 then 1 else 0, if x < 0x30 then 1 else 0;
    var alo, slo := x + 0x46 - 256 * carry, x - 0x30 + 256 * borrow;
    TestStep(bytes, alo, Word(rest) + Repeated(0x46, n) + carry,
             slo, Word(rest) + (Pow2(8 * n) - Repeated(0x30, n)) - borrow);
    ByteTest(alo, slo);
  }

  lemma {:induction false} TestDigits(bytes: seq<Byte>)
    ensures Test(bytes) == 0 <==> forall i :: 0 <= i < |bytes| ==> IsDigit(bytes[i])
  {
    if bytes == [] {
      assert Test([]) == 0 by { BitAndZero(0); }
    } else {
      hide Test;
      TestDigits(bytes[1..]);
      TestByte(bytes);
      DigitsSplit(bytes);
    }
  }

  lemma DigitsSplit(bytes: seq<Byte>)
    requires bytes != []
    ensures (forall i :: 0 <= i < |bytes| ==> IsDigit(bytes[i])) <==>
              IsDigit(bytes[0]) && forall i :: 0 <= i < |bytes[1..]| ==> IsDigit(bytes[1..][i])
  {
    assert bytes == [bytes[0]] + bytes[1..];
  }

  /** has_eight_digits accepts exactly the words made of eight ASCII digits. */
  lemma HasEightDigitsCorrect(bytes: seq<Byte>)
    requires |bytes| == 8
    ensures Word(bytes) < Pow2(64)
    ensures HasEightDigits(Word(bytes)) <==> forall i :: 0 <= i < 8 ==> IsDigit(bytes[i])
  {
    hide Pow2, BitAnd, BitOr, Low, Word, Repeated;
    Constants();
    WordBelow(bytes);
    TestDigits(bytes);
  }

  // ----- conversion -----

  /** One step of the trick: multiply in u64, shift right. */
  function Fold(v: nat, factor: nat, n: nat): nat {
    Shr(Low(v * factor, 64), n)
  }

  /** eight_digits_to_value, every step in u64 and the result cut to u32. */
  function EightDigitsToValue(value: nat): nat {
    Combined(Low(value + (0x1_0000_0000_0000_0000 - 0x3030303030303030), 64))
  }

  /** The digits, one in each byte, combined to one number. */
  function Combined(digits: nat): nat {
    var pairs := Fold(digits, 256 * 10 + 1, 8);
    var fours := Fold(BitAnd(pairs, 0x00FF00FF00FF00FF), 65536 * 100 + 1, 16);
    var eight := Fold(BitAnd(fours, 0x0000FFFF0000FFFF), 4294967296 * 10000 + 1, 32);
    Low(eight, 32)
  }

  /** The digit a character stands for. */
  function Digit(c: int): nat { if IsDigit(c) then c - 0x30 else 0 }

  /** The decimal number written by a string of digits. */
  function Decimal(s: seq<Byte>): nat {
    if s == [] then 0 else 10 * Decimal(s[..|s| - 1]) + Digit(s[|s| - 1])
  }

  /** What a step keeps: the middle between the shifted-out and the cut-off part. */
  lemma FoldParts(v: nat, factor: nat, n: nat, lo: nat, mid: nat, hi: nat)
    requires n <= 64 && lo < Pow2(n) && mid < Pow2(64 - n)
    requires v * factor == lo + Pow2(n) * mid + Pow2(64) * hi
    ensures Fold(v, factor, n) == mid
  {
    hide Pow2, Low, Shr;
    Pow2Add(n, 64 - n);
    MulStep(Pow2(n), mid, Pow2(64 - n));
    PartsUnique(v * factor, 64, lo + Pow2(n) * mid, hi);
    PartsUnique(lo + Pow2(n) * mid, n, lo, mid);
  }

  function Pair(lo: nat, hi: nat): nat { lo + 256 * hi }

  /** Four fields of 16 bits. */
  function Fields(a: nat, b: nat, c: nat, d: nat): nat {
    a + 0x1_0000 * (b + 0x1_0000 * (c + 0x1_0000 * d))
  }

  /** Step 1: digit pairs in the low bytes of the fields. */
  lemma Pairs(d0: nat, d1: nat, d2: nat, d3: nat, d4: nat, d5: nat, d6: nat, d7: nat)
    requires d0 < 10 && d1 < 10 && d2 < 10 && d3 < 10 && d4 < 10 && d5 < 10 && d6 < 10 && d7 < 10
    ensures Fold(Fields(Pair(d0, d1), Pair(d2, d3), Pair(d4, d5), Pair(d6, d7)), 256 * 10 + 1, 8)
         == Fields(Pair(10 * d0 + d1, 10 * d1 + d2), Pair(10 * d2 + d3, 10 * d3 + d4),
                   Pair(10 * d4 + d5, 10 * d5 + d6), 10 * d6 + d7)
  {
    hide Pow2, Fold;
    Constants();
    Pow2Add(8, 56);
    var v := Fields(Pair(d0, d1), Pair(d2, d3), Pair(d4, d5), Pair(d6, d7));
    var mid := Fields(Pair(10 * d0 + d1, 10 * d1 + d2), Pair(10 * d2 + d3, 10 * d3 + d4),
                      Pair(10 * d4 + d5, 10 * d5 + d6), 10 * d6 + d7);
    FoldParts(v, 2561, 8, d0, mid, 10 * d7);
  }

  /** Step 2: groups of four in the fields 0 and 2. */
  lemma Fours(a: nat, b: nat, c: nat, d: nat)
    requires a < 100 && b < 100 && c < 100 && d < 100
    ensures Fold(Fields(a, b, c, d), 65536 * 100 + 1, 16) == Fields(100 * a + b, 100 * b + c, 100 * c + d, 0)
  {
    hide Pow2, Fold;
    Constants();
    Pow2Add(16, 48);
    FoldParts(Fields(a, b, c, d), 6553601, 16, a, Fields(100 * a + b, 100 * b + c, 100 * c + d, 0), 100 * d);
  }

  /** Step 3: all eight. */
  lemma Eight(a: nat, c: nat)
    requires a < 10000 && c < 10000
    ensures Fold(Fields(a, 0, c, 0), 4294967296 * 10000 + 1, 32) == 10000 * a + c
  {
    hide Pow2, Fold;
    Constants();
    FoldParts(Fields(a, 0, c, 0), 42949672960001, 32, a, 10000 * a + c, 10000 * c);
  }

  /** A mask that keeps the lower of two parts. */
  lemma KeepLow(lo: nat, garbage: nat, hi: nat, mask: nat, n: nat)
    requires lo < Pow2(n) && garbage < Pow2(n)
    ensures BitAnd(lo + Pow2(n) * (garbage + Pow2(n) * hi), Pow2(n) - 1 + Pow2(n) * (0 + Pow2(n) * mask)) ==
            lo + Pow2(n) * (Pow2(n) * BitAnd(hi, mask))
  {
    hide Pow2, Low, BitAnd;
    var x, m := garbage + Pow2(n) * hi, 0 + Pow2(n) * mask;
    BitAndJoin(lo, x, Pow2(n) - 1, m, n);
    BitAndMask(lo, n);
    LowSmall(lo, n);
    BitAndJoin(garbage, hi, 0, mask, n);
    assert BitAnd(x, m) == Pow2(n) * BitAnd(hi, mask) by { BitAndZero(garbage); }
  }

  lemma BitAndZero(x: nat)
    ensures BitAnd(x, 0) == 0
  {
  }

  lemma MaskPairs(a: nat, b: nat, c: nat, d: nat, x: nat, y: nat, z: nat)
    requires a < 256 && b < 256 && c < 256 && d < 256 && x < 256 && y < 256 && z < 256
    ensures BitAnd(Fields(Pair(a, x), Pair(b, y), Pair(c, z), d), 0x00FF00FF00FF00FF) == Fields(a, b, c, d)
  {
    hide Pow2, BitAnd;
    KeepByte(d, 0, 0, 0);
    BitAndZero(0);
    KeepByte(c, z, d, 0x00FF);
    KeepByte(b, y, Pair(c, z) + 0x1_0000 * d, 0x00FF00FF);
    KeepByte(a, x, Pair(b, y) + 0x1_0000 * (Pair(c, z) + 0x1_0000 * d), 0x00FF00FF00FF);
  }

  lemma KeepByte(lo: nat, garbage: nat, hi: nat, mask: nat)
    requires lo < 256 && garbage < 256
    ensures BitAnd(Pair(lo, garbage) + 0x1_0000 * hi, 0xFF + 0x1_0000 * mask) == lo + 0x1_0000 * BitAnd(hi, mask)
  {
    hide Pow2, BitAnd;
    assert Pow2(8) == 256 by { Constants(); }
    KeepLow(lo, garbage, hi, mask, 8);
    assert 256 * (garbage + 256 * hi) == 256 * garbage + 0x1_0000 * hi;
  }

  lemma MaskFours(a: nat, b: nat, c: nat)
    requires a < 0x1_0000 && b < 0x1_0000 && c < 0x1_0000
    ensures BitAnd(Fields(a, b, c, 0), 0x0000FFFF0000FFFF) == Fields(a, 0, c, 0)
  {
    hide Pow2, BitAnd;
    assert Pow2(16) == 0x1_0000 by { Constants(); }
    KeepLow(a, b, c, 0xFFFF, 16);
    KeepLow(c, 0, 0, 0, 16);
    BitAndZero(0);
  }

  lemma WordOfEight(s: seq<Byte>)
    requires |s| == 8
    ensures Word(s) == Fields(Pair(s[0], s[1]), Pair(s[2], s[3]), Pair(s[4], s[5]), Pair(s[6], s[7]))
  {
    WordOfFour(s[4..]);
    assert Word(s) == s[0] + 256 * Word(s[1..]);
    assert s[1..][1..] == s[2..] && s[2..][1..] == s[3..] && s[3..][1..] == s[4..];
    assert Word(s[1..]) == s[1] + 256 * Word(s[2..]);
    assert Word(s[2..]) == s[2] + 256 * Word(s[3..]);
    assert Word(s[3..]) == s[3] + 256 * Word(s[4..]);
  }

  lemma WordOfFour(s: seq<Byte>)
    requires |s| == 4
    ensures Word(s) == Pair(s[0], Pair(s[1], Pair(s[2], s[3])))
  {
    assert s[1..][1..] == s[2..] && s[2..][1..] == s[3..] && s[3..][1..] == [];
    assert Word(s[2..]) == Pair(s[2], Word(s[3..])) && Word(s[3..]) == s[3];
  }

  lemma DecimalOfEight(s: seq<Byte>)
    requires |s| == 8
    ensures Decimal(s) == 10000 * (1000 * Digit(s[0]) + 100 * Digit(s[1]) + 10 * Digit(s[2]) + Digit(s[3]))
                        + (1000 * Digit(s[4]) + 100 * Digit(s[5]) + 10 * Digit(s[6]) + Digit(s[7]))
  {
    DecimalOfFour(s[..4]);
    assert s[..7][..6] == s[..6] && s[..6][..5] == s[..5] && s[..5][..4] == s[..4];
    assert Decimal(s) == 10 * Decimal(s[..7]) + Digit(s[7]);
    assert Decimal(s[..7]) == 10 * Decimal(s[..6]) + Digit(s[6]);
    assert Decimal(s[..6]) == 10 * Decimal(s[..5]) + Digit(s[5]);
    assert Decimal(s[..5]) == 10 * Decimal(s[..4]) + Digit(s[4]);
  }

  lemma DecimalOfFour(s: seq<Byte>)
    requires |s| == 4
    ensures Decimal(s) == 1000 * Digit(s[0]) + 100 * Digit(s[1]) + 10 * Digit(s[2]) + Digit(s[3])
  {
    assert s[..3][..2] == s[..2] && s[..2][..1] == s[..1] && s[..1][..0] == [];
    assert Decimal(s[..2]) == 10 * Decimal(s[..1]) + Digit(s[1]) && Decimal(s[..1]) == Digit(s[0]);
  }

  /** eight_digits_to_value computes the decimal number of eight digits. */
  lemma EightDigitsToValueCorrect(s: seq<Byte>)
    requires |s| == 8 && forall i :: 0 <= i < 8 ==> IsDigit(s[i])
    ensures EightDigitsToValue(Word(s)) == Decimal(s) && 0 <= Decimal(s) < 100_000_000
  {
    hide Combined, Low, Fields, Pair, Word, Decimal, Digit;
    DecimalOfEight(s);
    Unbias(s);
    forall i | 0 <= i < 8 ensures Digit(s[i]) < 10 { DigitBelow(s[i]); }
    CombinedCorrect(Digit(s[0]), Digit(s[1]), Digit(s[2]), Digit(s[3]),
                    Digit(s[4]), Digit(s[5]), Digit(s[6]), Digit(s[7]));
  }

  lemma DigitBelow(c: int)
    ensures Digit(c) < 10
  {
  }

  lemma CombinedCorrect(d0: nat, d1: nat, d2: nat, d3: nat, d4: nat, d5: nat, d6: nat, d7: nat)
    requires d0 < 10 && d1 < 10 && d2 < 10 && d3 < 10 && d4 < 10 && d5 < 10 && d6 < 10 && d7 < 10
    ensures Combined(Fields(Pair(d0, d1), Pair(d2, d3), Pair(d4, d5), Pair(d6, d7)))
         == 10000 * (1000 * d0 + 100 * d1 + 10 * d2 + d3) + (1000 * d4 + 100 * d5 + 10 * d6 + d7)
  {
    hide Pow2, Low, BitAnd, Fold, Fields, Pair;
    Pairs(d0, d1, d2, d3, d4, d5, d6, d7);
    var a, b, c, d := 10 * d0 + d1, 10 * d2 + d3, 10 * d4 + d5, 10 * d6 + d7;
    MaskPairs(a, b, c, d, 10 * d1 + d2, 10 * d3 + d4, 10 * d5 + d6);
    Fours(a, b, c, d);
    MaskFours(100 * a + b, 100 * b + c, 100 * c + d);
    Eight(100 * a + b, 100 * c + d);
    assert Pow2(32) == 0x1_0000_0000 by { Constants(); }
    LowSmall(10000 * (100 * a + b) + (100 * c + d), 32);
  }

  /** Subtracting 0x30 from every byte. */
  lemma Unbias(s: seq<Byte>)
    requires |s| == 8 && forall i :: 0 <= i < 8 ==> IsDigit(s[i])
    ensures Low(Word(s) + (0x1_0000_0000_0000_0000 - 0x3030303030303030), 64)
         == Fields(Pair(Digit(s[0]), Digit(s[1])), Pair(Digit(s[2]), Digit(s[3])),
                   Pair(Digit(s[4]), Digit(s[5])), Pair(Digit(s[6]), Digit(s[7])))
  {
    hide Pow2, Low, Word;
    WordOfEight(s);
    Constants();
    var v := Fields(Pair(Digit(s[0]), Digit(s[1])), Pair(Digit(s[2]), Digit(s[3])),
                    Pair(Digit(s[4]), Digit(s[5])), Pair(Digit(s[6]), Digit(s[7])));
    LowPeriodic(v, 1, 64);
    LowSmall(v, 64);
  }
}
