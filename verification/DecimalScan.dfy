/**
 parse_numbers of AK/FloatingPointStringConversions.cpp: a decimal numeral becomes a
 64-bit mantissa and an exponent, exact up to 19 significant digits and bracketing beyond.
 */
module DecimalScan {
  import opened Wrappers
  import opened Words
  import opened Bits
  import opened EightDigits

  // ----- the grammar, as a reference -----

  /** The first position from p on that holds no digit. */
  function DigitsEnd(s: seq<Byte>, p: nat): (e: nat)
    requires p <= |s|
    ensures p <= e <= |s| && (e < |s| ==> !IsDigit(s[e])) && forall i :: p <= i < e ==> IsDigit(s[i])
    decreases |s| - p
  {
    if p < |s| && IsDigit(s[p]) then DigitsEnd(s, p + 1) else p
  }

  predicate IsSign(c: int) { c == '-' as int || c == '+' as int }

  /** The exponent digits start after the letter and an optional sign. */
  function ExponentStart(s: seq<Byte>, p: nat): (x: nat)
    requires p <= |s|
    ensures p <= x
  {
    if p < |s| && (s[p] == 'e' as int || s[p] == 'E' as int) then
      if p + 1 < |s| && IsSign(s[p + 1]) then p + 2 else p + 1
    else p
  }

  predicate HasExponent(s: seq<Byte>, p: nat)
    requires p <= |s|
  {
    var x := ExponentStart(s, p);
    p < x < |s| && IsDigit(s[x])
  }

  datatype Number = Number(negative: bool, whole: seq<Byte>, fraction: seq<Byte>, negativeExponent: bool,
                           exponent: seq<Byte>, end: nat)

  /** The longest numeral at the start of s: sign, digits with at most one dot, optional exponent. */
  function Numeral(s: seq<Byte>): (n: Option<Number>) {
    var w0 := if s != [] && IsSign(s[0]) then 1 else 0;
    var w1 := DigitsEnd(s, w0);
    var f0 := FractionStart(s, w1);
    var f1 := if f0 > w1 then DigitsEnd(s, f0) else f0;
    if w0 == w1 && f0 == f1 then None
    else Some(WithExponent(s, s != [] && s[0] == '-' as int, s[w0..w1], s[f0..f1], f1))
  }

  function FractionStart(s: seq<Byte>, p: nat): (f: nat)
    requires p <= |s|
    ensures p <= f <= |s| && f <= p + 1 && (f > p <==> p < |s| && s[p] == '.' as int)
  {
    if p < |s| && s[p] == '.' as int then p + 1 else p
  }

  function WithExponent(s: seq<Byte>, negative: bool, whole: seq<Byte>, fraction: seq<Byte>, p: nat): Number
    requires p <= |s|
  {
    if HasExponent(s, p) then
      var x := ExponentStart(s, p);
      Number(negative, whole, fraction, s[p + 1] == '-' as int, s[x..DigitsEnd(s, x)], DigitsEnd(s, x))
    else
      Number(negative, whole, fraction, false, [], p)
  }

  // ----- the grammar, by its spelling -----

  /** Where the pieces of a numeral end: sign, digits, dot, digits, letter, sign, digits. */
  datatype Cuts = Cuts(sign: nat, whole: nat, dot: nat, fraction: nat, letter: nat, exponentSign: nat, end: nat)

  ghost predicate AllDigits(s: seq<Byte>, p: nat, q: nat)
    requires q <= |s|
  {
    forall i :: p <= i < q ==> '0' as int <= s[i] <= '9' as int
  }

  /** At most one character between the positions, and that one of the two given. */
  ghost predicate Optional(s: seq<Byte>, p: nat, q: nat, c: char, d: char)
    requires q <= |s|
  {
    p <= q <= p + 1 && (q > p ==> s[p] == c as int || s[p] == d as int)
  }

  /** Sign, digits, dot, digits; there are digits, and those after the dot only with the dot. */
  ghost predicate SpellsDigits(s: seq<Byte>, sign: nat, whole: nat, dot: nat, fraction: nat) {
    && sign <= whole <= dot <= fraction <= |s|
    && Optional(s, 0, sign, '+', '-') && AllDigits(s, sign, whole)
    && Optional(s, whole, dot, '.', '.') && AllDigits(s, dot, fraction)
    && (dot == whole ==> fraction == dot) && (whole > sign || fraction > dot)
  }

  /** Letter, sign, digits; all are missing, or the letter and digits are there. */
  ghost predicate SpellsExponent(s: seq<Byte>, fraction: nat, letter: nat, sign: nat, end: nat) {
    && fraction <= letter <= sign <= end <= |s|
    && Optional(s, fraction, letter, 'e', 'E') && Optional(s, letter, sign, '+', '-') && AllDigits(s, sign, end)
    && (letter > fraction <==> end > sign) && (letter == fraction ==> sign == letter)
  }

  /** The text begins with a numeral that has these pieces. */
  ghost predicate Spells(s: seq<Byte>, c: Cuts) {
    && SpellsDigits(s, c.sign, c.whole, c.dot, c.fraction)
    && SpellsExponent(s, c.fraction, c.letter, c.exponentSign, c.end)
  }

  /** What the pieces say. */
  ghost function Reading(s: seq<Byte>, c: Cuts): Number
    requires Spells(s, c)
  {
    Number(c.sign == 1 && s[0] == '-' as int, s[c.sign..c.whole], s[c.dot..c.fraction],
           c.exponentSign > c.letter && s[c.letter] == '-' as int, s[c.exponentSign..c.end], c.end)
  }

  /** The pieces that the grammar takes. */
  ghost function Taken(s: seq<Byte>): (c: Cuts) {
    var w0 := if s != [] && IsSign(s[0]) then 1 else 0;
    var w1 := DigitsEnd(s, w0);
    var f0 := FractionStart(s, w1);
    TakenFrom(s, w0, w1, f0, if f0 > w1 then DigitsEnd(s, f0) else f0)
  }

  ghost function TakenFrom(s: seq<Byte>, w0: nat, w1: nat, f0: nat, f1: nat): (c: Cuts)
    requires f1 <= |s|
  {
    if HasExponent(s, f1) then Cuts(w0, w1, f0, f1, f1 + 1, ExponentStart(s, f1), DigitsEnd(s, ExponentStart(s, f1)))
    else Cuts(w0, w1, f0, f1, f1, f1, f1)
  }

  lemma TakenSpells(s: seq<Byte>)
    requires Numeral(s).Some?
    ensures Spells(s, Taken(s)) && Numeral(s).value == Reading(s, Taken(s))
  {
    hide DigitsEnd, Taken, Numeral, Spells, FractionStart, WithExponent, TakenFrom;
    if s == [] { NothingThere(s); }
    var w0 := if s != [] && IsSign(s[0]) then 1 else 0;
    var w1 := DigitsEnd(s, w0);
    var f0 := FractionStart(s, w1);
    var f1 := if f0 > w1 then DigitsEnd(s, f0) else f0;
    TakenParts(s, w0, w1, f0, f1);
    NumeralParts(s, w0, w1, f0, f1);
    TakenReads(s, w0, w1, f0, f1);
  }

  lemma TakenReads(s: seq<Byte>, w0: nat, w1: nat, f0: nat, f1: nat)
    requires s != [] && w0 == (if IsSign(s[0]) then 1 else 0) && w1 == DigitsEnd(s, w0)
    requires f0 == FractionStart(s, w1) && f1 == if f0 > w1 then DigitsEnd(s, f0) else f0
    requires w0 < w1 || f0 < f1
    ensures var c := TakenFrom(s, w0, w1, f0, f1);
            Spells(s, c) && Reading(s, c) == WithExponent(s, s[0] == '-' as int, s[w0..w1], s[f0..f1], f1)
  {
    hide DigitsEnd, SpellsDigits, FractionStart;
    DigitsReads(s, w0, w1, f0, f1);
    if !HasExponent(s, f1) {
      assert s[f1..f1] == [];
    }
  }

  lemma DigitsReads(s: seq<Byte>, w0: nat, w1: nat, f0: nat, f1: nat)
    requires s != [] && w0 == (if IsSign(s[0]) then 1 else 0) && w1 == DigitsEnd(s, w0)
    requires f0 == FractionStart(s, w1) && f1 == if f0 > w1 then DigitsEnd(s, f0) else f0
    requires w0 < w1 || f0 < f1
    ensures SpellsDigits(s, w0, w1, f0, f1) && (w0 == 1 && s[0] == '-' as int <==> s[0] == '-' as int)
  {
    hide DigitsEnd;
  }

  /** A run of digits that something else ends is taken whole; otherwise no more than what is taken. */
  lemma DigitsTaken(s: seq<Byte>, p: nat, q: nat)
    requires p <= q <= |s| && AllDigits(s, p, q)
    ensures q <= DigitsEnd(s, p) && (q < |s| && !IsDigit(s[q]) ==> q == DigitsEnd(s, p))
  {
    hide DigitsEnd;
    DigitsEndSkip(s, p, q);
  }

  lemma WholeTaken(s: seq<Byte>, c: Cuts)
    requires Spells(s, c)
    ensures c.sign == if s != [] && IsSign(s[0]) then 1 else 0
    ensures c.whole == DigitsEnd(s, c.sign) || c.end == c.whole < DigitsEnd(s, c.sign)
  {
    hide DigitsEnd;
    DigitsTaken(s, c.sign, c.whole);
  }

  lemma FractionTaken(s: seq<Byte>, c: Cuts)
    requires Spells(s, c) && c.whole == DigitsEnd(s, c.sign)
    ensures var f0 := FractionStart(s, c.whole); var f1 := if f0 > c.whole then DigitsEnd(s, f0) else f0;
            (c.dot == f0 && c.fraction == f1) || c.end == c.fraction < f1
  {
    hide DigitsEnd;
    DigitsTaken(s, c.dot, c.fraction);
  }

  lemma ExponentTaken(s: seq<Byte>, c: Cuts)
    requires Spells(s, c)
    ensures c.letter > c.fraction ==>
              && HasExponent(s, c.fraction) && c.letter == c.fraction + 1
              && c.exponentSign == ExponentStart(s, c.fraction) && c.end <= DigitsEnd(s, c.exponentSign)
    ensures HasExponent(s, c.fraction) ==> DigitsEnd(s, ExponentStart(s, c.fraction)) > c.fraction
  {
    hide DigitsEnd;
    DigitsTaken(s, c.exponentSign, c.end);
  }

  /** Every spelling at the start of the text is the one taken, or ends earlier. */
  lemma TakenIsLongest(s: seq<Byte>, c: Cuts)
    requires Spells(s, c)
    ensures Numeral(s).Some? && (c == Taken(s) || c.end < Taken(s).end)
  {
    hide Spells, DigitsEnd, HasExponent, ExponentStart, FractionStart, Numeral, Taken;
    WholeTaken(s, c);
    SpelledDigits(s, c);
    var w1 := DigitsEnd(s, c.sign);
    var f0 := FractionStart(s, w1);
    var f1 := if f0 > w1 then DigitsEnd(s, f0) else f0;
    TakenParts(s, c.sign, w1, f0, f1);
    TakenEnd(s, f1);
    if c.whole == w1 {
      FractionTaken(s, c);
      ExponentTaken(s, c);
    }
  }

  lemma TakenEnd(s: seq<Byte>, p: nat)
    requires p <= |s|
    ensures HasExponent(s, p) ==> p < ExponentStart(s, p) < |s| && DigitsEnd(s, ExponentStart(s, p)) > p
  {
    hide DigitsEnd;
  }

  lemma TakenParts(s: seq<Byte>, w0: nat, w1: nat, f0: nat, f1: nat)
    requires w0 == (if s != [] && IsSign(s[0]) then 1 else 0) && w1 == DigitsEnd(s, w0)
    requires f0 == FractionStart(s, w1) && f1 == if f0 > w1 then DigitsEnd(s, f0) else f0
    ensures f1 <= |s| && Taken(s) == TakenFrom(s, w0, w1, f0, f1)
    ensures Numeral(s).Some? <==> w0 < w1 || f0 < f1
  {
    hide DigitsEnd, TakenFrom, WithExponent;
  }

  lemma SpelledDigits(s: seq<Byte>, c: Cuts)
    requires Spells(s, c)
    ensures c.sign <= c.whole <= c.dot <= c.fraction <= c.letter <= c.exponentSign <= c.end <= |s|
    ensures c.whole > c.sign || c.fraction > c.dot
    ensures c.letter == c.fraction ==> c.exponentSign == c.letter == c.end
  {
  }

  /**
   The grammar is longest match: there is a numeral exactly when some spelling begins the text, and it is what the
   longest spelling says.
   */
  lemma NumeralIsLongest(s: seq<Byte>)
    ensures Numeral(s).Some? <==> exists c :: Spells(s, c)
    ensures forall c :: Spells(s, c) && (forall d :: Spells(s, d) ==> d.end <= c.end) ==>
              Numeral(s) == Some(Reading(s, c))
  {
    hide Numeral, Spells, Reading, Taken;
    if Numeral(s).Some? { TakenSpells(s); }
    forall c | Spells(s, c) ensures Numeral(s).Some? && (c == Taken(s) || c.end < Taken(s).end) {
      TakenIsLongest(s, c);
    }
  }

  /** All digits of the numeral as one integer. */
  function Significand(n: Number): nat { Decimal(n.whole + n.fraction) }

  function Signed(negative: bool, x: int): int { if negative then -x else x }

  /** The exponent of ten that goes with the significand. */
  function TrueExponent(n: Number): int { Signed(n.negativeExponent, Decimal(n.exponent)) - |n.fraction| }

  // ----- the exponent cap -----

  const EXPONENT_CAP: nat := 0x1000_0000

  /** Digits are dropped once the exponent has reached the cap. */
  function Capped(s: seq<Byte>): nat {
    if s == [] then 0
    else
      var e := Capped(s[..|s| - 1]);
      if e < EXPONENT_CAP then 10 * e + Digit(s[|s| - 1]) else e
  }

  /** The accumulated exponent is exact exactly below ten times the cap; above, it stays at least the cap. */
  lemma {:induction false} CappedExact(s: seq<Byte>)
    ensures Capped(s) == Decimal(s) <==> Decimal(s) < 10 * EXPONENT_CAP
    ensures Decimal(s) >= 10 * EXPONENT_CAP ==> EXPONENT_CAP <= Capped(s) < 10 * EXPONENT_CAP
    ensures Capped(s) <= Decimal(s)
  {
    if s != [] {
      CappedExact(s[..|s| - 1]);
      DigitBelow(s[|s| - 1]);
    }
  }

  function CappedExponent(n: Number): int { Signed(n.negativeExponent, Capped(n.exponent)) - |n.fraction| }

  // ----- decimal numbers of digit strings -----

  lemma DecimalPush(s: seq<Byte>, c: Byte)
    ensures Decimal(s + [c]) == 10 * Decimal(s) + Digit(c)
  {
    assert (s + [c])[..|s|] == s;
  }

  lemma {:induction false} DecimalConcat(s: seq<Byte>, t: seq<Byte>)
    ensures Decimal(s + t) == Decimal(s) * Pow(10, |t|) + Decimal(t)
    decreases |t|
  {
    if t == [] {
      assert s + t == s;
    } else {
      var n := |t| - 1;
      DecimalConcat(s, t[..n]);
      assert s + t == (s + t[..n]) + [t[n]];
      DecimalPush(s + t[..n], t[n]);
      assert t == t[..n] + [t[n]];
      DecimalPush(t[..n], t[n]);
      assert Pow(10, |t|) == 10 * Pow(10, n);
      MulSwap(Decimal(s), 10, Pow(10, n));
    }
  }

  lemma {:induction false} DecimalBound(s: seq<Byte>)
    ensures Decimal(s) < Pow(10, |s|)
  {
    if s != [] {
      DecimalBound(s[..|s| - 1]);
      DigitBelow(s[|s| - 1]);
    }
  }

  /** z leading zeros do not count; the digit after them does. */
  lemma {:induction false} SignificantDigits(s: seq<Byte>, z: nat)
    requires z <= |s| && (forall i :: 0 <= i < |s| ==> IsDigit(s[i])) && forall i :: 0 <= i < z ==> s[i] == 0x30
    ensures Decimal(s) < Pow(10, |s| - z)
    ensures z < |s| && s[z] != 0x30 ==> Decimal(s) >= Pow(10, |s| - z - 1)
  {
    hide Pow, Decimal;
    var t := s[z..];
    assert s == s[..z] + t;
    DecimalConcat(s[..z], t);
    ZeroDigits(s[..z]);
    DecimalBound(t);
    if z < |s| && s[z] != 0x30 {
      assert t == s[z..z + 1] + t[1..];
      DecimalConcat(s[z..z + 1], t[1..]);
      DecimalOne(s, z);
      MulLe(1, Digit(s[z]), Pow(10, |t| - 1));
    }
  }

  lemma {:induction false} ZeroDigits(s: seq<Byte>)
    requires forall i :: 0 <= i < |s| ==> s[i] == 0x30
    ensures Decimal(s) == 0
  {
    if s != [] { ZeroDigits(s[..|s| - 1]); }
  }

  lemma {:induction false} PowMono(m: nat, n: nat)
    requires m <= n
    ensures Pow(10, m) <= Pow(10, n)
  {
    if m < n { PowMono(m, n - 1); }
  }

  lemma PowersOfTen()
    ensures Pow(10, 8) == 100_000_000 && Pow(10, 18) == 1_000_000_000_000_000_000
    ensures Pow(10, 19) == 10_000_000_000_000_000_000
    ensures Pow(10, 19) < Pow2(64) && Pow(10, 1) == 10
  {
    hide Pow2;
    Constants();
    assert Pow(10, 8) == 100_000_000;
    PowAdd(10, 8, 8);
    assert Pow(10, 18) == 10 * (10 * Pow(10, 16));
  }

  // ----- scanning digits -----

  /** Multiplying and adding in u64 is multiplying and adding, then cutting. */
  lemma LowLinear(x: nat, c: nat, d: nat, n: nat)
    ensures Low(c * Low(x, n) + d, n) == Low(c * x + d, n)
  {
    hide Pow2, Low;
    Parts(x, n);
    var lo, hi, p := Low(x, n), Shr(x, n), Pow2(n);
    MulDistrib(c, lo, p * hi);
    MulSwap(c, p, hi);
    LowPeriodic(c * lo + d, c * hi, n);
  }

  /** The number x continued by the digits s[p..q]. */
  ghost function Continued(x: nat, s: seq<Byte>, p: nat, q: nat): nat
    requires p <= q <= |s|
  {
    x * Pow(10, q - p) + Decimal(s[p..q])
  }

  lemma ContinuedStart(x: nat, s: seq<Byte>, p: nat)
    requires p <= |s|
    ensures Continued(x, s, p, p) == x
  {
  }

  lemma ContinuedZero(s: seq<Byte>, p: nat, q: nat)
    requires p <= q <= |s|
    ensures Continued(0, s, p, q) == Decimal(s[p..q])
  {
  }

  /** The digits q..q' extend the number scanned so far. */
  lemma ContinuedStep(x: nat, s: seq<Byte>, p: nat, q: nat, q': nat)
    requires p <= q <= q' <= |s|
    ensures Continued(x, s, p, q') == Pow(10, q' - q) * Continued(x, s, p, q) + Decimal(s[q..q'])
  {
    hide Pow, Decimal;
    DecimalSlice(s, p, q, q');
    var m: nat, n: nat := q - p, q' - q;
    PowAdd(10, m, n);
    assert m + n == q' - p;
    Horner(x, Pow(10, m), Decimal(s[p..q]), Pow(10, n), Decimal(s[q..q']), Pow(10, m + n), Decimal(s[p..q']));
  }

  lemma DecimalSlice(s: seq<Byte>, p: nat, q: nat, q': nat)
    requires p <= q <= q' <= |s|
    ensures Decimal(s[p..q']) == Decimal(s[p..q]) * Pow(10, q' - q) + Decimal(s[q..q'])
  {
    hide Pow, Decimal;
    assert s[p..q'] == s[p..q] + s[q..q'];
    DecimalConcat(s[p..q], s[q..q']);
  }

  /** Continuing by two groups of digits at once or one after the other. */
  lemma Horner(x: int, p: int, d: int, p': int, d': int, pp: int, dd: int)
    requires pp == p * p' && dd == d * p' + d'
    ensures x * pp + dd == p' * (x * p + d) + d'
  {
    MulAssoc(x, p, p');
    MulDistrib(p', x * p, d);
  }

  lemma DigitsEndSkip(s: seq<Byte>, p: nat, q: nat)
    requires p <= q <= |s| && forall i :: p <= i < q ==> IsDigit(s[i])
    ensures DigitsEnd(s, p) == DigitsEnd(s, q)
    decreases q - p
  {
    if p < q { DigitsEndSkip(s, p + 1, q); }
  }

  lemma DecimalOne(s: seq<Byte>, q: nat)
    requires q < |s|
    ensures Decimal(s[q..q + 1]) == Digit(s[q])
  {
    assert s[q..q + 1] == [] + [s[q]];
  }

  /** fast_parse_decimal: eight digits at a time while the caller allows it, then one by one. */
  method ScanDigits(s: seq<Byte>, hasEight: nat -> bool, p: nat, value: nat, ghost x: nat) returns (q: nat, v: nat)
    requires forall i: nat :: hasEight(i) ==> i + 8 <= |s|
    requires p <= |s| && value == Low(x, 64)
    ensures q == DigitsEnd(s, p) && v == Low(Continued(x, s, p, q), 64)
  {
    hide DigitsEnd, Continued, Low, Pow, Decimal, Pow2, Word, HasEightDigits, EightDigitsToValue;
    PowersOfTen();
    q, v := p, value;
    ContinuedStart(x, s, p);
    while hasEight(q) && EightAt(s, q)
      invariant p <= q <= |s| && (forall i :: p <= i < q ==> IsDigit(s[i])) && v == Low(Continued(x, s, p, q), 64)
      decreases |s| - q
    {
      ContinuedStep(x, s, p, q, q + 8);
      LowLinear(Continued(x, s, p, q), 100_000_000, Decimal(s[q..q + 8]), 64);
      v := Low(100_000_000 * v + ValueAt(s, q), 64);
      q := q + 8;
    }
    while q < |s| && IsDigit(s[q])
      invariant p <= q <= |s| && (forall i :: p <= i < q ==> IsDigit(s[i])) && v == Low(Continued(x, s, p, q), 64)
    {
      ContinuedStep(x, s, p, q, q + 1);
      DecimalOne(s, q);
      LowLinear(Continued(x, s, p, q), 10, Digit(s[q]), 64);
      v := Low(10 * v + Digit(s[q]), 64);
      q := q + 1;
    }
    DigitsEndSkip(s, p, q);
    DigitsEndHere(s, q);
  }

  lemma DigitsEndHere(s: seq<Byte>, q: nat)
    requires q <= |s| && (q < |s| ==> !IsDigit(s[q]))
    ensures DigitsEnd(s, q) == q
  {
  }

  /** has_eight_digits of the eight characters at q */
  predicate EightAt(s: seq<Byte>, q: nat)
    requires q + 8 <= |s|
    ensures EightAt(s, q) <==> forall i :: q <= i < q + 8 ==> IsDigit(s[i])
  {
    var t := s[q..q + 8];
    HasEightDigitsCorrect(t);
    assert (forall i :: 0 <= i < 8 ==> IsDigit(t[i])) <==> forall i :: q <= i < q + 8 ==> IsDigit(s[i]) by {
      assert forall i :: q <= i < q + 8 ==> s[i] == t[i - q];
    }
    HasEightDigits(Word(t))
  }

  /** eight_digits_to_value of the eight characters at q */
  function ValueAt(s: seq<Byte>, q: nat): (v: nat)
    requires q + 8 <= |s| && forall i :: q <= i < q + 8 ==> IsDigit(s[i])
    ensures v == Decimal(s[q..q + 8]) < 100_000_000
  {
    EightDigitsToValueCorrect(s[q..q + 8]);
    EightDigitsToValue(Word(s[q..q + 8]))
  }

  // ----- the exponent -----

  /** The explicit exponent, or nothing (and p again) when no digit follows the letter. */
  method ScanExponent(s: seq<Byte>, p: nat) returns (q: nat, e: int)
    requires p <= |s|
    ensures HasExponent(s, p) ==>
              var x := ExponentStart(s, p);
              q == DigitsEnd(s, x) && e == Signed(s[p + 1] == '-' as int, Capped(s[x..q]))
    ensures !HasExponent(s, p) ==> q == p && e == 0
  {
    hide DigitsEnd, Capped;
    if p == |s| || (s[p] != 'e' as int && s[p] != 'E' as int) {
      return p, 0;
    }
    var x: nat := p + 1;
    if x == |s| {
      return p, 0;
    }
    var negative := false;
    if IsSign(s[x]) {
      negative := s[x] == '-' as int;
      x := x + 1;
      if x == |s| {
        return p, 0;
      }
    }
    if !IsDigit(s[x]) {
      return p, 0;
    }
    var explicit: nat := 0;
    q := x;
    CappedPrefix(s, x, x);
    while q < |s| && IsDigit(s[q])
      invariant x <= q <= |s| && (forall i :: x <= i < q ==> IsDigit(s[i])) && explicit == Capped(s[x..q])
    {
      CappedPrefix(s, x, q);
      if explicit < EXPONENT_CAP {
        explicit := 10 * explicit + Digit(s[q]);
      }
      q := q + 1;
    }
    DigitsEndSkip(s, x, q);
    DigitsEndHere(s, q);
    e := Signed(negative, explicit);
  }

  lemma CappedPrefix(s: seq<Byte>, x: nat, q: nat)
    requires x <= q <= |s|
    ensures Capped(s[x..x]) == 0
    ensures q < |s| ==>
              Capped(s[x..q + 1]) == var e := Capped(s[x..q]); if e < EXPONENT_CAP then 10 * e + Digit(s[q]) else e
  {
    if q < |s| { assert s[x..q + 1][..q - x] == s[x..q]; }
  }

  // ----- leading zeros -----

  /** The digits of s[w0..w1] and s[f0..f1]; in between there is at most a dot. */
  ghost predicate Layout(s: seq<Byte>, w0: nat, w1: nat, f0: nat, f1: nat) {
    && w0 <= w1 <= f0 <= f1 <= |s| && f0 <= w1 + 1 && (f0 == w1 ==> f1 == f0) && (f0 > w1 ==> s[w1] == '.' as int)
    && (forall i :: w0 <= i < w1 ==> IsDigit(s[i])) && forall i :: f0 <= i < f1 ==> IsDigit(s[i])
  }

  /** The number of digits before position p of the text. */
  ghost function Passed(w0: nat, w1: nat, f0: nat, p: nat): nat
    requires w0 <= w1 <= f0 && w0 <= p
  {
    if p <= w1 then p - w0 else if p <= f0 then w1 - w0 else w1 - w0 + (p - f0)
  }

  /** The first z digits are zeros and the next one, if there is one, is not; c counts the zeros walked over. */
  ghost predicate Leading(digits: seq<Byte>, z: nat, c: nat) {
    && z <= |digits| && (forall i :: 0 <= i < z ==> digits[i] == 0x30)
    && if z < |digits| then digits[z] != 0x30 && c == z else c >= z
  }

  /** The walk over zeros and dots; past the numeral it only goes when all its digits are zero. */
  method LeadingZeros(s: seq<Byte>, ghost w0: nat, ghost w1: nat, ghost f0: nat, ghost f1: nat, start: nat)
    returns (c: nat)
    requires Layout(s, w0, w1, f0, f1) && start == w0
    ensures exists z: nat :: Leading(s[w0..w1] + s[f0..f1], z, c)
  {
    ghost var digits := s[w0..w1] + s[f0..f1];
    var p: nat := start;
    c := 0;
    ghost var z: nat := 0;
    while p < |s| && (s[p] == 0x30 || s[p] == '.' as int)
      invariant w0 <= p <= |s| && z <= |digits| && forall i :: 0 <= i < z ==> digits[i] == 0x30
      invariant if p <= f1 then z == c == Passed(w0, w1, f0, p) else z == |digits| <= c
    {
      if s[p] == 0x30 {
        c := c + 1;
      }
      if p < f1 && !(w1 <= p < f0) {
        assert digits[z] == s[p];
        z := z + 1;
      }
      p := p + 1;
    }
    assert Leading(digits, z, c);
  }

  // ----- keeping nineteen digits -----

  const TEN_DIGITS: nat := 10_000_000_000
  const EIGHTEEN_DIGITS: nat := 1_000_000_000_000_000_000

  /** Digits are taken until the mantissa has nineteen of them. */
  method Reparse(s: seq<Byte>, from: nat, end: nat, mantissa: nat) returns (m: nat, q: nat)
    requires from <= end <= |s| && mantissa < EIGHTEEN_DIGITS && forall i :: from <= i < end ==> IsDigit(s[i])
    ensures from <= q <= end && m == Continued(mantissa, s, from, q)
    ensures m < 10 * EIGHTEEN_DIGITS && (q < end ==> m >= EIGHTEEN_DIGITS)
  {
    hide Continued, Low, Pow, Decimal, Pow2, EightDigitsToValue;
    PowersOfTen();
    m, q := mantissa, from;
    ContinuedStart(m, s, from);
    while m < TEN_DIGITS && end - q >= 8
      invariant from <= q <= end && m < EIGHTEEN_DIGITS && m == Continued(mantissa, s, from, q)
      decreases end - q
    {
      ContinuedStep(mantissa, s, from, q, q + 8);
      LowSmall(100_000_000 * m + ValueAt(s, q), 64);
      m := Low(100_000_000 * m + ValueAt(s, q), 64);
      q := q + 8;
    }
    while m < EIGHTEEN_DIGITS && q != end
      invariant from <= q <= end && m < 10 * EIGHTEEN_DIGITS && m == Continued(mantissa, s, from, q)
      decreases end - q
    {
      ContinuedStep(mantissa, s, from, q, q + 1);
      DecimalOne(s, q);
      DigitBelow(s[q]);
      LowSmall(10 * m + Digit(s[q]), 64);
      m := Low(10 * m + Digit(s[q]), 64);
      q := q + 1;
    }
  }

  // ----- the whole scan -----

  datatype ParseResult = ParseResult(
    valid: bool, negative: bool, mantissa: nat, exponent: int, moreThan19Digits: bool,
    lastParsed: nat, whole: seq<Byte>, fraction: seq<Byte>)

  /** Exact below 10^19; from there on nineteen digits that bracket the significand. */
  ghost predicate Approximates(m: nat, e: int, overflow: bool, v: nat, exponent: int) {
    if v < 10 * EIGHTEEN_DIGITS then
      !overflow && m == v && e == exponent
    else
      overflow && EIGHTEEN_DIGITS <= m < 10 * EIGHTEEN_DIGITS && e >= exponent
      && m * Pow(10, e - exponent) <= v < (m + 1) * Pow(10, e - exponent)
  }

  lemma Truncated(m: nat, v: nat, rest: seq<Byte>)
    requires v == m * Pow(10, |rest|) + Decimal(rest)
    ensures m * Pow(10, |rest|) <= v < (m + 1) * Pow(10, |rest|)
  {
    DecimalBound(rest);
    hide Pow, Decimal;
    MulDistrib(Pow(10, |rest|), m, 1);
  }

  /** The reparse keeps nineteen digits of an overlong significand. */
  method KeepNineteen(s: seq<Byte>, w0: nat, w1: nat, f0: nat, f1: nat, explicit: int) returns (m: nat, e: int)
    requires Layout(s, w0, w1, f0, f1) && Decimal(s[w0..w1] + s[f0..f1]) >= 10 * EIGHTEEN_DIGITS
    ensures Approximates(m, e, true, Decimal(s[w0..w1] + s[f0..f1]), explicit - (f1 - f0))
  {
    hide Pow, Decimal;
    ghost var digits := s[w0..w1] + s[f0..f1];
    var q: nat;
    m, q := Reparse(s, w0, w1, 0);
    if m >= EIGHTEEN_DIGITS {
      e := explicit + (w1 - q);
      assert digits == s[w0..q] + (s[q..w1] + s[f0..f1]);
      DecimalConcat(s[w0..q], s[q..w1] + s[f0..f1]);
      Truncated(m, Decimal(digits), s[q..w1] + s[f0..f1]);
    } else {
      m, q := Reparse(s, f0, f1, m);
      e := explicit - (q - f0);
      assert s[f0..f1] == s[f0..q] + s[q..f1];
      assert digits == (s[w0..w1] + s[f0..q]) + s[q..f1];
      DecimalConcat(s[w0..w1], s[f0..q]);
      DecimalConcat(s[w0..w1] + s[f0..q], s[q..f1]);
      Truncated(m, Decimal(digits), s[q..f1]);
      if q == f1 { NoRest(s, q, m); }
    }
  }

  lemma NoRest(s: seq<Byte>, q: nat, m: nat)
    requires q <= |s|
    ensures m * Pow(10, |s[q..q]|) + Decimal(s[q..q]) == m
  {
  }

  /** The digits before and after the dot, accumulated in u64. */
  method ScanSignificand(s: seq<Byte>, hasEight: nat -> bool, w0: nat)
    returns (w1: nat, f0: nat, f1: nat, mantissa: nat)
    requires w0 <= |s| && forall i: nat :: hasEight(i) ==> i + 8 <= |s|
    ensures w1 == DigitsEnd(s, w0) && f0 == FractionStart(s, w1) && f1 == if f0 > w1 then DigitsEnd(s, f0) else f0
    ensures Layout(s, w0, w1, f0, f1) && mantissa == Low(Decimal(s[w0..w1] + s[f0..f1]), 64)
  {
    hide DigitsEnd, Continued, Low, Pow, Decimal, Layout;
    LowSmall(0, 64);
    w1, mantissa := ScanDigits(s, hasEight, w0, 0, 0);
    ContinuedZero(s, w0, w1);
    f0, f1 := w1, w1;
    if w1 < |s| && s[w1] == '.' as int {
      f0 := w1 + 1;
      f1, mantissa := ScanDigits(s, hasEight, f0, mantissa, Decimal(s[w0..w1]));
    }
    Significands(s, w0, w1, f0, f1);
  }

  lemma Significands(s: seq<Byte>, w0: nat, w1: nat, f0: nat, f1: nat)
    requires w0 <= |s| && w1 == DigitsEnd(s, w0) && f0 == FractionStart(s, w1)
    requires f1 == if f0 > w1 then DigitsEnd(s, f0) else f0
    ensures Layout(s, w0, w1, f0, f1)
    ensures Decimal(s[w0..w1] + s[f0..f1]) ==
            if f0 == w1 then Decimal(s[w0..w1]) else Continued(Decimal(s[w0..w1]), s, f0, f1)
  {
    hide DigitsEnd, Pow, Decimal;
    if f0 == w1 {
      assert s[w0..w1] + s[f0..f1] == s[w0..w1];
    } else {
      DecimalConcat(s[w0..w1], s[f0..f1]);
    }
  }

  /** The mantissa as it is, or nineteen digits of it when it has overflowed. */
  method Narrow(s: seq<Byte>, w0: nat, w1: nat, f0: nat, f1: nat, mantissa: nat, explicit: int)
    returns (m: nat, e: int, overflow: bool)
    requires Layout(s, w0, w1, f0, f1) && mantissa == Low(Decimal(s[w0..w1] + s[f0..f1]), 64)
    ensures Approximates(m, e, overflow, Decimal(s[w0..w1] + s[f0..f1]), explicit - (f1 - f0))
  {
    hide Low, Pow, Decimal, Pow2;
    ghost var digits := s[w0..w1] + s[f0..f1];
    m, e, overflow := mantissa, explicit - (f1 - f0), false;
    var digitsFound: int := (w1 - w0) + (f1 - f0);
    if digitsFound > 19 {
      var zeros := LeadingZeros(s, w0, w1, f0, f1, w0);
      ghost var z: nat :| Leading(digits, z, zeros);
      digitsFound := digitsFound - zeros;
      LeadingCount(digits, z, zeros);
      if digitsFound > 19 {
        overflow := true;
        m, e := KeepNineteen(s, w0, w1, f0, f1, explicit);
        return;
      }
    } else {
      FewDigits(digits, 0);
    }
    PowersOfTen();
    LowSmall(Decimal(digits), 64);
  }

  lemma FewDigits(digits: seq<Byte>, z: nat)
    requires z <= |digits| <= z + 19 && (forall i :: 0 <= i < |digits| ==> IsDigit(digits[i]))
    requires forall i :: 0 <= i < z ==> digits[i] == 0x30
    ensures Decimal(digits) < 10 * EIGHTEEN_DIGITS
  {
    hide Pow, Decimal;
    SignificantDigits(digits, z);
    PowMono(|digits| - z, 19);
    PowersOfTen();
  }

  /** Counting the walked zeros off tells whether nineteen digits suffice. */
  lemma LeadingCount(digits: seq<Byte>, z: nat, c: nat)
    requires Leading(digits, z, c) && forall i :: 0 <= i < |digits| ==> IsDigit(digits[i])
    ensures |digits| - c > 19 <==> Decimal(digits) >= 10 * EIGHTEEN_DIGITS
  {
    hide Pow, Decimal;
    if |digits| <= z + 19 {
      FewDigits(digits, z);
    } else {
      SignificantDigits(digits, z);
      PowMono(19, |digits| - z - 1);
      PowersOfTen();
    }
  }

  lemma NothingThere(s: seq<Byte>)
    requires s == [] || (IsSign(s[0]) && (|s| == 1 || (!IsDigit(s[1]) && s[1] != '.' as int)))
    ensures Numeral(s) == None
  {
  }

  /** parse_numbers: the numeral of the grammar, its significand exact or bracketed. */
  method ParseNumbers(s: seq<Byte>, hasEight: nat -> bool) returns (r: ParseResult)
    requires forall i: nat :: hasEight(i) ==> i + 8 <= |s|
    ensures r.valid <==> Numeral(s).Some?
    ensures r.valid ==>
              var n := Numeral(s).value;
              && r.negative == n.negative && r.whole == n.whole && r.fraction == n.fraction && r.lastParsed == n.end
              && Approximates(r.mantissa, r.exponent, r.moreThan19Digits, Significand(n), CappedExponent(n))
  {
    hide DigitsEnd, Low, Decimal, Capped, Approximates, Layout, Numeral, WithExponent, HasExponent, ExponentStart,
         FractionStart, CappedExponent;
    r := ParseResult(false, false, 0, 0, false, 0, [], []);
    var w0: nat := 0;
    if s == [] {
      NothingThere(s);
      return;
    }
    if IsSign(s[0]) {
      r := r.(negative := s[0] == '-' as int);
      w0 := 1;
      if w0 == |s| || (!IsDigit(s[w0]) && s[w0] != '.' as int) {
        NothingThere(s);
        return;
      }
    }
    var w1, f0, f1, mantissa := ScanSignificand(s, hasEight, w0);
    r := r.(whole := s[w0..w1], fraction := s[f0..f1]);
    NumeralParts(s, w0, w1, f0, f1);
    if (w1 - w0) + (f1 - f0) == 0 {
      return;
    }
    var last, explicit := ScanExponent(s, f1);
    var m, e, overflow := Narrow(s, w0, w1, f0, f1, mantissa, explicit);
    r := r.(valid := true, lastParsed := last, mantissa := m, exponent := e, moreThan19Digits := overflow);
    ExponentParts(s, r.negative, s[w0..w1], s[f0..f1], f1, last, explicit);
  }

  lemma NumeralParts(s: seq<Byte>, w0: nat, w1: nat, f0: nat, f1: nat)
    requires s != [] && w0 == (if IsSign(s[0]) then 1 else 0)
    requires w1 == DigitsEnd(s, w0) && f0 == FractionStart(s, w1) && f1 == if f0 > w1 then DigitsEnd(s, f0) else f0
    ensures Numeral(s) ==
            if w0 == w1 && f0 == f1 then None
            else Some(WithExponent(s, s[0] == '-' as int, s[w0..w1], s[f0..f1], f1))
  {
    hide DigitsEnd, WithExponent;
  }

  lemma ExponentParts(s: seq<Byte>, negative: bool, whole: seq<Byte>, fraction: seq<Byte>, p: nat, end: nat,
                      explicit: int)
    requires p <= |s|
    requires HasExponent(s, p) ==>
               var x := ExponentStart(s, p);
               end == DigitsEnd(s, x) && explicit == Signed(s[p + 1] == '-' as int, Capped(s[x..end]))
    requires !HasExponent(s, p) ==> end == p && explicit == 0
    ensures var n := WithExponent(s, negative, whole, fraction, p);
            n.end == end && CappedExponent(n) == explicit - |fraction| && n.negative == negative &&
            n.whole == whole && n.fraction == fraction
  {
    hide DigitsEnd;
  }

  // ----- as real numbers -----

  /** Ten to any integer power. */
  ghost function Ten(e: int): (t: real)
    ensures t > 0.0
    decreases if e < 0 then -e else e
  {
    if e == 0 then 1.0 else if e > 0 then 10.0 * Ten(e - 1) else Ten(e + 1) / 10.0
  }

  lemma {:induction false} TenAdd(e: int, k: nat)
    ensures Ten(e + k) == Ten(e) * Pow(10, k) as real
  {
    hide Ten, Pow;
    TenfoldPow(k);
    if k > 0 {
      TenAdd(e, k - 1);
      TenStep(e + k);
      TenTimes(Ten(e), Pow(10, k - 1));
    }
  }

  lemma TenfoldPow(k: nat)
    ensures Pow(10, k) == if k == 0 then 1 else 10 * Pow(10, k - 1)
  {
  }

  lemma TenStep(e: int)
    ensures Ten(e) == 10.0 * Ten(e - 1)
  {
  }

  lemma TenTimes(t: real, p: int)
    ensures 10.0 * (t * p as real) == t * (10 * p) as real
  {
    assert (10 * p) as real == 10.0 * p as real;
  }

  /** m times ten to the power e */
  ghost function Denoted(m: nat, e: int): real { m as real * Ten(e) }

  /** The number a numeral denotes, without its sign: whole and fraction, times or divided by a power of ten. */
  ghost function Value(n: Number): real {
    var mantissa := Decimal(n.whole) as real + Fraction(Decimal(n.fraction), Pow(10, |n.fraction|));
    var power := Pow(10, Decimal(n.exponent));
    if n.negativeExponent then Fraction(1, power) * mantissa else power as real * mantissa
  }

  ghost function Fraction(x: nat, p: nat): real {
    if p == 0 then 0.0 else x as real / p as real
  }

  /** The fraction moves into the significand and its length into the exponent. */
  lemma ValueIsDenoted(n: Number)
    ensures Value(n) == Denoted(Significand(n), TrueExponent(n))
  {
    hide Ten, Pow, Decimal;
    var e, k := Decimal(n.exponent), |n.fraction|;
    PowPos(10, k);
    PowPos(10, e);
    DecimalConcat(n.whole, n.fraction);
    TenAdd(TrueExponent(n), k);
    TenPower(e);
    ValueArithmetic(Decimal(n.whole), Decimal(n.fraction), Pow(10, k), Ten(TrueExponent(n)),
                    Ten(Signed(n.negativeExponent, e)));
  }

  lemma TenPower(k: int)
    requires k >= 0
    ensures Ten(k) == Pow(10, k) as real && Pow(10, k) > 0 && Ten(-k) == Fraction(1, Pow(10, k))
  {
    hide Ten, Pow;
    TenZero();
    PowPos(10, k);
    TenAdd(0, k);
    TenAdd(-k, k);
    Inverse(Ten(-k), Pow(10, k) as real);
  }

  lemma TenZero()
    ensures Ten(0) == 1.0
  {
  }

  lemma Inverse(t: real, p: real)
    requires p > 0.0 && t * p == 1.0
    ensures t == 1.0 / p
  {
    assert t == (t * p) / p;
  }

  lemma ValueArithmetic(w: nat, f: nat, p: nat, t: real, te: real)
    requires p > 0 && te == t * p as real
    ensures te * (w as real + Fraction(f, p)) == (w * p + f) as real * t
  {
    var x, y, q := w as real, Fraction(f, p), p as real;
    assert y * q == f as real;
    assert (w * p) as real == x * q;
    assert q * (x + y) == x * q + y * q;
    assert (t * q) * (x + y) == t * (q * (x + y));
  }

  /**
   The scanned pair is the denoted number, or its nineteen leading digits bracket it, exactly
   when the explicit exponent is below ten times the cap (or the number is zero anyway).
   */
  lemma ScannedValue(n: Number, m: nat, e: int, overflow: bool)
    requires Approximates(m, e, overflow, Significand(n), CappedExponent(n))
    ensures overflow <==> Significand(n) >= 10_000_000_000_000_000_000
    ensures !overflow ==>
              (Denoted(m, e) == Value(n) <==> Significand(n) == 0 || Decimal(n.exponent) < 2_684_354_560)
    ensures overflow ==> 1_000_000_000_000_000_000 <= m < 10_000_000_000_000_000_000
    ensures overflow ==>
              (Denoted(m, e) <= Value(n) < Denoted(m + 1, e) <==> Decimal(n.exponent) < 2_684_354_560)
  {
    hide Denoted, Decimal, Capped, Pow, Value;
    ValueIsDenoted(n);
    CappedExact(n.exponent);
    var e0, v := CappedExponent(n), Significand(n);
    OffByPowers(v, e0, TrueExponent(n));
    if overflow {
      Bracketed(m, e - e0, v, e0);
      NextBelowTen(m, e);
    }
  }

  /** The bracket of the significand, scaled by its power of ten. */
  lemma Bracketed(m: nat, k: nat, v: nat, e: int)
    requires m * Pow(10, k) <= v < (m + 1) * Pow(10, k)
    ensures Denoted(m, e + k) <= Denoted(v, e) < Denoted(m + 1, e + k)
  {
    hide Ten, Pow;
    TenAdd(e, k);
    Scaled(m, Pow(10, k), v, Ten(e));
    Scaled(m + 1, Pow(10, k), v, Ten(e));
  }

  /** With another exponent the number is at least ten times larger or smaller. */
  lemma OffByPowers(v: nat, e: int, e': int)
    ensures 0.0 <= Denoted(v, e) && (Denoted(v, e) == 0.0 <==> v == 0)
    ensures 0.0 <= Denoted(v, e') && (Denoted(v, e') == 0.0 <==> v == 0)
    ensures e' > e ==> Denoted(v, e') >= 10.0 * Denoted(v, e)
    ensures e' < e ==> Denoted(v, e) >= 10.0 * Denoted(v, e')
  {
    Positive(v, e);
    Positive(v, e');
    if e' > e {
      TenFold(v, e, e');
    } else if e' < e {
      TenFold(v, e', e);
    }
  }

  lemma Positive(v: nat, e: int)
    ensures 0.0 <= Denoted(v, e) && (Denoted(v, e) == 0.0 <==> v == 0)
  {
    hide Ten;
  }

  lemma TenFold(v: nat, e: int, e': int)
    requires e < e'
    ensures Denoted(v, e') >= 10.0 * Denoted(v, e)
  {
    hide Ten, Pow;
    var k: nat := e' - e;
    PowMono(1, k);
    assert Pow(10, k) as real >= 10.0 by { PowersOfTen(); }
    TenAdd(e, k);
    RealFold(v as real, Pow(10, k) as real, Ten(e), Ten(e'));
  }

  lemma RealFold(v: real, p: real, t: real, t': real)
    requires v >= 0.0 && p >= 10.0 && t > 0.0 && t' == t * p
    ensures v * t' >= 10.0 * (v * t)
  {
    RealMul(10.0, p, t);
    RealMulBy(10.0 * t, t', v);
  }

  lemma RealMulBy(x: real, y: real, v: real)
    requires x <= y && v >= 0.0
    ensures v * x <= v * y
  {
  }

  lemma NextBelowTen(m: nat, e: int)
    requires m >= 1
    ensures Denoted(m + 1, e) <= 10.0 * Denoted(m, e)
  {
    hide Ten;
    RealMul((m + 1) as real, 10.0 * m as real, Ten(e));
  }

  lemma Scaled(m: nat, p: nat, v: nat, t: real)
    requires t > 0.0
    ensures m * p <= v ==> m as real * (t * p as real) <= v as real * t
    ensures v < m * p ==> v as real * t < m as real * (t * p as real)
  {
    assert (m * p) as real == m as real * p as real;
    var x: real := m as real * p as real;
    assert m as real * (t * p as real) == x * t;
    RealMul(x, v as real, t);
  }

  lemma RealMul(x: real, y: real, t: real)
    requires t > 0.0
    ensures (x <= y ==> x * t <= y * t) && (y < x ==> y * t < x * t)
  {
  }

  // ----- an exponent beyond the cap -----

  /** The digits 2684354560, ten times the cap. */
  const CAP_DIGITS: seq<Byte> := [50, 54, 56, 52, 51, 53, 52, 53, 54, 48]

  lemma TenTimesCap()
    ensures Decimal(CAP_DIGITS) == 10 * EXPONENT_CAP
  {
    var s: seq<Byte> := [];
    assert Decimal(s) == 0;
    hide Decimal;
    for i := 0 to 10
      invariant s == CAP_DIGITS[..i]
      invariant Decimal(s) == [0, 2, 26, 268, 2684, 26843, 268435, 2684354, 26843545, 268435456, 2684354560][i]
    {
      DecimalPush(s, CAP_DIGITS[i]);
      s := s + [CAP_DIGITS[i]];
    }
    assert CAP_DIGITS[..10] == CAP_DIGITS;
  }

  lemma CapNumeral()
    ensures Numeral([49, 101] + CAP_DIGITS) == Some(Number(false, [49], [], false, CAP_DIGITS, 12))
  {
    var s: seq<Byte> := [49, 101] + CAP_DIGITS;
    assert DigitsEnd(s, 0) == 1;
    assert DigitsEnd(s, 2) == 12;
    assert s[0..1] == [49] && s[1..1] == [] && s[2..12] == CAP_DIGITS;
  }

  lemma OneDigit()
    ensures Decimal([49] + []) == 1
  {
    DecimalPush([], 49);
    assert [49] + [] == [] + [49];
  }

  /** The text 1e2684354560 is scanned as another number. */
  method CapExample() returns (r: ParseResult)
    ensures r.valid && Denoted(r.mantissa, r.exponent) != Value(Numeral([49, 101] + CAP_DIGITS).value)
  {
    CapNumeral();
    hide Numeral, Denoted, Value, Decimal, Capped, Approximates;
    r := ParseNumbers([49, 101] + CAP_DIGITS, _ => false);
    ghost var n := Number(false, [49], [], false, CAP_DIGITS, 12);
    TenTimesCap();
    assert Significand(n) == 1 by { OneDigit(); }
    ScannedValue(n, r.mantissa, r.exponent, r.moreThan19Digits);
  }
}
