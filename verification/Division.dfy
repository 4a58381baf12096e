/**
 Knuth's Algorithm D as written in StorageOperations::div_mod_internal
 (AK/BigIntBase.h; TAOCP volume 2, section 4.3.1): normalisation, digit estimation,
 multiply-and-subtract, add-back and the recovery of the remainder.
 */
module Division {
  import opened Wrappers
  import opened Words
  import opened Bits
  import opened Storage
  import opened Shifts

  // ----- D3: the digit estimate -----

  /** qhat from the top three dividend words and the top two divisor words. */
  function Estimate(b: nat, u2: nat, u1: nat, u0: nat, v1: nat, v0: nat): int
    requires v1 > 0
  {
    if u2 == v1 then b - 1 else Refined(b, u0, v1, v0, (u2 * b + u1) / v1, (u2 * b + u1) % v1)
  }

  /** The two corrections by the second divisor word. */
  function Refined(b: int, u0: int, v1: int, v0: int, qhat: int, rhat: int): int {
    if Exceeds(b, u0, v0, qhat, rhat) then
      if rhat + v1 < b && Exceeds(b, u0, v0, qhat - 1, rhat + v1) then qhat - 2 else qhat - 1
    else qhat
  }

  predicate Exceeds(b: int, u0: int, v0: int, qhat: int, rhat: int) { qhat * v0 > rhat * b + u0 }

  /** A dividend window and a normalised divisor around their leading words. */
  ghost predicate Leading(b: int, p: int, x: int, u2: int, u1: int, u0: int, v: int, v1: int, v0: int) {
    && b >= 2 && p > 0
    && 0 <= u2 < b && 0 <= u1 < b && 0 <= u0 < b && 0 <= v1 < b && 0 <= v0 < b
    && Top3(b, u2, u1, u0) * p <= x < (Top3(b, u2, u1, u0) + 1) * p
    && (v1 * b + v0) * p <= v < (v1 * b + v0 + 1) * p
    && b <= 2 * v1
  }

  ghost function Top3(b: int, u2: int, u1: int, u0: int): int { (u2 * b + u1) * b + u0 }

  /** The true digit never exceeds what the leading words allow. */
  lemma DigitUpper(b: int, p: int, x: int, u2: int, u1: int, u0: int, v: int, v1: int, v0: int, q: int)
    requires Leading(b, p, x, u2, u1, u0, v, v1, v0) && q >= 0 && q * v <= x
    ensures q * (v1 * b + v0) <= Top3(b, u2, u1, u0)
  {
    var a, t := v1 * b + v0, Top3(b, u2, u1, u0);
    MulLe(a * p, v, q);
    assert (q * a) * p < (t + 1) * p by { MulAssoc(q, a, p); }
    MulCancelLt(q * a, t + 1, p);
  }

  /** If k + 1 copies of the divisor's leading words stay below the dividend's, the digit is at least k. */
  lemma DigitAtLeast(k: int, v: int, a: int, p: int, t: int, x: int, q: int)
    requires k >= 0 && p > 0 && 0 <= v <= (a + 1) * p && k * (a + 1) <= t && t * p <= x < (q + 1) * v
    ensures k <= q
  {
    if q + 1 <= k {
      assert (q + 1) * v <= k * v by { MulLe(q + 1, k, v); }
      assert k * v <= k * ((a + 1) * p) by { MulLe(v, (a + 1) * p, k); }
      assert k * ((a + 1) * p) == (k * (a + 1)) * p by { MulAssoc(k, a + 1, p); }
      assert (k * (a + 1)) * p <= t * p by { MulLe(k * (a + 1), t, p); }
      assert false;
    }
  }

  lemma LeadingNonneg(b: int, p: int, v1: int, v0: int, v: int)
    requires b >= 2 && p > 0 && v1 >= 1 && v0 >= 0 && (v1 * b + v0) * p <= v
    ensures v1 * b + v0 >= b && v >= 0
  {
    MulLe(1, v1, b);
    MulLe(0, v1 * b + v0, p);
  }

  /** An estimate the leading words allow is at most one too large. */
  lemma DigitLower(b: int, p: int, x: int, u2: int, u1: int, u0: int, v: int, v1: int, v0: int, q: int, qhat: int)
    requires Leading(b, p, x, u2, u1, u0, v, v1, v0) && q >= 0 && x < (q + 1) * v
    requires qhat <= b && qhat * (v1 * b + v0) <= Top3(b, u2, u1, u0)
    ensures qhat <= q + 1
  {
    hide Top3;
    if qhat >= 1 {
      LeadingNonneg(b, p, v1, v0, v);
      DigitLowerArith(qhat, v1 * b + v0, Top3(b, u2, u1, u0));
      DigitAtLeast(qhat - 1, v, v1 * b + v0, p, Top3(b, u2, u1, u0), x, q);
    }
  }

  lemma DigitLowerArith(qhat: int, a: int, t: int)
    requires qhat * a <= t && qhat <= a
    ensures (qhat - 1) * (a + 1) <= t
  {
  }

  /** With equal leading words the largest word is at most one too large. */
  lemma ShortcutLower(b: int, p: int, x: int, u2: int, u1: int, u0: int, v: int, v1: int, v0: int, q: int)
    requires Leading(b, p, x, u2, u1, u0, v, v1, v0) && q >= 0 && x < (q + 1) * v
    requires u2 == v1
    ensures b - 1 <= q + 1
  {
    LeadingNonneg(b, p, v1, v0, v);
    ShortcutArith(b, v1 * b, v0 + 1, v1, u1, u0);
    DigitAtLeast(b - 2, v, v1 * b + v0, p, Top3(b, u2, u1, u0), x, q);
  }

  lemma ShortcutArith(b: int, c: int, z: int, v1: int, u1: int, u0: int)
    requires b >= 2 && c == v1 * b && 0 <= z <= b && 0 <= u1 && 0 <= u0 && b <= 2 * v1
    ensures (b - 2) * (c + z) <= Top3(b, v1, u1, u0)
  {
    assert b * b <= 2 * c by { MulLe(b, 2 * v1, b); MulAssoc(2, v1, b); }
    assert (c + z) * (b - 2) <= (c + b) * (b - 2) by { MulLe(c + z, c + b, b - 2); }
    assert (c + b) * (b - 2) == c * b + b * b - 2 * c - 2 * b;
    assert (c + u1) * b == c * b + u1 * b;
    MulLe(0, u1, b);
  }

  /** The test compares qhat against the leading words. */
  lemma TooLarge(b: int, u2: int, u1: int, u0: int, v1: int, v0: int, qhat: int, rhat: int)
    requires qhat * v1 + rhat == u2 * b + u1
    ensures Exceeds(b, u0, v0, qhat, rhat) <==> qhat * (v1 * b + v0) > Top3(b, u2, u1, u0)
  {
    assert qhat * (v1 * b + v0) == (qhat * v1) * b + qhat * v0 by {
      MulAssoc(qhat, v1, b);
      MulDistrib(qhat, v1 * b, v0);
    }
    assert (u2 * b + u1) * b == (qhat * v1) * b + rhat * b;
  }

  /** Once rhat has outgrown a word the test cannot succeed. */
  lemma NotTooLarge(b: int, u2: int, u1: int, u0: int, v1: int, v0: int, qhat: int, rhat: int)
    requires qhat * v1 + rhat == u2 * b + u1 && rhat >= b && 0 <= qhat <= b && 0 <= v0 < b && 0 <= u0
    ensures qhat * (v1 * b + v0) <= Top3(b, u2, u1, u0)
  {
    MulLe(qhat, b, v0);
    MulLe(v0, b, b);
    MulLe(b, rhat, b);
    TooLarge(b, u2, u1, u0, v1, v0, qhat, rhat);
  }

  /** D3: the estimate is the true digit or one more. */
  lemma EstimateWithinOne(b: nat, p: int, x: int, u2: nat, u1: nat, u0: nat, v: int, v1: nat, v0: nat, q: int)
    requires Leading(b, p, x, u2, u1, u0, v, v1, v0)
    requires u2 <= v1 && 0 <= q < b && q * v <= x < (q + 1) * v
    ensures q <= Estimate(b, u2, u1, u0, v1, v0) <= q + 1
    ensures 0 <= Estimate(b, u2, u1, u0, v1, v0) < b
  {
    if u2 == v1 {
      ShortcutLower(b, p, x, u2, u1, u0, v, v1, v0, q);
    } else {
      DigitUpper(b, p, x, u2, u1, u0, v, v1, v0, q);
      EstimateGeneral(b, p, x, u2, u1, u0, v, v1, v0, q);
    }
  }

  lemma FirstEstimate(b: int, u2: int, u1: int, u0: int, v1: int, v0: int, q: int, qhat: int, rhat: int)
    requires b >= 2 && 0 <= u2 < v1 && 0 <= u1 < b && 0 <= u0 < b && 0 <= v0 && q >= 0
    requires qhat * v1 + rhat == u2 * b + u1 && 0 <= rhat < v1
    requires q * (v1 * b + v0) <= Top3(b, u2, u1, u0)
    ensures q <= qhat < b && 0 <= qhat
  {
    assert (u2 * b + u1) < v1 * b by { MulLe(u2 + 1, v1, b); assert (u2 + 1) * b == u2 * b + b; }
    assert qhat < b by { if qhat >= b { MulLe(b, qhat, v1); } }
    assert q <= qhat by {
      if q > qhat {
        MulLe(qhat + 1, q, v1);
        assert (qhat + 1) * v1 == qhat * v1 + v1;
        assert q * v1 >= u2 * b + u1 + 1;
        MulLe(u2 * b + u1 + 1, q * v1, b);
        assert (u2 * b + u1 + 1) * b == (u2 * b + u1) * b + b;
        MulAssoc(q, v1, b);
        MulDistrib(q, v1 * b, v0);
        MulLe(0, q, v0);
        assert false;
      }
    }
  }

  lemma EstimateParts(b: nat, u2: nat, u1: nat, u0: nat, v1: nat, v0: nat) returns (qhat: nat, rhat: nat)
    requires u2 < v1
    ensures rhat < v1 && qhat * v1 + rhat == u2 * b + u1
    ensures Estimate(b, u2, u1, u0, v1, v0) == Refined(b, u0, v1, v0, qhat, rhat)
  {
    hide Refined;
    qhat, rhat := (u2 * b + u1) / v1, (u2 * b + u1) % v1;
  }

  lemma LeadingBounds(b: int, p: int, x: int, u2: int, u1: int, u0: int, v: int, v1: int, v0: int)
    requires Leading(b, p, x, u2, u1, u0, v, v1, v0)
    ensures b >= 2 && 0 <= u2 < b && 0 <= u1 < b && 0 <= u0 < b && 0 <= v1 < b && 0 <= v0 < b && b <= 2 * v1
  {
  }

  lemma EstimateGeneral(b: nat, p: int, x: int, u2: nat, u1: nat, u0: nat, v: int, v1: nat, v0: nat, q: int)
    requires Leading(b, p, x, u2, u1, u0, v, v1, v0)
    requires u2 < v1 && 0 <= q < b && x < (q + 1) * v
    requires q * (v1 * b + v0) <= Top3(b, u2, u1, u0)
    ensures q <= Estimate(b, u2, u1, u0, v1, v0) <= q + 1
    ensures 0 <= Estimate(b, u2, u1, u0, v1, v0) < b
  {
    hide Top3, Refined, Estimate, Leading;
    LeadingBounds(b, p, x, u2, u1, u0, v, v1, v0);
    var qhat, rhat := EstimateParts(b, u2, u1, u0, v1, v0);
    FirstEstimate(b, u2, u1, u0, v1, v0, q, qhat, rhat);
    Refine(b, u2, u1, u0, v1, v0, q, qhat, rhat);
    DigitLower(b, p, x, u2, u1, u0, v, v1, v0, q, Estimate(b, u2, u1, u0, v1, v0));
  }

  /** The two corrections keep the estimate at or above the digit and end within the leading words. */
  lemma Refine(b: int, u2: int, u1: int, u0: int, v1: int, v0: int, q: int, qhat: int, rhat: int)
    requires b >= 2 && b <= 2 * v1 && 0 <= v0 < b && 0 <= u0 && q >= 0 && q <= qhat < b
    requires qhat * v1 + rhat == u2 * b + u1 && 0 <= rhat
    requires q * (v1 * b + v0) <= Top3(b, u2, u1, u0)
    ensures q <= Refined(b, u0, v1, v0, qhat, rhat) <= qhat
    ensures Refined(b, u0, v1, v0, qhat, rhat) * (v1 * b + v0) <= Top3(b, u2, u1, u0)
  {
    hide Top3, Exceeds;
    var a, t := v1 * b + v0, Top3(b, u2, u1, u0);
    assert a > 0 by { MulLe(1, v1, b); }
    TooLarge(b, u2, u1, u0, v1, v0, qhat, rhat);
    if Exceeds(b, u0, v0, qhat, rhat) {
      Below(q, qhat, a, t);
      StepBack(qhat, rhat, v1, u2 * b + u1);
      SecondStep(b, u2, u1, u0, v1, v0, q, qhat - 1, rhat + v1);
    }
  }

  /** After the first correction. */
  lemma SecondStep(b: int, u2: int, u1: int, u0: int, v1: int, v0: int, q: int, qhat: int, rhat: int)
    requires b >= 2 && b <= 2 * v1 && 0 <= v0 < b && 0 <= u0 && 0 <= q <= qhat < b
    requires qhat * v1 + rhat == u2 * b + u1 && v1 <= rhat && v1 * b + v0 > 0
    requires q * (v1 * b + v0) <= Top3(b, u2, u1, u0)
    ensures var e := if rhat < b && Exceeds(b, u0, v0, qhat, rhat) then qhat - 1 else qhat;
            q <= e && e * (v1 * b + v0) <= Top3(b, u2, u1, u0)
  {
    hide Top3, Exceeds;
    if rhat >= b {
      NotTooLarge(b, u2, u1, u0, v1, v0, qhat, rhat);
    } else {
      TooLarge(b, u2, u1, u0, v1, v0, qhat, rhat);
      if Exceeds(b, u0, v0, qhat, rhat) {
        Below(q, qhat, v1 * b + v0, Top3(b, u2, u1, u0));
        StepBack(qhat, rhat, v1, u2 * b + u1);
        NotTooLarge(b, u2, u1, u0, v1, v0, qhat - 1, rhat + v1);
      }
    }
  }

  lemma StepBack(qhat: int, rhat: int, v1: int, t: int)
    requires qhat * v1 + rhat == t
    ensures (qhat - 1) * v1 + (rhat + v1) == t
  {
  }

  lemma Below(q: int, qhat: int, a: int, t: int)
    requires a > 0 && q * a <= t < qhat * a
    ensures q < qhat
  {
    if q >= qhat { MulLe(qhat, q, a); }
  }

  // ----- D4: multiply and subtract -----

  /** Window `x` minus qhat times divisor `v`, with `c` the words done and `owed` still to subtract. */
  predicate Subtracted(b: nat, x: seq<nat>, v: seq<nat>, qhat: nat, c: seq<nat>, owed: int) {
    Val(b, x) - qhat * Val(b, v) == Val(b, c) - owed * Pow(b, |c|)
  }

  lemma MulSubRound(b: nat, x: seq<nat>, v: seq<nat>, qhat: nat, c: seq<nat>, j: nat, owed: int, out: nat, owed': nat)
    requires j < |x| && j < |v| && |c| == j
    requires Subtracted(b, x[..j], v[..j], qhat, c, owed)
    requires x[j] - Product(qhat, v[j]) - owed == out - Product(owed', b)
    ensures Subtracted(b, x[..j + 1], v[..j + 1], qhat, c + [out], owed')
  {
    hide Val, Pow;
    ValPrefix(b, x, j);
    ValPrefix(b, v, j);
    ValPush(b, c, out);
    assert Pow(b, j + 1) == b * Pow(b, j) by { PowStep(b, j); }
    MulSubArith(Val(b, x[..j]), Val(b, v[..j]), Val(b, c), x[j], v[j], out, owed, owed', qhat, b, Pow(b, j));
  }

  lemma PowStep(b: nat, j: nat)
    ensures Pow(b, j + 1) == b * Pow(b, j)
  {
  }

  lemma MulSubArith(vx: int, vv: int, vc: int, x: int, v: int, out: int, owed: int, owed': int, qhat: int, b: int,
                    p: int)
    requires vx - qhat * vv == vc - owed * p
    requires x - qhat * v - owed == out - owed' * b
    ensures (vx + x * p) - qhat * (vv + v * p) == (vc + out * p) - owed' * (b * p)
  {
    assert (x - qhat * v - owed) * p == x * p - (qhat * v) * p - owed * p;
    assert (out - owed' * b) * p == out * p - (owed' * b) * p;
    MulAssoc(qhat, v, p);
    MulAssoc(owed', b, p);
    MulDistrib(qhat, vv, v * p);
  }

  lemma WordOwed(b: nat, x: int, p: int, c: int, lo: int, owed: int, hi: nat, out: int, borrow: bool)
    requires out - If(borrow, b) == x - lo - owed && p + c == lo + Product(b, hi)
    ensures x - p - (c + owed) == out - Product(hi + If(borrow, 1), b)
  {
    assert (hi + If(borrow, 1)) * b == b * hi + If(borrow, b);
  }

  /** A word times a word plus a word fits in two words. */
  lemma DoubleWord(w: nat, x: nat, y: nat, c: nat)
    requires x < Base(w) && y < Base(w) && c < Base(w)
    ensures Product(x, y) + c < Product(Base(w), Base(w))
    ensures Product(x, y) + c == Low(Product(x, y) + c, w) + Product(Base(w), Shr(Product(x, y) + c, w))
    ensures Shr(Product(x, y) + c, w) < Base(w)
  {
    hide Pow2, Low, Shr;
    ProductBound(x, y, c, Base(w));
    var z := x * y + c;
    Parts(z, w);
    assert Shr(z, w) < Base(w) by { if Shr(z, w) >= Base(w) { MulLe(Base(w), Shr(z, w), Base(w)); } }
  }

  lemma ProductBound(x: int, y: int, c: int, b: int)
    requires 0 <= x < b && 0 <= y < b && 0 <= c < b
    ensures 0 <= x * y && x * y + c < b * b
  {
    MulLe(x, b - 1, y);
    MulLe(y, b - 1, b - 1);
    assert (b - 1) * (b - 1) == b * b - b - b + 1;
  }

  /** One word of the product leaves one word of the window. */
  method MulSubWord(w: nat, x: nat, d: nat, qhat: nat, mulCarry: nat, borrow: bool)
    returns (out: nat, owes: bool, more: nat)
    requires x < Base(w) && d < Base(w) && qhat < Base(w) && mulCarry < Base(w)
    ensures out < Base(w) && more < Base(w)
    ensures x - Product(qhat, d) - (mulCarry + If(borrow, 1)) == out - Product(more + If(owes, 1), Base(w))
  {
    hide Pow2, Low, Shr, SubWord, Product;
    DoubleWord(w, qhat, d, mulCarry);
    var mulResult: nat := Product(qhat, d) + mulCarry;
    var r := SubWord(Base(w), x, Low(mulResult, w), borrow);
    out, owes, more := r.0, r.1, Shr(mulResult, w);
    WordOwed(Base(w), x, Product(qhat, d), mulCarry, Low(mulResult, w), If(borrow, 1), more, out, owes);
  }

  method MulSub(w: nat, part: Span, divisor: Span, n: nat, qhat: nat) returns (borrow: bool)
    requires part.Fits() && divisor.Fits() && part.size == n + 1 && n <= divisor.size && part.data != divisor.data
    requires IsWords(Base(w), part.Words()) && IsWords(Base(w), divisor.Words()) && qhat < Base(w)
    modifies part.data
    ensures IsWords(Base(w), part.Words())
    ensures Val(Base(w), part.Words()) - If(borrow, Pow(Base(w), n + 1))
         == old(Val(Base(w), part.Words())) - qhat * Val(Base(w), divisor.Words()[..n])
    ensures OnlyWithin(part)
  {
    hide Val, Pow, Pow2, Low, Shr, SubWord, Subtracted, Product;
    var b := Base(w);
    var mulCarry: nat := 0;
    borrow := false;
    ghost var x, v := part.Words(), divisor.Words();
    SubtractedStart(b, qhat);
    assert x[..0] == [] && v[..0] == [] && part.data[part.start..part.start + 0] == [];
    for j := 0 to n
      invariant mulCarry < b
      invariant IsWords(b, part.data[part.start..part.start + j])
      invariant Subtracted(b, x[..j], v[..j], qhat, part.data[part.start..part.start + j], mulCarry + If(borrow, 1))
      invariant forall k :: j <= k <= n ==> part.data[part.start + k] == x[k]
      invariant OnlyWithin(part)
    {
      var d := divisor.data[divisor.start + j];
      assert d == v[j] && part.data[part.start + j] == x[j];
      ghost var c, owed := part.data[part.start..part.start + j], mulCarry + If(borrow, 1);
      var out, owes, more := MulSubWord(w, part.data[part.start + j], d, qhat, mulCarry, borrow);
      part.data[part.start + j] := out;
      mulCarry, borrow := more, owes;
      MulSubRound(b, x, v, qhat, c, j, owed, out, mulCarry + If(borrow, 1));
      assert part.data[part.start..part.start + j + 1] == c + [out];
    }
    ghost var c := part.data[part.start..part.start + n];
    assert part.data[part.start + n] == x[n];
    var out := SubWord(b, part.data[part.start + n], mulCarry, borrow);
    part.data[part.start + n] := out.0;
    LastWord(b, x, v[..n], qhat, c, n, mulCarry + If(borrow, 1), out.0, out.1);
    assert part.Words() == c + [out.0];
    borrow := out.1;
  }

  lemma SubtractedStart(b: nat, qhat: nat)
    ensures Subtracted(b, [], [], qhat, [], 0)
  {
  }

  lemma LastWord(b: nat, x: seq<nat>, v: seq<nat>, qhat: nat, c: seq<nat>, n: nat, owed: int, out: nat, borrow: bool)
    requires |x| == n + 1 && |c| == n
    requires Subtracted(b, x[..n], v, qhat, c, owed)
    requires out - If(borrow, b) == x[n] - owed
    ensures Val(b, c + [out]) - If(borrow, Pow(b, n + 1)) == Val(b, x) - qhat * Val(b, v)
  {
    hide Val, Pow;
    assert x[..n + 1] == x;
    ValPrefix(b, x, n);
    ValPush(b, c, out);
    PowStep(b, n);
    var p := Pow(b, n);
    assert (out - If(borrow, b)) * p == out * p - If(borrow, b * p);
    assert (x[n] - owed) * p == x[n] * p - owed * p;
  }

  // ----- D3 to D6: one quotient digit -----

  lemma Val2(b: nat, s: seq<nat>)
    requires |s| == 2
    ensures Val(b, s) == s[1] * b + s[0]
  {
    ValCons(b, s);
    ValCons(b, s[1..]);
    ValZeros(b, s[1..][1..]);
  }

  lemma Val3(b: nat, s: seq<nat>)
    requires |s| == 3
    ensures Val(b, s) == Top3(b, s[2], s[1], s[0])
  {
    ValCons(b, s);
    Val2(b, s[1..]);
  }

  /** A split number is bracketed by its high part. */
  lemma Bracket(b: nat, s: seq<nat>, k: nat)
    requires k <= |s| && IsWords(b, s)
    ensures Val(b, s[k..]) * Pow(b, k) <= Val(b, s) < (Val(b, s[k..]) + 1) * Pow(b, k)
  {
    hide Val, Pow;
    ValSplit(b, s, k);
    ValBound(b, s[..k]);
    assert (Val(b, s[k..]) + 1) * Pow(b, k) == Val(b, s[k..]) * Pow(b, k) + Pow(b, k);
  }

  lemma LeadingWords(b: nat, x: seq<nat>, v: seq<nat>, n: nat)
    requires n >= 2 && |x| == n + 1 && |v| == n && b >= 2 && IsWords(b, x) && IsWords(b, v) && b <= 2 * v[n - 1]
    ensures Leading(b, Pow(b, n - 2), Val(b, x), x[n], x[n - 1], x[n - 2], Val(b, v), v[n - 1], v[n - 2])
  {
    hide Val, Pow, Top3;
    PowPos(b, n - 2);
    Bracket(b, x, n - 2);
    Bracket(b, v, n - 2);
    Val3(b, x[n - 2..]);
    Val2(b, v[n - 2..]);
  }

  /** The leading dividend word never exceeds the leading divisor word: the first VERIFY holds. */
  lemma LeadingWordBound(b: nat, x: seq<nat>, v: seq<nat>, n: nat)
    requires n >= 1 && |x| == n + 1 && |v| == n && IsWords(b, x) && IsWords(b, v)
    requires Val(b, x[1..]) < Val(b, v)
    ensures x[n] <= v[n - 1]
  {
    if v[n - 1] < x[n] {
      assert v[n..] == x[1..][n..];
      ValCompare(b, v, x[1..], n - 1);
    }
  }

  /** The window is below b times the divisor, so the true digit is a word. */
  lemma TrueDigit(b: nat, x: seq<nat>, v: int, n: nat) returns (q: int)
    requires |x| == n + 1 && IsWords(b, x) && Val(b, x[1..]) < v
    ensures 0 <= q < b && q * v <= Val(b, x) < (q + 1) * v
  {
    hide Val;
    q := Val(b, x) / v;
    var r := Val(b, x) % v;
    assert Val(b, x) == v * q + r && 0 <= r < v;
    ValCons(b, x);
    DigitRange(Val(b, x), Val(b, x[1..]), x[0], b, v, q, r);
  }

  lemma DigitRange(x: int, high: int, low: int, b: int, v: int, q: int, r: int)
    requires x == v * q + r && 0 <= r < v && x == low + b * high && 0 <= low < b && 0 <= high < v
    ensures 0 <= q < b && q * v <= x < (q + 1) * v
  {
    MulStep(b, high, v);
    assert b * high >= 0 by { MulLe(0, high, b); }
    if q >= b {
      MulLe(b, q, v);
    } else if q < 0 {
      MulLe(q, -1, v);
    }
  }

  method DivStep(w: nat, part: Span, divisor: Span, n: nat) returns (digit: nat)
    requires w >= 1 && n >= 2 && part.Fits() && divisor.Fits() && !part.signed && !divisor.signed
    requires part.size == n + 1 && n <= divisor.size && part.data != divisor.data
    requires IsWords(Base(w), part.Words()) && IsWords(Base(w), divisor.Words())
    requires Base(w) <= 2 * divisor.Words()[n - 1]
    requires n < divisor.size ==> divisor.Words()[n] == 0
    requires Val(Base(w), part.Words()[1..]) < Val(Base(w), divisor.Words()[..n])
    modifies part.data
    ensures IsWords(Base(w), part.Words()) && digit < Base(w)
    ensures old(Val(Base(w), part.Words())) == digit * Val(Base(w), divisor.Words()[..n]) + Val(Base(w), part.Words())
    ensures Val(Base(w), part.Words()) < Val(Base(w), divisor.Words()[..n])
    ensures OnlyWithin(part)
  {
    hide Val, Pow, Pow2, Estimate, Leading;
    var b := Base(w);
    ghost var x, v := part.Words(), divisor.Words()[..n];
    LeadingWordBound(b, x, v, n);
    var approx := divisor.data[divisor.start + n - 1];
    var u2, u1, u0 := part.data[part.start + n], part.data[part.start + n - 1], part.data[part.start + n - 2];
    assert approx == v[n - 1] && u2 == x[n] && u1 == x[n - 1] && u0 == x[n - 2];
    assert b >= 2 by { BaseAtLeastTwo(w); }
    assert u2 <= approx;
    ghost var q := TrueDigit(b, x, Val(b, v), n);
    ValBound(b, x);
    LeadingWords(b, x, v, n);
    var v0 := divisor.data[divisor.start + n - 2];
    assert v0 == v[n - 2];
    EstimateWithinOne(b, Pow(b, n - 2), Val(b, x), u2, u1, u0, Val(b, v), approx, v0, q);
    var qhat: nat := Estimate(b, u2, u1, u0, approx, v0);
    var borrow := MulSub(w, part, divisor, n, qhat);
    ValBound(b, part.Words());
    BorrowMeansOneTooMany(Val(b, x), Val(b, v), q, qhat, Val(b, part.Words()), Pow(b, n + 1), borrow);
    if borrow {
      // add reads no divisor word beyond the window
      var divisorPart := Span(divisor.data, divisor.start, if n < divisor.size then n + 1 else n, false);
      PrefixWords(divisor, divisorPart.size);
      assert Val(b, divisorPart.Words()) == Val(b, v) by {
        ValTrim(b, divisorPart.Words(), n);
        assert divisorPart.Words()[..n] == v;
      }
      ghost var short := Val(b, part.Words());
      var overflow := Add(w, false, part, divisorPart, part, false);
      ValBound(b, part.Words());
      AddBack(Val(b, x), Val(b, v), q, short, Val(b, part.Words()), Pow(b, n + 1), overflow);
      assert overflow == 1;
    }
    digit := qhat - (if borrow then 1 else 0);
  }

  lemma BaseAtLeastTwo(w: nat)
    requires w >= 1
    ensures Base(w) >= 2
  {
  }

  lemma BorrowMeansOneTooMany(x: int, v: int, q: int, qhat: int, rest: int, m: int, borrow: bool)
    requires q * v <= x < (q + 1) * v && q <= qhat <= q + 1 && 0 <= rest < m
    requires rest - If(borrow, m) == x - qhat * v
    ensures borrow == (qhat == q + 1)
    ensures !borrow ==> x == q * v + rest && rest < v
    ensures borrow ==> rest == x - q * v - v + m
  {
    assert (q + 1) * v == q * v + v;
  }

  lemma AddBack(x: int, v: int, q: int, short: int, rest: int, m: int, overflow: int)
    requires q * v <= x < (q + 1) * v && 0 <= rest < m && q >= 0 && v >= 0 && x < m
    requires short == x - q * v - v + m && 0 <= short < m
    requires short + v == rest + overflow * m
    ensures overflow == 1 && x == q * v + rest && rest < v
  {
    assert (q + 1) * v == q * v + v;
    var r := x - q * v;
    assert r + m == rest + overflow * m && 0 <= r < v;
    MulLe(0, q, v);
    if overflow <= 0 { MulLe(overflow, 0, m); }
    if overflow >= 2 { MulLe(2, overflow, m); }
  }

  // ----- D2 to D7: the loop over the digits -----

  /** What is left in `u[..i]` together with the digits found so far makes up the dividend. */
  predicate Accounted(b: nat, u: seq<nat>, i: nat, digits: seq<nat>, v: int, n: nat, total: int) {
    n <= i <= |u| && Val(b, u[..i]) + (v * Val(b, digits)) * Pow(b, i - n) == total
  }

  lemma TopWordZero(b: nat, s: seq<nat>, v: seq<nat>)
    requires |s| == |v| + 1 && IsWords(b, v) && Val(b, s) < Val(b, v)
    ensures s[|v|] == 0
  {
    ValBound(b, v);
    if s[|v|] > 0 { MulLe(1, s[|v|], Pow(b, |v|)); }
  }

  lemma DigitRound(b: nat, u: seq<nat>, u': seq<nat>, i: nat, n: nat, digits: seq<nat>, digit: nat, v: int, total: int)
    requires n <= i < |u| == |u'| && u'[..i - n] == u[..i - n] && u'[i] == 0
    requires Val(b, u[i - n..i + 1]) == digit * v + Val(b, u'[i - n..i + 1])
    requires Accounted(b, u, i + 1, digits, v, n, total)
    ensures Accounted(b, u', i, [digit] + digits, v, n, total)
  {
    hide Val, Pow;
    var p, rest := Pow(b, i - n), Val(b, u'[i - n..i + 1]);
    assert u[..i + 1][..i - n] == u[..i - n] && u[..i + 1][i - n..] == u[i - n..i + 1];
    assert u'[..i + 1][..i - n] == u[..i - n] && u'[..i + 1][i - n..] == u'[i - n..i + 1];
    ValSplit(b, u[..i + 1], i - n);
    ValSplit(b, u'[..i + 1], i - n);
    assert u'[..i + 1][..i] == u'[..i];
    ValTrim(b, u'[..i + 1], i);
    assert ([digit] + digits)[1..] == digits;
    ValCons(b, [digit] + digits);
    PowStep(b, i - n);
    DigitArith(digit, v, rest, Val(b, digits), b, p);
  }

  lemma DigitArith(digit: int, v: int, rest: int, found: int, b: int, p: int)
    ensures p * (digit * v + rest) + (v * found) * (b * p) == p * rest + (v * (digit + b * found)) * p
  {
    MulDistrib(p, digit * v, rest);
    assert v * (digit + b * found) == digit * v + v * (b * found);
    assert v * (b * found) == (v * found) * b by { MulAssoc(v, b, found); MulAssoc(v, found, b); }
    MulAssoc(v * found, b, p);
    assert (digit * v + (v * found) * b) * p == (digit * v) * p + ((v * found) * b) * p;
  }

  /** One round on the dividend: the window above index i - n is reduced below the divisor. */
  method DivDigit(w: nat, dividend: Span, divisor: Span, i: nat, n: nat) returns (digit: nat)
    requires w >= 1 && 2 <= n <= i && dividend.Fits() && divisor.Fits() && !divisor.signed
    requires i < dividend.size && n <= divisor.size && dividend.data != divisor.data
    requires IsWords(Base(w), dividend.Words()) && IsWords(Base(w), divisor.Words())
    requires Base(w) <= 2 * divisor.Words()[n - 1]
    requires n < divisor.size ==> divisor.Words()[n] == 0
    requires Val(Base(w), dividend.Words()[i + 1 - n..i + 1]) < Val(Base(w), divisor.Words()[..n])
    modifies dividend.data
    ensures IsWords(Base(w), dividend.Words()) && digit < Base(w)
    ensures dividend.Words()[..i - n] == old(dividend.Words()[..i - n])
    ensures dividend.Words()[i] == 0 && dividend.Words()[i + 1..] == old(dividend.Words()[i + 1..])
    ensures old(Val(Base(w), dividend.Words()[i - n..i + 1]))
         == digit * Val(Base(w), divisor.Words()[..n]) + Val(Base(w), dividend.Words()[i - n..i + 1])
    ensures Val(Base(w), dividend.Words()[i - n..i]) < Val(Base(w), divisor.Words()[..n])
    ensures OnlyWithin(dividend)
  {
    hide Val, Pow, Pow2;
    ghost var u := dividend.Words();
    var part := Span(dividend.data, dividend.start + i - n, n + 1, false);
    WindowWords(dividend, i - n, n + 1);
    WindowIsWords(Base(w), u, i - n, i + 1);
    SliceOfSlice(u, i - n, i + 1, 1, n + 1);
    digit := DivStep(w, part, divisor, n);
    ghost var u' := dividend.Words();
    forall k | 0 <= k < |u| ensures u'[k] == if i - n <= k <= i then part.Words()[k - (i - n)] else u[k] {
      assert u'[k] == dividend.data[dividend.start + k];
    }
    PartReplaced(u, u', part.Words(), i, n);
    TopWordZero(Base(w), part.Words(), divisor.Words()[..n]);
    WindowShrinks(Base(w), u', i, n);
  }

  /** A span inside a span holds a piece of its words. */
  lemma WindowWords(span: Span, at: nat, size: nat)
    requires span.Fits() && at + size <= span.size
    ensures Span(span.data, span.start + at, size, false).Words() == span.Words()[at..at + size]
  {
    var x, y := span.data[span.start + at..span.start + at + size], span.Words()[at..at + size];
    assert |x| == |y|;
    forall k | 0 <= k < size ensures x[k] == y[k] {
      assert x[k] == span.data[span.start + (at + k)];
      assert y[k] == span.Words()[at + k] == span.data[span.start + (at + k)];
    }
  }

  lemma WindowIsWords(b: nat, u: seq<nat>, i: nat, j: nat)
    requires IsWords(b, u) && i <= j <= |u|
    ensures IsWords(b, u[i..j])
  {
    forall k | 0 <= k < j - i ensures u[i..j][k] < b {
      assert u[i..j][k] == u[i + k];
    }
  }

  lemma PartReplaced(u: seq<nat>, u': seq<nat>, part: seq<nat>, i: nat, n: nat)
    requires n <= i < |u| == |u'| && |part| == n + 1
    requires forall k :: 0 <= k < |u| ==> u'[k] == if i - n <= k <= i then part[k - (i - n)] else u[k]
    ensures u'[..i - n] == u[..i - n] && u'[i - n..i + 1] == part && u'[i + 1..] == u[i + 1..]
  {
    assert forall k :: 0 <= k <= n ==> u'[i - n..i + 1][k] == u'[i - n + k] == part[k];
  }

  lemma WindowShrinks(b: nat, u: seq<nat>, i: nat, n: nat)
    requires n <= i < |u| && u[i] == 0
    ensures Val(b, u[i - n..i]) == Val(b, u[i - n..i + 1])
  {
    assert u[i - n..i + 1][..n] == u[i - n..i];
    ValTrim(b, u[i - n..i + 1], n);
  }

  method DivLoop(w: nat, dividend: Span, divisor: Span, quotient: Span, m: nat, n: nat)
    requires w >= 1 && 2 <= n <= m && dividend.Fits() && divisor.Fits() && quotient.Fits()
    requires !dividend.signed && !divisor.signed && m < dividend.size && n <= divisor.size && m - n < quotient.size
    requires dividend.data != divisor.data && quotient.data != dividend.data && quotient.data != divisor.data
    requires IsWords(Base(w), dividend.Words()) && IsWords(Base(w), divisor.Words())
    requires Base(w) <= 2 * divisor.Words()[n - 1]
    requires n < divisor.size ==> divisor.Words()[n] == 0
    requires Val(Base(w), dividend.Words()[m + 1 - n..m + 1]) < Val(Base(w), divisor.Words()[..n])
    modifies dividend.data, quotient.data
    ensures IsWords(Base(w), dividend.Words()) && IsWords(Base(w), quotient.Words()[..m - n + 1])
    ensures Accounted(Base(w), dividend.Words(), n, quotient.Words()[..m - n + 1],
                      Val(Base(w), divisor.Words()[..n]), n,
                      old(Val(Base(w), dividend.Words()[..m + 1])))
    ensures Val(Base(w), dividend.Words()[..n]) < Val(Base(w), divisor.Words()[..n])
    ensures forall k :: n <= k <= m ==> dividend.Words()[k] == 0
    ensures dividend.Words()[m + 1..] == old(dividend.Words()[m + 1..])
    ensures OnlyWithin(dividend) && OnlyWithin(quotient)
  {
    hide Val, Pow, Pow2, Accounted;
    var b := Base(w);
    ghost var v := divisor.Words()[..n];
    ghost var total := Val(b, dividend.Words()[..m + 1]);
    NothingFound(b, dividend.Words(), m + 1, Val(b, v), n);
    assert quotient.Words()[m + 1 - n..m + 1 - n] == [];
    for i := m + 1 downto n
      invariant IsWords(b, dividend.Words()) && IsWords(b, quotient.Words()[i - n..m - n + 1])
      invariant Accounted(b, dividend.Words(), i, quotient.Words()[i - n..m - n + 1], Val(b, v), n, total)
      invariant Val(b, dividend.Words()[i - n..i]) < Val(b, v)
      invariant forall k :: i <= k <= m ==> dividend.Words()[k] == 0
      invariant dividend.Words()[m + 1..] == old(dividend.Words()[m + 1..])
      invariant divisor.Words() == old(divisor.Words())
      invariant OnlyWithin(dividend) && OnlyWithin(quotient)
    {
      ghost var u, digits := dividend.Words(), quotient.Words()[i + 1 - n..m - n + 1];
      var digit := DivDigit(w, dividend, divisor, i, n);
      ghost var u' := dividend.Words();
      DigitRound(b, u, u', i, n, digits, digit, Val(b, v), total);
      ghost var q := quotient.Words();
      assert q[i + 1 - n..m - n + 1] == digits;
      quotient.data[quotient.start + i - n] := digit;
      assert dividend.Words() == u';
      assert quotient.Words() == q[i - n := digit];
      DigitPrepended(q, digit, i - n, m - n + 1);
      Suffix(u, u', i, m);
    }
    assert quotient.Words()[0..m - n + 1] == quotient.Words()[..m - n + 1];
    assert dividend.Words()[0..n] == dividend.Words()[..n];
  }

  lemma DigitPrepended(q: seq<nat>, digit: nat, k: nat, end: nat)
    requires k < end <= |q|
    ensures q[k := digit][k..end] == [digit] + q[k + 1..end]
  {
  }

  lemma Suffix(u: seq<nat>, u': seq<nat>, i: nat, m: nat)
    requires i <= m < |u| == |u'| && u'[i + 1..] == u[i + 1..]
    ensures u'[m + 1..] == u[m + 1..] && forall k :: i < k <= m ==> u'[k] == u[k]
  {
    assert forall k :: i < k < |u| ==> u'[k] == u'[i + 1..][k - i - 1] == u[i + 1..][k - i - 1] == u[k];
  }

  lemma NothingFound(b: nat, u: seq<nat>, i: nat, v: int, n: nat)
    requires n <= i <= |u|
    ensures Accounted(b, u, i, [], v, n, Val(b, u[..i]))
  {
  }

  // ----- D1 and D8: normalise and restore -----

  /** count_leading_zeroes of a nonzero word: shifting by it sets the top bit. */
  function CountLeadingZeroes(w: nat, x: nat): (r: nat)
    requires 0 < x < Pow2(w)
    ensures r < w && Pow2(w - 1) <= x * Pow2(r) < Pow2(w)
  {
    if x >= Pow2(w - 1) then 0
    else
      var r := CountLeadingZeroes(w - 1, x);
      MulSwap(2, x, Pow2(r));
      r + 1
  }

  /** A left shift that pushes nothing out of the first k words multiplies them. */
  lemma ScaledPrefix(w: nat, s: seq<nat>, shift: nat, k: nat)
    requires shift < w && 1 <= k <= |s| && IsWords(Base(w), s) && s[k - 1] * Pow2(shift) < Base(w)
    ensures var t := ShiftedLeft(w, s, 0, shift);
            && Val(Base(w), t[..k]) == Val(Base(w), s[..k]) * Pow2(shift)
            && s[k - 1] * Pow2(shift) <= t[k - 1] < s[k - 1] * Pow2(shift) + Pow2(shift)
            && (k < |s| && s[k] == 0 ==> t[k] == 0)
  {
    hide Val, Pow, Pow2, Low, Shl, Shr, LeftWord;
    var t, x, below := ShiftedLeft(w, s, 0, shift), s[k - 1], if k == 1 then 0 else s[k - 2];
    TopWord(w, x, below, shift);
    assert t[k - 1] == LeftAt(w, s, 0, shift, k - 1) == LeftWord(w, x, below, shift);
    assert k < |s| && s[k] == 0 ==> t[k] == LeftAt(w, s, 0, shift, k) == LeftWord(w, 0, x, shift);
    LeftPrefix(w, s, shift, t[..k]);
  }

  /** The shifted word on top of a prefix with room, and the zero word above it. */
  lemma TopWord(w: nat, x: nat, below: nat, shift: nat)
    requires shift <= w && x < Base(w) && below < Base(w) && x * Pow2(shift) < Base(w)
    ensures Shr(x, w - shift) == 0 && LeftWord(w, 0, x, shift) == 0
    ensures x * Pow2(shift) <= LeftWord(w, x, below, shift) < x * Pow2(shift) + Pow2(shift)
  {
    hide Pow2, Low, Shl, Shr, LeftWord;
    NothingPushedOut(w, x, shift);
    LeftWordValue(w, x, below, shift);
    ShiftSplit(w, below, shift);
    LeftWordValue(w, 0, x, shift);
    ShiftSplit(w, 0, shift);
  }

  lemma NothingPushedOut(w: nat, x: nat, shift: nat)
    requires shift <= w && x < Base(w) && x * Pow2(shift) < Base(w)
    ensures Shr(x, w - shift) == 0 && Low(Shl(x, shift), w) == x * Pow2(shift)
  {
    hide Pow2, Low, Shl, Shr;
    ShiftSplit(w, x, shift);
    if Shr(x, w - shift) > 0 { MulLe(1, Shr(x, w - shift), Base(w)); }
  }

  method Normalize(w: nat, dividend: Span, divisor: Span, m: nat, n: nat) returns (shift: nat)
    requires w >= 1 && 2 <= n <= m && dividend.Fits() && divisor.Fits() && dividend.data != divisor.data
    requires m < dividend.size && n <= divisor.size
    requires IsWords(Base(w), dividend.Words()) && IsWords(Base(w), divisor.Words())
    requires divisor.Words()[n - 1] != 0 && (n < divisor.size ==> divisor.Words()[n] == 0)
    requires dividend.Words()[m] == 0
    modifies dividend.data, divisor.data
    ensures shift < w && IsWords(Base(w), dividend.Words()) && IsWords(Base(w), divisor.Words())
    ensures Val(Base(w), dividend.Words()[..m + 1]) == old(Val(Base(w), dividend.Words()[..m])) * Pow2(shift)
    ensures Val(Base(w), divisor.Words()[..n]) == old(Val(Base(w), divisor.Words()[..n])) * Pow2(shift)
    ensures Base(w) <= 2 * divisor.Words()[n - 1] && (n < divisor.size ==> divisor.Words()[n] == 0)
    ensures Val(Base(w), dividend.Words()[m + 1 - n..m + 1]) < Val(Base(w), divisor.Words()[..n])
    ensures forall k :: m < k < dividend.size && old(dividend.Words()[k]) == 0 && old(dividend.Words()[k - 1]) == 0
              ==> dividend.Words()[k] == 0
    ensures OnlyWithin(dividend) && OnlyWithin(divisor)
  {
    hide Val, Pow, Pow2, Low, Shl, ShiftedLeft, CountLeadingZeroes;
    ghost var b, u, v := Base(w), dividend.Words(), divisor.Words();
    assert divisor.data[divisor.start + n - 1] == v[n - 1];
    shift := CountLeadingZeroes(w, divisor.data[divisor.start + n - 1]);
    assert shift < dividend.size * w && shift < divisor.size * w by {
      MulLe(1, dividend.size, w);
      MulLe(1, divisor.size, w);
    }
    ShiftLeft(w, dividend, shift, dividend);
    ShiftLeft(w, divisor, shift, divisor);
    ghost var u', v' := dividend.Words(), divisor.Words();
    assert u' == ShiftedLeft(w, u, 0, shift) && v' == ShiftedLeft(w, v, 0, shift);
    NormalizedWords(w, u, v, m, n, shift);
  }

  lemma NormalizedWords(w: nat, u: seq<nat>, v: seq<nat>, m: nat, n: nat, shift: nat)
    requires shift < w && 2 <= n <= m < |u| && n <= |v| && IsWords(Base(w), u) && IsWords(Base(w), v)
    requires Pow2(w - 1) <= v[n - 1] * Pow2(shift) < Base(w)
    requires (n < |v| ==> v[n] == 0) && u[m] == 0
    ensures var u', v', b := ShiftedLeft(w, u, 0, shift), ShiftedLeft(w, v, 0, shift), Base(w);
            && IsWords(b, u') && IsWords(b, v')
            && Val(b, u'[..m + 1]) == Val(b, u[..m]) * Pow2(shift)
            && Val(b, v'[..n]) == Val(b, v[..n]) * Pow2(shift)
            && b <= 2 * v'[n - 1] && (n < |v| ==> v'[n] == 0)
            && Val(b, u'[m + 1 - n..m + 1]) < Val(b, v'[..n])
            && forall k :: m < k < |u| && u[k] == 0 && u[k - 1] == 0 ==> u'[k] == 0
  {
    hide Val, Pow, Pow2, Low, Shl, ShiftedLeft;
    var u', v', b := ShiftedLeft(w, u, 0, shift), ShiftedLeft(w, v, 0, shift), Base(w);
    ShiftedLeftValue(w, u, 0, shift);
    ShiftedLeftValue(w, v, 0, shift);
    ScaledPrefix(w, v, shift, n);
    ScaledPrefix(w, u, shift, m + 1);
    assert Val(b, u[..m + 1]) == Val(b, u[..m]) by { assert u[..m + 1][..m] == u[..m]; ValTrim(b, u[..m + 1], m); }
    TopBits(w, v[n - 1], shift, v'[n - 1], u'[m]);
    WindowBelow(b, u', v', m, n);
    forall k | m < k < |u| && u[k] == 0 && u[k - 1] == 0 ensures u'[k] == 0 {
      ScaledPrefix(w, u, shift, k);
    }
  }

  lemma TopBits(w: nat, x: nat, shift: nat, top: nat, carried: nat)
    requires shift < w && Pow2(w - 1) <= x * Pow2(shift) <= top && carried < Pow2(shift)
    ensures Base(w) <= 2 * top && carried < top
  {
    Pow2Mono(shift, w - 1);
  }

  lemma WindowBelow(b: nat, u: seq<nat>, v: seq<nat>, m: nat, n: nat)
    requires 1 <= n <= m < |u| && n <= |v| && IsWords(b, u) && IsWords(b, v) && u[m] < v[n - 1]
    ensures Val(b, u[m + 1 - n..m + 1]) < Val(b, v[..n])
  {
    var x, y := u[m + 1 - n..m + 1], v[..n];
    assert x[n..] == y[n..] == [];
    ValCompare(b, x, y, n - 1);
  }

  /** Dividing out the normalisation factor. */
  lemma Unnormalize(d: int, v: int, q: int, rest: int, f: int)
    requires f > 0 && 0 <= rest < v * f && (v * f) * q + rest == d * f
    ensures 0 <= d - v * q < v && rest == f * (d - v * q)
  {
    assert (v * f) * q == (v * q) * f;
    assert d * f - (v * q) * f == (d - v * q) * f;
    var r := d - v * q;
    assert rest == r * f;
    if r < 0 { MulLe(r, -1, f); }
    if r >= v { MulLe(v, r, f); }
  }

  /** q and r are quotient and remainder of d by v. */
  ghost predicate Euclidean(d: nat, v: nat, q: nat, r: nat) {
    d == v * q + r && r < v
  }

  /** D1 to D7: the quotient, and the scaled remainder in the low words of the dividend. */
  method Divide(w: nat, dividend: Span, divisor: Span, quotient: Span, m: nat, n: nat, ghost zeros: nat)
    returns (shift: nat, ghost r: nat)
    requires w >= 1 && 2 <= n <= m && dividend.Fits() && divisor.Fits() && quotient.Fits()
    requires !dividend.signed && !divisor.signed
    requires m < dividend.size && n <= divisor.size && m - n < quotient.size
    requires dividend.data != divisor.data && quotient.data != dividend.data && quotient.data != divisor.data
    requires IsWords(Base(w), dividend.Words()) && IsWords(Base(w), divisor.Words())
    requires divisor.Words()[n - 1] != 0 && (n < divisor.size ==> divisor.Words()[n] == 0)
    requires dividend.Words()[m] == 0
    requires zeros <= dividend.size && forall k :: m <= k < zeros ==> dividend.Words()[k] == 0
    modifies dividend.data, divisor.data, quotient.data
    ensures shift < w && IsWords(Base(w), quotient.Words()) && IsWords(Base(w), dividend.Words())
    ensures Euclidean(old(Val(Base(w), dividend.Words()[..m])), old(Val(Base(w), divisor.Words()[..n])),
                      Val(Base(w), quotient.Words()), r)
    ensures Val(Base(w), dividend.Words()[..n]) == Pow2(shift) * r
    ensures forall k :: n <= k < zeros ==> dividend.Words()[k] == 0
  {
    hide Val, Pow, Pow2, Low, Shl, Shr;
    ghost var b := Base(w);
    ghost var d, v := Val(b, dividend.Words()[..m]), Val(b, divisor.Words()[..n]);
    ghost var u0 := dividend.Words();
    shift := Normalize(w, dividend, divisor, m, n);
    ghost var u1 := dividend.Words();
    assert u1[..m + 1] == dividend.Words()[..m + 1];
    DivLoop(w, dividend, divisor, quotient, m, n);
    var digits := m - n + 1;
    ghost var u2, found := dividend.Words(), quotient.Words()[..m - n + 1];
    AllFound(b, u2, found, v * Pow2(shift), n, d * Pow2(shift));
    Unnormalize(d, v, Val(b, found), Val(b, u2[..n]), Pow2(shift));
    r := d - v * Val(b, found);
    ZeroAbove(quotient, digits);
    assert dividend.Words() == u2;
    assert Val(b, quotient.Words()) == Val(b, found) by { ValTrim(b, quotient.Words(), digits); }
    RestZero(u0, u1, u2, m, n, zeros);
  }

  /**
   Euclidean division of the words, whatever the word size and the lengths.  The remainder
   storage receives as many words as the dividend storage has; its further words stay.
   */
  method DivModInternal(w: nat, dividend: Span, divisor: Span, quotient: Span, remainder: Span, m: nat, n: nat,
                        restoreRemainder: bool) returns (ghost r: nat)
    requires w >= 1 && 2 <= n <= m && dividend.Fits() && divisor.Fits() && quotient.Fits() && remainder.Fits()
    requires !dividend.signed && !divisor.signed
    requires m < dividend.size && n <= divisor.size && m - n < quotient.size
    requires dividend.data != divisor.data && quotient.data != dividend.data && quotient.data != divisor.data
    requires restoreRemainder ==>
               n <= remainder.size && remainder.data != dividend.data && remainder.data != quotient.data
    requires IsWords(Base(w), dividend.Words()) && IsWords(Base(w), divisor.Words())
    requires divisor.Words()[n - 1] != 0 && (n < divisor.size ==> divisor.Words()[n] == 0)
    requires dividend.Words()[m] == 0
    requires restoreRemainder ==> forall k :: m <= k < Min(remainder.size, dividend.size) ==> dividend.Words()[k] == 0
    modifies dividend.data, divisor.data, quotient.data, remainder.data
    ensures IsWords(Base(w), quotient.Words())
    ensures var d, v := old(Val(Base(w), dividend.Words()[..m])), old(Val(Base(w), divisor.Words()[..n]));
            d == v * Val(Base(w), quotient.Words()) + r && r < v
    ensures restoreRemainder ==>
              Val(Base(w), remainder.Words()[..Min(remainder.size, dividend.size)]) == r &&
              IsWords(Base(w), remainder.Words()[..Min(remainder.size, dividend.size)])
    ensures restoreRemainder && remainder.data != divisor.data ==>
              var c := Min(remainder.size, dividend.size);
              remainder.Words()[c..] == old(remainder.Words()[c..])
              && (Val(Base(w), remainder.Words()) == r <==>
                  forall k :: c <= k < remainder.size ==> old(remainder.Words())[k] == 0)
  {
    hide Val, Pow, Pow2, HoldsLow, Restored, Euclidean;
    ghost var before := remainder.Words();
    ghost var d, v := Val(Base(w), dividend.Words()[..m]), Val(Base(w), divisor.Words()[..n]);
    ghost var zeros := if restoreRemainder then Min(remainder.size, dividend.size) else m;
    var shift;
    shift, r := Divide(w, dividend, divisor, quotient, m, n, zeros);
    ghost var q := quotient.Words();
    if restoreRemainder {
      assert remainder.data != divisor.data ==> remainder.Words() == before;
      Restore(w, dividend, remainder, shift, n, r);
      assert quotient.Words() == q;
      RestoredMeaning(w, before, remainder.Words(), dividend.size, r);
    }
    EuclideanMeaning(d, v, Val(Base(w), q), r);
  }

  lemma EuclideanMeaning(d: nat, v: nat, q: nat, r: nat)
    requires Euclidean(d, v, q, r)
    ensures d == v * q + r && r < v
  {
  }

  lemma RestoredMeaning(w: nat, before: seq<nat>, after: seq<nat>, size: nat, r: int)
    ensures HoldsLow(w, after, size, r) ==>
              var c := Min(|after|, size); Val(Base(w), after[..c]) == r && IsWords(Base(w), after[..c])
    ensures Restored(w, before, after, size, r) ==>
              var c := Min(|after|, size);
              |after| == |before| && after[c..] == before[c..] &&
              (Val(Base(w), after) == r <==> forall k :: c <= k < |before| ==> before[k] == 0)
  {
  }

  /** The low words, as many as the dividend storage has, hold r. */
  ghost predicate HoldsLow(w: nat, words: seq<nat>, size: nat, r: int) {
    var c := Min(|words|, size);
    IsWords(Base(w), words[..c]) && Val(Base(w), words[..c]) == r
  }

  /**
   The low words hold the remainder r and the others are as before, so the whole storage
   denotes r exactly when the others were zero.
   */
  ghost predicate Restored(w: nat, before: seq<nat>, after: seq<nat>, size: nat, r: int) {
    && |after| == |before| && HoldsLow(w, after, size, r)
    && var c := Min(|after|, size);
    && after[c..] == before[c..]
    && (Val(Base(w), after) == r <==> forall k :: c <= k < |before| ==> before[k] == 0)
  }

  /** Words above the first c count unless they are all zero. */
  lemma WordsAbove(b: nat, s: seq<nat>, c: nat)
    requires b > 0 && c <= |s|
    ensures Val(b, s) == Val(b, s[..c]) <==> forall k :: c <= k < |s| ==> s[k] == 0
  {
    hide Val, Pow;
    ValSplit(b, s, c);
    PowPos(b, c);
    var high := s[c..];
    if forall k :: c <= k < |s| ==> s[k] == 0 {
      ValZeros(b, high);
    } else {
      var k :| c <= k < |s| && s[k] != 0;
      ValNonzero(b, high, k - c);
      MulLe(1, Val(b, high), Pow(b, c));
    }
  }

  /** D8: shifting the remaining words back yields the remainder. */
  method Restore(w: nat, dividend: Span, remainder: Span, shift: nat, n: nat, ghost r: nat)
    requires shift < w && dividend.Fits() && remainder.Fits() && 1 <= n <= remainder.size && n <= dividend.size
    requires remainder.data != dividend.data && IsWords(Base(w), dividend.Words())
    requires forall k :: n <= k < remainder.size && k < dividend.size ==> dividend.Words()[k] == 0
    requires Val(Base(w), dividend.Words()[..n]) == Pow2(shift) * r
    modifies remainder.data
    ensures HoldsLow(w, remainder.Words(), dividend.size, r)
    ensures Restored(w, old(remainder.Words()), remainder.Words(), dividend.size, r)
    ensures OnlyWithin(remainder)
  {
    hide Val, Pow, Pow2, Low, Shl, Shr;
    ghost var b, before := Base(w), remainder.Words();
    // trim takes no more words than there are
    var c := Min(remainder.size, dividend.size);
    var low, target := Span(dividend.data, dividend.start, c, false), Span(remainder.data, remainder.start, c, false);
    PrefixWords(dividend, c);
    assert low.Words()[..n] == dividend.Words()[..n];
    ValTrim(b, low.Words(), n);
    assert shift < c * w by { MulLe(1, c, w); }
    PartsUnique(Val(b, low.Words()), shift, 0, r);
    ShiftRight(w, low, shift, target);
    ghost var after := remainder.Words();
    PrefixWords(remainder, c);
    assert forall k :: c <= k < |after| ==> after[k] == before[k];
    WordsAbove(b, after, c);
  }

  /**
   Dividing a storage of two words by a storage of four: the top word of the remainder is
   not written, so what it held makes the remainder larger than the divisor.
   */
  method StaleRemainderWord(w: nat) returns (remainder: seq<nat>)
    requires w >= 1
    ensures |remainder| == 4 && Val(Base(w), remainder) > Val(Base(w), [0, 1])
  {
    hide Val, Pow, Pow2, Restored;
    BaseAtLeastTwo(w);
    var dividend, divisor := new nat[][1, 1, 0], new nat[][0, 1, 0, 0];
    var quotient, rest := new nat[2], new nat[][0, 0, 0, 1];
    var r := Span(rest, 0, 4, false);
    ghost var before := r.Words();
    ghost var value := DivModInternal(w, Span(dividend, 0, 3, false), Span(divisor, 0, 4, false),
                                      Span(quotient, 0, 2, false),
                                      r, 2, 2, true);
    remainder := r.Words();
    KeptTopWord(w, before, remainder, value);
  }

  lemma KeptTopWord(w: nat, before: seq<nat>, after: seq<nat>, r: nat)
    requires Base(w) >= 2 && before == [0, 0, 0, 1] && |after| == 4 && after[3..] == before[3..]
    ensures |after| == 4 && Val(Base(w), after) > Val(Base(w), [0, 1])
  {
    var b := Base(w);
    assert after[3] == after[3..][0] == before[3..][0];
    ValPrefix(b, after, 3);
    assert after[..4] == after;
    Val2(b, [0, 1]);
    assert Pow(b, 3) == b * Pow(b, 2) && Pow(b, 2) == b * b;
    MulLt(1, b, b);
    MulLe(1, b, Pow(b, 2));
  }

  /** The quotient words above the computed digits are cleared. */
  method ZeroAbove(span: Span, from: nat)
    requires span.Fits() && from <= span.size
    modifies span.data
    ensures span.Words()[..from] == old(span.Words()[..from])
    ensures forall k :: from <= k < span.size ==> span.Words()[k] == 0
    ensures OnlyWithin(span)
  {
    for i := from to span.size
      invariant span.Words()[..from] == old(span.Words()[..from])
      invariant forall k :: from <= k < i ==> span.Words()[k] == 0
      invariant OnlyWithin(span)
    {
      span.data[span.start + i] := 0;
    }
  }

  lemma AllFound(b: nat, u: seq<nat>, digits: seq<nat>, v: int, n: nat, total: int)
    requires Accounted(b, u, n, digits, v, n, total)
    ensures v * Val(b, digits) + Val(b, u[..n]) == total
  {
  }

  /** Words that were zero above the dividend are zero above the remainder. */
  lemma RestZero(u0: seq<nat>, u1: seq<nat>, u2: seq<nat>, m: nat, n: nat, size: nat)
    requires n <= m < |u0| == |u1| == |u2| && size <= |u0|
    requires forall k :: m <= k < size ==> u0[k] == 0
    requires forall k :: m < k < |u0| && u0[k] == 0 && u0[k - 1] == 0 ==> u1[k] == 0
    requires forall k :: n <= k <= m ==> u2[k] == 0
    requires u2[m + 1..] == u1[m + 1..]
    ensures forall k :: n <= k < size ==> u2[k] == 0
  {
    forall k | m < k < size ensures u2[k] == 0 {
      assert u0[k] == 0 && u0[k - 1] == 0;
      assert u2[k] == u2[m + 1..][k - m - 1] == u1[m + 1..][k - m - 1] == u1[k];
    }
  }
}
