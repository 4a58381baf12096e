/**
 shift_left and shift_right of AK/BigIntBase.h: in-place word loops that shift the
 stored number as a whole.
 */
module Shifts {
  import opened Words
  import opened Bits
  import opened Storage

  /** The word a left shift stores: the low bits of `x` moved up, the high bits of `below` moved in. */
  function LeftWord(w: nat, x: nat, below: nat, rem: nat): nat
    requires rem <= w
  {
    BitOr(Low(Shl(x, rem), w), Shr(below, w - rem))
  }

  /** The word a right shift stores. */
  function RightWord(w: nat, x: nat, above: nat, rem: nat): nat
    requires rem <= w
  {
    BitOr(Shr(x, rem), Low(Shl(above, w - rem), w))
  }

  function LeftAt(w: nat, s: seq<nat>, offset: nat, rem: nat, i: nat): nat
    requires i < |s| && rem < w
  {
    if i < offset then 0
    else LeftWord(w, s[i - offset], if i == offset then 0 else s[i - offset - 1], rem)
  }

  function RightAt(w: nat, s: seq<nat>, offset: nat, rem: nat, i: nat): nat
    requires i < |s| && rem < w
  {
    if i + offset >= |s| then 0
    else RightWord(w, s[i + offset], if i + offset + 1 == |s| then 0 else s[i + offset + 1], rem)
  }

  /** What a left shift by `offset` words and `rem` bits stores. */
  function ShiftedLeft(w: nat, s: seq<nat>, offset: nat, rem: nat): (t: seq<nat>)
    requires offset < |s| && rem < w
    ensures |t| == |s| && forall i :: 0 <= i < |s| ==> t[i] == LeftAt(w, s, offset, rem, i)
  {
    seq(|s|, i requires 0 <= i < |s| => LeftAt(w, s, offset, rem, i))
  }

  /** What a right shift by `offset` words and `rem` bits stores. */
  function ShiftedRight(w: nat, s: seq<nat>, offset: nat, rem: nat): (t: seq<nat>)
    requires offset < |s| && rem < w
    ensures |t| == |s| && forall i :: 0 <= i < |s| ==> t[i] == RightAt(w, s, offset, rem, i)
  {
    seq(|s|, i requires 0 <= i < |s| => RightAt(w, s, offset, rem, i))
  }

  /** Where the bits of one shifted word go. */
  lemma ShiftSplit(w: nat, x: nat, rem: nat)
    requires rem <= w && x < Base(w)
    ensures x * Pow2(rem) == Shr(x, w - rem) * Base(w) + Low(Shl(x, rem), w)
    ensures Low(Shl(x, rem), w) == Pow2(rem) * Low(x, w - rem)
    ensures Shr(x, w - rem) < Pow2(rem)
  {
    hide Pow2, Shl, Shr, Low;
    var p, q, hi, lo := Pow2(rem), Pow2(w - rem), Shr(x, w - rem), Low(x, w - rem);
    Pow2Add(rem, w - rem);
    Parts(x, w - rem);
    ShlIsProduct(x, rem);
    assert p * x == p * lo + (p * q) * hi by { MulDistrib(p, lo, q * hi); MulAssoc(p, q, hi); }
    assert p * lo < p * q by { MulLt(lo, q, p); }
    PartsUnique(p * x, w, p * lo, hi);
    if hi >= p { MulLe(p, hi, q); }
  }

  lemma LeftWordValue(w: nat, x: nat, below: nat, rem: nat)
    requires rem <= w && x < Base(w) && below < Base(w)
    ensures LeftWord(w, x, below, rem) == Low(Shl(x, rem), w) + Shr(below, w - rem) < Base(w)
  {
    hide Pow2, Shl, Shr, Low, BitOr;
    var p, q, lo := Pow2(rem), Pow2(w - rem), Low(x, w - rem);
    ShiftSplit(w, x, rem);
    ShiftSplit(w, below, rem);
    BitOrDisjoint(lo, Shr(below, w - rem), rem);
    Pow2Add(rem, w - rem);
    PackBound(lo, q, p);
  }

  lemma PackBound(lo: int, q: int, p: int)
    requires lo < q && p >= 0
    ensures p * lo + p <= p * q
  {
    MulLe(lo + 1, q, p);
    assert (lo + 1) * p == p * lo + p;
  }

  lemma RightWordValue(w: nat, x: nat, above: nat, rem: nat)
    requires rem <= w && x < Base(w) && above < Base(w)
    ensures RightWord(w, x, above, rem) == Shr(x, rem) + Pow2(w - rem) * Low(above, rem) < Base(w)
  {
    LeftWordValue(w, above, x, w - rem);
    ShiftSplit(w, above, w - rem);
    BitOrComm(Shr(x, rem), Low(Shl(above, w - rem), w));
  }

  lemma {:induction false} PowOfBase(w: nat, n: nat)
    ensures Pow(Base(w), n) == Pow2(n * w)
  {
    if n > 0 {
      PowOfBase(w, n - 1);
      assert (n - 1) * w + w == n * w;
      Pow2Add(w, (n - 1) * w);
    }
  }

  // ----- left -----

  /** Bits pushed out of the first `k` words by a left shift. */
  function PushedOut(w: nat, s: seq<nat>, rem: nat, k: nat): nat
    requires k <= |s| && rem <= w
  {
    if k == 0 then 0 else Shr(s[k - 1], w - rem)
  }

  lemma {:induction false} LeftPrefix(w: nat, s: seq<nat>, rem: nat, t: seq<nat>)
    requires rem < w && IsWords(Base(w), s) && |t| <= |s|
    requires forall i :: 0 <= i < |t| ==> t[i] == LeftAt(w, s, 0, rem, i)
    ensures IsWords(Base(w), t)
    ensures Val(Base(w), t) + PushedOut(w, s, rem, |t|) * Pow(Base(w), |t|) == Val(Base(w), s[..|t|]) * Pow2(rem)
  {
    hide Pow2, LeftWord, Low, Shl, Shr;
    if t != [] {
      var k, b := |t| - 1, Base(w);
      var below := if k == 0 then 0 else s[k - 1];
      var cin, cout := Shr(below, w - rem), Shr(s[k], w - rem);
      LeftPrefix(w, s, rem, t[..k]);
      LeftWordValue(w, s[k], below, rem);
      ShiftSplit(w, s[k], rem);
      if k == 0 { PartsUnique(0, w - rem, 0, 0); }
      assert PushedOut(w, s, rem, k) == cin;
      ValPrefix(b, s, k);
      LeftArith(Val(b, s[..k]), Val(b, t[..k]), s[k], t[k], cin, cout, b, Pow(b, k), Pow2(rem));
    }
  }

  lemma LeftArith(vs: int, vt: int, x: int, y: int, cin: int, cout: int, b: int, p: int, f: int)
    requires vt + cin * p == vs * f
    requires x * f == cout * b + (y - cin)
    ensures vt + y * p + cout * (b * p) == (vs + x * p) * f
  {
    assert (x * f) * p == cout * (b * p) + y * p - cin * p by {
      assert (cout * b + (y - cin)) * p == (cout * b) * p + y * p - cin * p;
      MulAssoc(cout, b, p);
    }
    assert (x * p) * f == (x * f) * p;
    assert (vs + x * p) * f == vs * f + (x * p) * f;
  }

  lemma LowOfShl(v: nat, k: nat, n: nat, lo: nat, hi: nat)
    requires lo < Pow2(n) && v * Pow2(k) == lo + Pow2(n) * hi
    ensures Low(Shl(v, k), n) == lo
  {
    ShlIsProduct(v, k);
    PartsUnique(v * Pow2(k), n, lo, hi);
  }

  lemma ShiftedLeftWords(w: nat, s: seq<nat>, offset: nat, rem: nat)
    requires offset < |s| && rem < w && IsWords(Base(w), s)
    ensures var t, b, m := ShiftedLeft(w, s, offset, rem), Base(w), |s| - offset;
            && IsWords(b, t)
            && Val(b, t) == Pow(b, offset) * Val(b, t[offset..])
            && Val(b, t[offset..]) + PushedOut(w, s, rem, m) * Pow(b, m) == Val(b, s[..m]) * Pow2(rem)
  {
    hide Val, Pow, Pow2, LeftWord, Low, Shl, Shr, PushedOut;
    var b, m, t := Base(w), |s| - offset, ShiftedLeft(w, s, offset, rem);
    var u := t[offset..];
    forall i | 0 <= i < m ensures u[i] == LeftAt(w, s, 0, rem, i) {
      assert u[i] == t[offset + i] == LeftAt(w, s, offset, rem, offset + i);
    }
    LeftPrefix(w, s, rem, u);
    assert s[..m] == s[..|u|];
    assert t == t[..offset] + u;
    ValSplit(b, t, offset);
    ValZeros(b, t[..offset]);
  }

  /** shift_left shifts the number and drops what leaves the storage. */
  lemma ShiftedLeftValue(w: nat, s: seq<nat>, offset: nat, rem: nat)
    requires offset < |s| && rem < w && IsWords(Base(w), s)
    ensures IsWords(Base(w), ShiftedLeft(w, s, offset, rem))
    ensures Val(Base(w), ShiftedLeft(w, s, offset, rem)) == Low(Shl(Val(Base(w), s), offset * w + rem), |s| * w)
  {
    hide Val, Pow, Pow2, LeftWord, Low, Shl, Shr, PushedOut, ShiftedLeft;
    var b, m, t := Base(w), |s| - offset, ShiftedLeft(w, s, offset, rem);
    ShiftedLeftWords(w, s, offset, rem);
    var c, f, high := PushedOut(w, s, rem, m), Pow2(rem), Val(b, s[m..]);
    ValSplit(b, s, m);
    ShiftModArith(Val(b, s), Val(b, s[..m]), high, Val(b, t[offset..]), c, Pow(b, m), Pow(b, offset), f);
    PowOfBase(w, offset);
    PowOfBase(w, |s|);
    Pow2Add(offset * w, rem);
    PowAdd(b, offset, m);
    ValBound(b, t);
    LowOfShl(Val(b, s), offset * w + rem, |s| * w, Val(b, t), c + high * f);
  }

  lemma ShiftModArith(v: int, low: int, high: int, vt: int, c: int, pm: int, po: int, f: int)
    requires v == low + pm * high
    requires vt + c * pm == low * f
    ensures v * (po * f) == po * vt + (po * pm) * (c + high * f)
  {
    assert v * f == vt + pm * (c + high * f) by {
      MulAssoc(pm, high, f);
      MulDistrib(pm, c, high * f);
      assert (low + pm * high) * f == low * f + (pm * high) * f;
    }
    assert v * (po * f) == po * (v * f);
    MulDistrib(po, vt, pm * (c + high * f));
    MulAssoc(po, pm, c + high * f);
  }

  // ----- right -----

  lemma {:induction false} RightSuffix(w: nat, s: seq<nat>, rem: nat, t: seq<nat>)
    requires rem < w && IsWords(Base(w), s) && |t| == |s| && s != []
    requires forall i :: 0 <= i < |t| ==> t[i] == RightAt(w, s, 0, rem, i)
    ensures IsWords(Base(w), t)
    ensures Val(Base(w), s) == Low(s[0], rem) + Pow2(rem) * Val(Base(w), t)
  {
    hide Pow2, RightWord, Low, Shl, Shr, Val, Pow;
    var b := Base(w);
    var above := if |s| == 1 then 0 else s[1];
    RightWordValue(w, s[0], above, rem);
    assert t == [t[0]] + t[1..];
    if |s| == 1 {
      assert Low(above, rem) == 0 by { PartsUnique(0, rem, 0, 0); }
      ValZeros(b, s[1..]);
      ValZeros(b, t[1..]);
      assert Val(b, s[1..]) == Low(above, rem) + Pow2(rem) * Val(b, t[1..]);
    } else {
      forall i | 0 <= i < |t| - 1 ensures t[1..][i] == RightAt(w, s[1..], 0, rem, i) {
        assert t[1..][i] == t[i + 1] == RightAt(w, s, 0, rem, i + 1);
      }
      RightSuffix(w, s[1..], rem, t[1..]);
      assert Val(b, s[1..]) == Low(above, rem) + Pow2(rem) * Val(b, t[1..]);
    }
    ValCons(b, s);
    ValCons(b, t);
    Parts(s[0], rem);
    Pow2Add(rem, w - rem);
    RightArith(s[0], Low(s[0], rem), Shr(s[0], rem), Low(above, rem), t[0], Val(b, s[1..]), Val(b, t[1..]), b,
               Pow2(rem), Pow2(w - rem));
  }

  lemma RightArith(x: int, xlo: int, xhi: int, lo: int, y: int, vs: int, vt: int, b: int, f: int, g: int)
    requires b == f * g && x == xlo + f * xhi && y == xhi + g * lo
    requires vs == lo + f * vt
    ensures x + b * vs == xlo + f * (y + b * vt)
  {
    calc {
      f * (y + b * vt);
      f * (xhi + g * lo + b * vt);
      f * xhi + f * (g * lo) + f * (b * vt);
      { MulAssoc(f, g, lo); MulAssoc(f, b, vt); MulAssoc(b, f, vt); }
      f * xhi + b * lo + b * (f * vt);
      { MulDistrib(b, lo, f * vt); }
      f * xhi + b * vs;
    }
  }

  lemma ValCons(b: nat, s: seq<nat>)
    requires s != []
    ensures Val(b, s) == s[0] + b * Val(b, s[1..])
  {
    ValSplit(b, s, 1);
    assert s[..1] == [s[0]];
    assert Val(b, s[..1]) == s[0] by { assert s[..1][..0] == []; }
  }

  lemma ShiftedRightWords(w: nat, s: seq<nat>, offset: nat, rem: nat)
    requires offset < |s| && rem < w && IsWords(Base(w), s)
    ensures var t, b := ShiftedRight(w, s, offset, rem), Base(w);
            && IsWords(b, t)
            && Val(b, s[offset..]) == Low(s[offset], rem) + Pow2(rem) * Val(b, t)
  {
    hide Val, Pow, Pow2, RightWord, Low, Shl, Shr;
    var b, m, t := Base(w), |s| - offset, ShiftedRight(w, s, offset, rem);
    var u, v := t[..m], s[offset..];
    forall i | 0 <= i < m ensures u[i] == RightAt(w, v, 0, rem, i) {
      assert u[i] == t[i] == RightAt(w, s, offset, rem, i);
    }
    RightSuffix(w, v, rem, u);
    assert t == u + t[m..];
    ValTrim(b, t, m);
  }

  /** shift_right shifts the number down. */
  lemma ShiftedRightValue(w: nat, s: seq<nat>, offset: nat, rem: nat)
    requires offset < |s| && rem < w && IsWords(Base(w), s)
    ensures IsWords(Base(w), ShiftedRight(w, s, offset, rem))
    ensures Val(Base(w), ShiftedRight(w, s, offset, rem)) == Shr(Val(Base(w), s), offset * w + rem)
  {
    hide Val, Pow, Pow2, RightWord, Low, Shl, Shr, ShiftedRight;
    var b, t := Base(w), ShiftedRight(w, s, offset, rem);
    ShiftedRightWords(w, s, offset, rem);
    ValSplit(b, s, offset);
    ValBound(b, s[..offset]);
    var p, f, lo := Pow(b, offset), Pow2(rem), Low(s[offset], rem);
    var low := Val(b, s[..offset]) + p * lo;
    RightSplit(Val(b, s[..offset]), lo, Val(b, t), p, f);
    assert Pow2(offset * w + rem) == p * f by { PowOfBase(w, offset); Pow2Add(offset * w, rem); }
    PartsUnique(Val(b, s), offset * w + rem, low, Val(b, t));
  }

  lemma RightSplit(below: int, lo: int, vt: int, p: int, f: int)
    requires 0 <= below < p && 0 <= lo < f
    ensures below + p * (lo + f * vt) == (below + p * lo) + (p * f) * vt
    ensures below + p * lo < p * f
  {
    MulDistrib(p, lo, f * vt);
    MulAssoc(p, f, vt);
    PackBound(lo, f, p);
  }

  // ----- the loops -----

  lemma ShiftByParts(w: nat, shift: nat, size: nat)
    requires w >= 1 && shift < size * w
    ensures 0 <= shift / w < size && 0 <= shift % w < w && (shift / w) * w + shift % w == shift
  {
    var q := shift / w;
    assert shift == w * q + shift % w;
    if q >= size { MulLe(size, q, w); }
    if q < 0 { MulLe(q, -1, w); }
  }

  /** Without a bit part whole words move; at the end nothing is moved in. */
  lemma LeftBranches(w: nat, s: seq<nat>, offset: nat, rem: nat, i: nat)
    requires offset <= i < |s| && rem < w && IsWords(Base(w), s)
    ensures LeftAt(w, s, offset, rem, i)
         == if rem == 0 then s[i - offset]
            else if i > offset then LeftWord(w, s[i - offset], s[i - offset - 1], rem)
            else Low(Shl(s[0], rem), w)
  {
    var x, below := s[i - offset], if i == offset then 0 else s[i - offset - 1];
    LeftWordValue(w, x, below, rem);
    if rem == 0 {
      PartsUnique(x, w, x, 0);
      PartsUnique(below, w, below, 0);
    }
    if i == offset { PartsUnique(0, w - rem, 0, 0); }
  }

  lemma RightBranches(w: nat, s: seq<nat>, offset: nat, rem: nat, i: nat)
    requires i + offset < |s| && rem < w && IsWords(Base(w), s)
    ensures RightAt(w, s, offset, rem, i)
         == if rem == 0 then s[i + offset]
            else if i + offset + 1 < |s| then RightWord(w, s[i + offset], s[i + offset + 1], rem)
            else Shr(s[i + offset], rem)
  {
    var x, above := s[i + offset], if i + offset + 1 == |s| then 0 else s[i + offset + 1];
    RightWordValue(w, x, above, rem);
    if i + offset + 1 == |s| { PartsUnique(0, rem, 0, 0); }
  }

  /** shift_left: the storage holds the shifted number, cut to its size. */
  method ShiftLeft(w: nat, op: Span, shift: nat, result: Span)
    requires w >= 1 && op.Fits() && result.Fits() && op.size == result.size && shift < result.size * w
    requires IsWords(Base(w), op.Words())
    requires op.data != result.data || op.start <= result.start || result.start + result.size <= op.start
    modifies result.data
    ensures IsWords(Base(w), result.Words())
    ensures Val(Base(w), result.Words()) == Low(Shl(old(Val(Base(w), op.Words())), shift), result.size * w)
    ensures shift < w ==> result.Words() == ShiftedLeft(w, old(op.Words()), 0, shift)
    ensures OnlyWithin(result)
  {
    hide Val, Pow, Pow2, Low, Shl, ShiftedLeft;
    ShiftByParts(w, shift, result.size);
    ShiftedLeftValue(w, op.Words(), shift / w, shift % w);
    if shift < w { DivModUnique(shift, w, 0, shift); }
    MoveLeft(w, op, shift / w, shift % w, result);
  }

  method MoveLeft(w: nat, op: Span, offset: nat, rem: nat, result: Span)
    requires op.Fits() && result.Fits() && op.size == result.size && offset < result.size && rem < w
    requires IsWords(Base(w), op.Words())
    requires op.data != result.data || op.start <= result.start || result.start + result.size <= op.start
    modifies result.data
    ensures result.Words() == ShiftedLeft(w, old(op.Words()), offset, rem)
    ensures OnlyWithin(result)
  {
    hide Pow2, LeftWord, Low, Shl, Shr, LeftAt;
    var size := op.size;
    ghost var s := op.Words();
    for i := size downto offset
      invariant forall k :: 0 <= k < i ==> op.data[op.start + k] == s[k]
      invariant forall k :: i <= k < size ==> result.data[result.start + k] == LeftAt(w, s, offset, rem, k)
      invariant OnlyWithin(result)
    {
      var x := op.data[op.start + i - offset];
      LeftBranches(w, s, offset, rem, i);
      result.data[result.start + i] :=
        if rem == 0 then x
        else if i > offset then LeftWord(w, x, op.data[op.start + i - offset - 1], rem)
        else Low(Shl(x, rem), w);
    }
    for i := 0 to offset
      invariant forall k :: 0 <= k < i || offset <= k < size ==>
                  result.data[result.start + k] == LeftAt(w, s, offset, rem, k)
      invariant OnlyWithin(result)
    {
      MovedInZero(w, s, offset, rem, i);
      result.data[result.start + i] := 0;
    }
  }

  lemma MovedInZero(w: nat, s: seq<nat>, offset: nat, rem: nat, i: nat)
    requires i < |s| && rem < w
    ensures i < offset ==> LeftAt(w, s, offset, rem, i) == 0
    ensures i + offset >= |s| ==> RightAt(w, s, offset, rem, i) == 0
  {
  }

  /** shift_right: the storage holds the number shifted down. */
  method ShiftRight(w: nat, op: Span, shift: nat, result: Span)
    requires w >= 1 && op.Fits() && result.Fits() && op.size == result.size && shift < result.size * w
    requires IsWords(Base(w), op.Words())
    requires Overlay(op, result)
    modifies result.data
    ensures IsWords(Base(w), result.Words())
    ensures Val(Base(w), result.Words()) == Shr(old(Val(Base(w), op.Words())), shift)
    ensures OnlyWithin(result)
  {
    hide Val, Pow, Pow2, Shr, ShiftedRight;
    ShiftByParts(w, shift, result.size);
    ShiftedRightValue(w, op.Words(), shift / w, shift % w);
    MoveRight(w, op, shift / w, shift % w, result);
  }

  method MoveRight(w: nat, op: Span, offset: nat, rem: nat, result: Span)
    requires op.Fits() && result.Fits() && op.size == result.size && offset < result.size && rem < w
    requires IsWords(Base(w), op.Words())
    requires Overlay(op, result)
    modifies result.data
    ensures result.Words() == ShiftedRight(w, old(op.Words()), offset, rem)
    ensures OnlyWithin(result)
  {
    hide Pow2, RightWord, Low, Shl, Shr, RightAt;
    var size := op.size;
    ghost var s := op.Words();
    for i := 0 to size - offset
      invariant forall k :: i <= k < size ==> op.data[op.start + k] == s[k]
      invariant forall k :: 0 <= k < i ==> result.data[result.start + k] == RightAt(w, s, offset, rem, k)
      invariant OnlyWithin(result)
    {
      var x := op.data[op.start + i + offset];
      RightBranches(w, s, offset, rem, i);
      result.data[result.start + i] :=
        if rem == 0 then x
        else if i + offset + 1 < size then RightWord(w, x, op.data[op.start + i + offset + 1], rem)
        else Shr(x, rem);
    }
    for i := size - offset to size
      invariant forall k :: 0 <= k < i ==> result.data[result.start + k] == RightAt(w, s, offset, rem, k)
      invariant OnlyWithin(result)
    {
      MovedInZero(w, s, offset, rem, i);
      result.data[result.start + i] := 0;
    }
  }
}
