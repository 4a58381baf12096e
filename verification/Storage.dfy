/**
 Operations on integer storages (AK/BigIntBase.h): spans of words, two's-complement
 meaning, addition and subtraction with overflow report, and comparison.  The word
 size `w` is a parameter.
 */
module Storage {
  import opened Words
  import opened Bits

  /** A view of `size` words of an array, read as signed or unsigned. */
  datatype Span = Span(data: array<nat>, start: nat, size: nat, signed: bool) {
    predicate Fits() {
      start + size <= data.Length && (signed ==> size >= 1)
    }

    function Words(): (s: seq<nat>)
      requires Fits()
      reads data
      ensures |s| == size
    {
      data[start..start + size]
    }
  }

  lemma PrefixWords(span: Span, k: nat)
    requires span.Fits() && k <= span.size
    ensures Span(span.data, span.start, k, false).Words() == span.Words()[..k]
  {
  }

  /** Nothing outside the span has changed. */
  twostate predicate OnlyWithin(span: Span)
    reads span.data
  {
    forall k :: 0 <= k < span.data.Length && !(span.start <= k < span.start + span.size) ==>
      span.data[k] == old(span.data[k])
  }

  function Base(w: nat): nat { Pow2(w) }

  /** The top bit of the last word is set. */
  predicate IsNegative(w: nat, s: seq<nat>, signed: bool)
    requires w >= 1
  {
    signed && s != [] && s[|s| - 1] >= Pow2(w - 1)
  }

  /** Two's-complement (or plain unsigned) meaning of a storage. */
  function IntVal(w: nat, s: seq<nat>, signed: bool): int
    requires w >= 1
  {
    Val(Base(w), s) - (if IsNegative(w, s, signed) then Pow(Base(w), |s|) else 0)
  }

  /** The numbers a storage of `size` words can hold. */
  predicate Representable(w: nat, x: int, size: nat, signed: bool)
    requires w >= 1
  {
    var m := Pow(Base(w), size);
    if signed then 0 <= 2 * x + m < 2 * m else 0 <= x < m
  }

  function ExtendSign(w: nat, sign: bool): nat { if sign then Base(w) - 1 else 0 }

  /** What the word loops read: the storage continued with its sign word. */
  function Extended(w: nat, s: seq<nat>, signed: bool, size: nat): (t: seq<nat>)
    requires w >= 1 && |s| <= size
    ensures |t| == size
    ensures forall i :: 0 <= i < size ==> t[i] == if i < |s| then s[i] else ExtendSign(w, IsNegative(w, s, signed))
  {
    s + Fill(ExtendSign(w, IsNegative(w, s, signed)), size - |s|)
  }

  lemma ExtendedValue(w: nat, s: seq<nat>, signed: bool, size: nat)
    requires w >= 1 && |s| <= size && IsWords(Base(w), s)
    ensures IsWords(Base(w), Extended(w, s, signed, size))
    ensures Val(Base(w), Extended(w, s, signed, size))
         == IntVal(w, s, signed) + If(IsNegative(w, s, signed), Pow(Base(w), size))
  {
    hide Val, Pow, Pow2;
    var negative := IsNegative(w, s, signed);
    assert Extended(w, s, signed, size) == s + Fill(if negative then Base(w) - 1 else 0, size - |s|);
    FilledValue(Base(w), s, negative, size - |s|);
  }

  lemma FilledValue(b: nat, s: seq<nat>, ones: bool, n: nat)
    requires b > 0
    ensures Val(b, s + Fill(if ones then b - 1 else 0, n)) == Val(b, s) + If(ones, Pow(b, |s| + n) - Pow(b, |s|))
  {
    var f := Fill(if ones then b - 1 else 0, n);
    ValConcat(b, s, f);
    if ones {
      ValOnes(b, f);
      PowAdd(b, |s|, n);
      MulPred(Pow(b, |s|), Pow(b, n));
    } else {
      ValZeros(b, f);
    }
  }

  lemma MulPred(p: int, q: int)
    ensures p * (q - 1) == p * q - p
  {
  }

  /** Every storage holds a representable number. */
  lemma IntValRange(w: nat, s: seq<nat>, signed: bool)
    requires w >= 1 && IsWords(Base(w), s) && (signed ==> s != [])
    ensures Representable(w, IntVal(w, s, signed), |s|, signed)
  {
    hide Val, Pow;
    var b := Base(w);
    ValBound(b, s);
    if signed {
      var n, h := |s| - 1, Pow2(w - 1);
      assert s[..n + 1] == s;
      ValPrefix(b, s, n);
      ValBound(b, s[..n]);
      TopWord(Val(b, s[..n]), s[n], h, Pow(b, n));
      assert Pow(b, n + 1) == 2 * (h * Pow(b, n)) by { TopPower(w, n); }
    }
  }

  lemma TopPower(w: nat, n: nat)
    requires w >= 1
    ensures Pow(Base(w), n + 1) == 2 * (Pow2(w - 1) * Pow(Base(w), n))
  {
    MulAssoc(2, Pow2(w - 1), Pow(Base(w), n));
  }

  /** The top bit decides on which half of the range a number lies. */
  lemma TopWord(low: nat, top: nat, h: nat, p: nat)
    requires low < p && top < 2 * h && h > 0
    ensures (low + top * p < h * p) == (top < h)
  {
    if top < h {
      MulLe(top + 1, h, p);
      assert (top + 1) * p == top * p + p;
    } else {
      MulLe(h, top, p);
    }
  }

  /** The report of an addition: it is zero exactly when the true sum fits. */
  lemma OverflowReport(w: nat, total: int, c: seq<nat>, signed: bool, r: int)
    requires w >= 1 && IsWords(Base(w), c) && (signed ==> c != [])
    requires total == IntVal(w, c, signed) + r * Pow(Base(w), |c|)
    ensures r == 0 <==> Representable(w, total, |c|, signed)
  {
    IntValRange(w, c, signed);
    var m := Pow(Base(w), |c|);
    PowPos(Base(w), |c|);
    if r > 0 { MulLe(1, r, m); }
    if r < 0 { MulLe(r, -1, m); }
  }

  /** Portable add_words: sum, and carry out. */
  function AddWord(b: nat, x: nat, y: nat, carry: bool): (r: (nat, bool))
    requires x < b && y < b
    ensures r.0 < b
    ensures r.0 + (if r.1 then b else 0) == x + y + (if carry then 1 else 0)
  {
    var output := if x + y >= b then x + y - b else x + y;
    var ncarry := x + y >= b;
    if carry then
      var bumped := if output + 1 == b then 0 else output + 1;
      (bumped, ncarry || bumped == 0)
    else
      (output, ncarry)
  }

  /** Portable sub_words: difference, and borrow out. */
  function SubWord(b: nat, x: nat, y: nat, carry: bool): (r: (nat, bool))
    requires x < b && y < b
    ensures r.0 < b
    ensures r.0 - (if r.1 then b else 0) == x - y - (if carry then 1 else 0)
  {
    var output := if x < y then x - y + b else x - y;
    var ncarry := x < y;
    if carry then
      (if output == 0 then b - 1 else output - 1, ncarry || output == 0)
    else
      (output, ncarry)
  }

  /** In-place use is fine when reads never trail the writes. */
  predicate Overlay(op: Span, result: Span) {
    op.data != result.data || op.start >= result.start || op.start + op.size <= result.start
  }

  function If(c: bool, x: int): int { if c then x else 0 }

  function Negate(c: bool, x: int): int { if c then -x else x }

  lemma CarryStep(x: int, y: int, out: int, b: int, p: int, c: bool, c': bool, subtract: bool)
    requires out + Negate(subtract, If(c', b)) == x + Negate(subtract, y + If(c, 1))
    ensures out * p + Negate(subtract, If(c', b * p)) == x * p + Negate(subtract, y * p + If(c, p))
  {
    assert (out + Negate(subtract, If(c', b))) * p == out * p + Negate(subtract, If(c', b * p));
    assert (x + Negate(subtract, y + If(c, 1))) * p == x * p + Negate(subtract, y * p + If(c, p));
  }

  /** The relation the carry loop keeps between prefixes. */
  predicate Carried(b: nat, xs: seq<nat>, ys: seq<nat>, rs: seq<nat>, cin: bool, c: bool, subtract: bool) {
    Val(b, xs) + Negate(subtract, Val(b, ys) + If(cin, 1)) == Val(b, rs) + Negate(subtract, If(c, Pow(b, |rs|)))
  }

  lemma CarryStart(b: nat, c: bool, subtract: bool)
    ensures Carried(b, [], [], [], c, c, subtract)
  {
  }

  lemma CarryRound(b: nat, xs: seq<nat>, ys: seq<nat>, rs: seq<nat>, i: nat, out: nat, cin: bool, c: bool, c': bool,
                   subtract: bool)
    requires i < |xs| && i < |ys| && |rs| == i
    requires Carried(b, xs[..i], ys[..i], rs, cin, c, subtract)
    requires out + Negate(subtract, If(c', b)) == xs[i] + Negate(subtract, ys[i] + If(c, 1))
    ensures Carried(b, xs[..i + 1], ys[..i + 1], rs + [out], cin, c', subtract)
  {
    ValPrefix(b, xs, i);
    ValPrefix(b, ys, i);
    ValPush(b, rs, out);
    CarryStep(xs[i], ys[i], out, b, Pow(b, i), c, c', subtract);
  }

  /** The word loop shared by addition and subtraction, on sign-extended operands. */
  method CarryLoop(b: nat, subtract: bool, op1: Span, fill1: nat, op2: Span, fill2: nat, result: Span, carryIn: bool,
                   ghost xs: seq<nat>, ghost ys: seq<nat>) returns (carry: bool)
    requires op1.Fits() && op2.Fits() && result.Fits()
    requires op1.size <= result.size && op2.size <= result.size
    requires Overlay(op1, result) && Overlay(op2, result)
    requires |xs| == |ys| == result.size && IsWords(b, xs) && IsWords(b, ys)
    requires forall k :: 0 <= k < result.size ==> xs[k] == if k < op1.size then op1.data[op1.start + k] else fill1
    requires forall k :: 0 <= k < result.size ==> ys[k] == if k < op2.size then op2.data[op2.start + k] else fill2
    modifies result.data
    ensures IsWords(b, result.Words())
    ensures Carried(b, xs, ys, result.Words(), carryIn, carry, subtract)
    ensures OnlyWithin(result)
  {
    hide Val, Pow, Pow2, AddWord, SubWord;
    carry := carryIn;
    assert Carried(b, [], [], [], carryIn, carry, subtract) by { CarryStart(b, carry, subtract); }
    assert xs[..0] == [] && ys[..0] == [] && result.data[result.start..result.start + 0] == [];
    for i := 0 to result.size
      invariant IsWords(b, result.data[result.start..result.start + i])
      invariant Carried(b, xs[..i], ys[..i], result.data[result.start..result.start + i], carryIn, carry, subtract)
      invariant forall k :: i <= k < op1.size ==> op1.data[op1.start + k] == xs[k]
      invariant forall k :: i <= k < op2.size ==> op2.data[op2.start + k] == ys[k]
      invariant OnlyWithin(result)
    {
      var word1 := if i < op1.size then op1.data[op1.start + i] else fill1;
      var word2 := if i < op2.size then op2.data[op2.start + i] else fill2;
      assert word1 == xs[i] && word2 == ys[i];
      ghost var rs := result.data[result.start..result.start + i];
      var out := if subtract then SubWord(b, word1, word2, carry) else AddWord(b, word1, word2, carry);
      result.data[result.start + i] := out.0;
      CarryRound(b, xs, ys, rs, i, out.0, carryIn, carry, out.1, subtract);
      assert result.data[result.start..result.start + i + 1] == rs + [out.0];
      carry := out.1;
    }
    assert xs[..result.size] == xs && ys[..result.size] == ys;
  }

  /** a + b * (-1)^subtract = c + r * 2^(size * w); r reports overflow. */
  method Add(w: nat, subtract: bool, op1: Span, op2: Span, result: Span, carryIn: bool) returns (r: int)
    requires w >= 1 && op1.Fits() && op2.Fits() && result.Fits()
    requires IsWords(Base(w), op1.Words()) && IsWords(Base(w), op2.Words())
    requires op1.size <= result.size && op2.size <= result.size
    requires Overlay(op1, result) && Overlay(op2, result)
    modifies result.data
    ensures IsWords(Base(w), result.Words())
    ensures old(IntVal(w, op1.Words(), op1.signed))
          + Negate(subtract, old(IntVal(w, op2.Words(), op2.signed)) + If(carryIn, 1))
         == IntVal(w, result.Words(), result.signed) + r * Pow(Base(w), result.size)
    ensures r == 0 <==> Representable(w, old(IntVal(w, op1.Words(), op1.signed))
                                         + Negate(subtract, old(IntVal(w, op2.Words(), op2.signed)) + If(carryIn, 1)),
                                     result.size, result.signed)
    ensures OnlyWithin(result)
  {
    hide Val, Pow, Pow2, Representable;
    var sign1 := IsNegative(w, op1.Words(), op1.signed);
    var sign2 := IsNegative(w, op2.Words(), op2.signed);
    ghost var xs := Extended(w, op1.Words(), op1.signed, result.size);
    ghost var ys := Extended(w, op2.Words(), op2.signed, result.size);
    ExtendedValue(w, op1.Words(), op1.signed, result.size);
    ExtendedValue(w, op2.Words(), op2.signed, result.size);
    var carry := CarryLoop(Base(w), subtract, op1, ExtendSign(w, sign1), op2, ExtendSign(w, sign2),
                           result, carryIn, xs, ys);
    var negative := IsNegative(w, result.Words(), result.signed);
    r := -If(sign1, 1) - Negate(subtract, If(sign2, 1)) + Negate(subtract, If(carry, 1)) + If(negative, 1);
    Report(Pow(Base(w), result.size), sign1, sign2, carry, negative, subtract, r);
    OverflowReport(w, IntVal(w, result.Words(), result.signed) + r * Pow(Base(w), result.size),
                   result.Words(), result.signed, r);
  }

  /** negate: the two's complement, in place or not; the result tells whether the operand was nonzero. */
  method NegateWords(w: nat, op: Span, result: Span) returns (nonzero: bool)
    requires w >= 1 && op.Fits() && result.Fits() && op.size == result.size && Overlay(op, result)
    requires IsWords(Base(w), op.Words())
    modifies result.data
    ensures IsWords(Base(w), result.Words()) && OnlyWithin(result)
    ensures nonzero <==> old(Val(Base(w), op.Words())) != 0
    ensures old(Val(Base(w), op.Words())) + Val(Base(w), result.Words()) == If(nonzero, Pow(Base(w), op.size))
  {
    hide Val, Pow, Pow2;
    var b := Base(w);
    ghost var zeros := Fill(0, op.size);
    ValZeros(b, zeros);
    nonzero := CarryLoop(b, true, Span(op.data, op.start, 0, false), 0, op, 0, result, false, zeros, op.Words());
    ValBound(b, result.Words());
  }

  lemma Report(m: int, sign1: bool, sign2: bool, carry: bool, negative: bool, subtract: bool, r: int)
    requires r == -If(sign1, 1) - Negate(subtract, If(sign2, 1)) + Negate(subtract, If(carry, 1)) + If(negative, 1)
    ensures r * m == -If(sign1, m) - Negate(subtract, If(sign2, m)) + Negate(subtract, If(carry, m)) + If(negative, m)
  {
  }

  /** Sign words above `n` carry no information. */
  lemma SignWordsAbove(w: nat, s: seq<nat>, signed: bool, n: nat)
    requires w >= 1 && n <= |s| && IsWords(Base(w), s)
    requires forall k :: n <= k < |s| ==> s[k] == ExtendSign(w, IsNegative(w, s, signed))
    ensures IntVal(w, s, signed) == Val(Base(w), s[..n]) - If(IsNegative(w, s, signed), Pow(Base(w), n))
  {
    hide Val, Pow, Pow2;
    var negative := IsNegative(w, s, signed);
    assert s == s[..n] + Fill(if negative then Base(w) - 1 else 0, |s| - n);
    FilledValue(Base(w), s[..n], negative, |s| - n);
  }

  /** A word above `n` that is not a sign word puts the number outside the range of `n` words. */
  lemma SignificantWordAbove(w: nat, s: seq<nat>, signed: bool, n: nat, k: nat)
    requires w >= 1 && n <= k < |s| && IsWords(Base(w), s)
    requires s[k] != ExtendSign(w, IsNegative(w, s, signed))
    ensures if IsNegative(w, s, signed) then IntVal(w, s, signed) + Pow(Base(w), n) < 0
            else IntVal(w, s, signed) >= Pow(Base(w), n)
  {
    hide Val, Pow, Pow2;
    var b, p, high := Base(w), Pow(Base(w), n), s[n..];
    PowPos(b, n);
    ValSplit(b, s, n);
    if IsNegative(w, s, signed) {
      ValNotOnes(b, high, k - n);
      ValBound(b, s[..n]);
      PowAdd(b, n, |high|);
      BelowTop(Val(b, s[..n]), Val(b, high), p, Pow(b, |high|));
    } else {
      ValNonzero(b, high, k - n);
      MulLe(1, Val(b, high), p);
    }
  }

  lemma BelowTop(lo: int, hi: int, p: int, q: int)
    requires 0 <= lo < p && hi + 2 <= q
    ensures lo + p * hi - p * q + p < 0
  {
    MulLe(hi, q - 2, p);
    MulDistrib(p, q, -2);
  }

  /** Is some word of `op` at or above index `from` different from `fill`? */
  method DiffersAbove(op: Span, from: nat, fill: nat) returns (differs: bool)
    requires op.Fits() && from <= op.size
    ensures differs <==> exists k :: from <= k < op.size && op.Words()[k] != fill
  {
    differs := false;
    for i := op.size downto from
      invariant differs <==> exists k :: i <= k < op.size && op.Words()[k] != fill
    {
      if op.data[op.start + i] != fill {
        differs := true;
        assert op.Words()[i] != fill;
      }
    }
  }

  /** compare has the sign of the difference, across sizes and signedness. */
  method Compare(w: nat, op1: Span, op2: Span, isForInequality: bool) returns (r: int)
    requires w >= 1 && op1.Fits() && op2.Fits()
    requires IsWords(Base(w), op1.Words()) && IsWords(Base(w), op2.Words())
    ensures -1 <= r <= 1
    ensures var a, b := IntVal(w, op1.Words(), op1.signed), IntVal(w, op2.Words(), op2.signed);
            (r == 0 <==> a == b) && (!isForInequality ==> (r < 0 <==> a < b))
  {
    hide Val, Pow, Pow2;
    var sign1 := IsNegative(w, op1.Words(), op1.signed);
    var sign2 := IsNegative(w, op2.Words(), op2.signed);
    ValBound(Base(w), op1.Words());
    ValBound(Base(w), op2.Words());
    if sign1 != sign2 {
      return if sign1 then -1 else 1;
    }
    var fill := ExtendSign(w, sign1);
    var differs := false;
    if op1.size > op2.size {
      differs := DiffersAbove(op1, op2.size, fill);
    } else if op1.size < op2.size {
      differs := DiffersAbove(op2, op1.size, fill);
    }
    if differs {
      r := if (op1.size > op2.size) != sign1 then 1 else -1;
      if op1.size > op2.size {
        var k :| op2.size <= k < op1.size && op1.Words()[k] != fill;
        SignificantWordAbove(w, op1.Words(), op1.signed, op2.size, k);
      } else {
        var k :| op1.size <= k < op2.size && op2.Words()[k] != fill;
        SignificantWordAbove(w, op2.Words(), op2.signed, op1.size, k);
      }
      return;
    }
    var n := if op1.size > op2.size then op2.size else op1.size;
    SignWordsAbove(w, op1.Words(), op1.signed, n);
    SignWordsAbove(w, op2.Words(), op2.signed, n);
    r := CompareLow(Base(w), op1, op2, n, isForInequality);
  }

  method CompareLow(b: nat, op1: Span, op2: Span, n: nat, isForInequality: bool) returns (r: int)
    requires op1.Fits() && op2.Fits() && n <= op1.size && n <= op2.size
    requires IsWords(b, op1.Words()) && IsWords(b, op2.Words())
    ensures -1 <= r <= 1
    ensures r == 0 <==> Val(b, op1.Words()[..n]) == Val(b, op2.Words()[..n])
    ensures !isForInequality ==> (r < 0 <==> Val(b, op1.Words()[..n]) < Val(b, op2.Words()[..n]))
  {
    hide Val, Pow;
    ghost var xs, ys := op1.Words()[..n], op2.Words()[..n];
    for i := n downto 0
      invariant xs[i..] == ys[i..]
    {
      var word1, word2 := op1.data[op1.start + i], op2.data[op2.start + i];
      assert word1 == xs[i] && word2 == ys[i];
      if word1 < word2 { ValCompare(b, xs, ys, i); }
      if word1 > word2 { ValCompare(b, ys, xs, i); }
      if isForInequality {
        if word1 != word2 { return 1; }
      } else {
        if word1 > word2 { return 1; }
        if word1 < word2 { return -1; }
      }
    }
    assert xs[0..] == xs && ys[0..] == ys;
    return 0;
  }
}
