/**
 Schoolbook multiplication of AK/BigIntBase.h (baseline_mul): column by column with
 a double-word carry, cut to the size of the result, on the magnitudes of signed operands.
 */
module Multiplication {
  import opened Words
  import opened Bits
  import opened Storage
  import opened Shifts
  import opened Division

  function Coef(y: seq<nat>, k: int): nat {
    if 0 <= k < |y| then y[k] else 0
  }

  /** Column `i` of the product of `x` and `y`. */
  function Column(x: seq<nat>, y: seq<nat>, i: int): nat {
    if x == [] then 0
    else Column(x[..|x| - 1], y, i) + x[|x| - 1] * Coef(y, i - (|x| - 1))
  }

  /** The first `i` columns put in place. */
  function Columns(b: nat, x: seq<nat>, y: seq<nat>, i: nat): nat {
    if i == 0 then 0 else Columns(b, x, y, i - 1) + Column(x, y, i - 1) * Pow(b, i - 1)
  }

  /** What one more word `d` at position `s` contributes to the first `i` columns, without the factor d. */
  function Shifted(b: nat, y: seq<nat>, s: nat, i: nat): nat {
    if i == 0 then 0 else Shifted(b, y, s, i - 1) + Coef(y, i - 1 - s) * Pow(b, i - 1)
  }

  lemma ColumnPush(x: seq<nat>, d: nat, y: seq<nat>, i: int)
    ensures Column(x + [d], y, i) == Column(x, y, i) + d * Coef(y, i - |x|)
  {
    assert (x + [d])[..|x|] == x;
  }

  lemma {:induction false} ColumnsPush(b: nat, x: seq<nat>, d: nat, y: seq<nat>, i: nat)
    ensures Columns(b, x + [d], y, i) == Columns(b, x, y, i) + d * Shifted(b, y, |x|, i)
  {
    if i > 0 {
      ColumnsPush(b, x, d, y, i - 1);
      ColumnPush(x, d, y, i - 1);
      var p, c := Pow(b, i - 1), Coef(y, i - 1 - |x|);
      assert (Column(x, y, i - 1) + d * c) * p == Column(x, y, i - 1) * p + (d * c) * p;
      MulAssoc(d, c, p);
      MulDistrib(d, Shifted(b, y, |x|, i - 1), c * p);
    }
  }

  /** Shifted words make up the shifted number, up to whole multiples of b^i. */
  lemma {:induction false} ShiftedSum(b: nat, y: seq<nat>, s: nat, i: nat)
    ensures Shifted(b, y, s, i) == if i <= s then 0 else Pow(b, s) * Val(b, y[..if i - s < |y| then i - s else |y|])
  {
    if i > 0 {
      ShiftedSum(b, y, s, i - 1);
      var k := i - 1 - s;
      if 0 <= k < |y| {
        ValPrefix(b, y, k);
        PowAdd(b, s, k);
        MulDistrib(Pow(b, s), Val(b, y[..k]), y[k] * Pow(b, k));
        MulSwap(Pow(b, s), y[k], Pow(b, k));
      } else if k >= |y| {
        assert y[..|y|] == y;
      }
    }
  }

  lemma ShiftedRest(b: nat, y: seq<nat>, s: nat, i: nat) returns (c: nat)
    ensures Pow(b, s) * Val(b, y) == Shifted(b, y, s, i) + c * Pow(b, i)
  {
    hide Val, Pow, Shifted;
    ShiftedSum(b, y, s, i);
    if i <= s {
      c := Pow(b, s - i) * Val(b, y);
      PowAdd(b, i, s - i);
      MulAssoc(Pow(b, i), Pow(b, s - i), Val(b, y));
    } else if i - s < |y| {
      c := Val(b, y[i - s..]);
      ValSplit(b, y, i - s);
      PowAdd(b, s, i - s);
      MulDistrib(Pow(b, s), Val(b, y[..i - s]), Pow(b, i - s) * c);
      MulAssoc(Pow(b, s), Pow(b, i - s), c);
    } else {
      c := 0;
      assert y[..|y|] == y;
    }
  }

  /** The columns below `i` are the product up to whole multiples of b^i. */
  lemma {:induction false} ColumnsAreProduct(b: nat, x: seq<nat>, y: seq<nat>, i: nat) returns (c: nat)
    ensures Val(b, x) * Val(b, y) == Columns(b, x, y, i) + c * Pow(b, i)
  {
    if x == [] {
      c := 0;
      ColumnsOfNothing(b, y, i);
    } else {
      var n := |x| - 1;
      var x', d := x[..n], x[n];
      assert x == x' + [d];
      var c1 := ColumnsAreProduct(b, x', y, i);
      var c2 := ShiftedRest(b, y, n, i);
      ColumnsPush(b, x', d, y, i);
      c := c1 + d * c2;
      ProductArith(Val(b, x'), d, Pow(b, n), Val(b, y), Columns(b, x', y, i), Shifted(b, y, n, i), c1, c2, Pow(b, i));
    }
  }

  lemma ProductArith(vx: int, d: int, ps: int, vy: int, cols: int, sh: int, c1: int, c2: int, pi: int)
    requires vx * vy == cols + c1 * pi && ps * vy == sh + c2 * pi
    ensures (vx + d * ps) * vy == (cols + d * sh) + (c1 + d * c2) * pi
  {
    assert (vx + d * ps) * vy == vx * vy + (d * ps) * vy;
    MulAssoc(d, ps, vy);
    MulDistrib(d, sh, c2 * pi);
    MulAssoc(d, c2, pi);
    assert (c1 + d * c2) * pi == c1 * pi + (d * c2) * pi;
  }

  lemma {:induction false} ColumnsOfNothing(b: nat, y: seq<nat>, i: nat)
    ensures Columns(b, [], y, i) == 0
  {
    if i > 0 { ColumnsOfNothing(b, y, i - 1); }
  }

  /** Words too far from column `i` contribute nothing. */
  lemma {:induction false} ColumnLow(x: seq<nat>, y: seq<nat>, i: int, j: nat)
    requires j <= |x| && (i < |y| ==> j == 0) && (i >= |y| ==> j <= i - |y| + 1)
    ensures Column(x[..j], y, i) == 0
  {
    if j > 0 {
      assert x[..j][..j - 1] == x[..j - 1];
      ColumnLow(x, y, i, j - 1);
    }
  }

  lemma {:induction false} ColumnHigh(x: seq<nat>, y: seq<nat>, i: nat, j: nat)
    requires j <= |x| && (j < |x| ==> j > i)
    ensures Column(x[..j], y, i) == Column(x, y, i)
    decreases |x| - j
  {
    if j == |x| {
      assert x[..j] == x;
    } else {
      ColumnHigh(x, y, i, j + 1);
      assert x[..j + 1][..j] == x[..j];
    }
  }

  lemma ColumnStep(x: seq<nat>, y: seq<nat>, i: nat, j: nat)
    requires j < |x| && 0 <= i - j < |y|
    ensures Column(x[..j + 1], y, i) == Column(x[..j], y, i) + x[j] * y[i - j]
  {
    assert x[..j + 1] == x[..j] + [x[j]];
    ColumnPush(x[..j], x[j], y, i);
  }

  /** One accumulation: the word and the carry together grow by the product, and the carry keeps its bound. */
  lemma Accumulate(b: int, r: int, carry: int, lo: int, hi: int, out: int, over: bool, x: int)
    requires x == lo + b * hi && out + If(over, b) == r + lo
    ensures out + b * (carry + hi + If(over, 1)) == r + b * carry + x
  {
    assert b * (carry + hi + If(over, 1)) == b * carry + b * hi + If(over, b);
  }

  /** Column totals stay within what a double-word carry can hold. */
  lemma CarryBound(b: int, r: int, carry: int, total: int, n: int)
    requires b >= 2 && r >= 0 && r + b * carry == total && total <= n * ((b - 1) * b) && 0 <= n <= b
    ensures carry <= n * (b - 1) && carry < b * b
  {
    MulAssoc(n, b - 1, b);
    if carry > n * (b - 1) { MulLe(n * (b - 1) + 1, carry, b); }
    MulLe(n, b, b - 1);
    assert b * (b - 1) < b * b;
  }

  /** A column has at most as many products as the shorter operand has words. */
  lemma {:induction false} ColumnBound(b: nat, x: seq<nat>, y: seq<nat>, i: int)
    requires IsWords(b, x) && IsWords(b, y) && b >= 1
    ensures Column(x, y, i) <= |x| * ((b - 1) * (b - 1))
  {
    if x != [] {
      var n, c := |x| - 1, Coef(y, i - (|x| - 1));
      ColumnBound(b, x[..n], y, i);
      MulLe(x[n], b - 1, c);
      MulLe(c, b - 1, b - 1);
      assert (n + 1) * ((b - 1) * (b - 1)) == n * ((b - 1) * (b - 1)) + (b - 1) * (b - 1);
    }
  }

  /** The largest carry out of a column with n products. */
  function CarryCap(b: nat, n: nat): nat
    requires b >= 1
  {
    n * (b - 1)
  }

  lemma CapArith(n: int, j: int, c: int)
    requires 0 <= j <= n && c >= 0
    ensures n * c + j * (c * c) <= n * (c * (c + 1))
  {
    MulLe(j, n, c * c);
    MulDistrib(n, c, c * c);
    assert c + c * c == c * (c + 1);
  }

  /** Partial columns respect the carry bound. */
  lemma PartialBound(b: nat, x: seq<nat>, y: seq<nat>, i: int, j: nat, r: int, carry: int, carryIn: int)
    requires b >= 2 && j <= |x| <= b && IsWords(b, x) && IsWords(b, y)
    requires r >= 0 && 0 <= carryIn <= CarryCap(b, |x|) && r + b * carry == carryIn + Column(x[..j], y, i)
    ensures carry <= CarryCap(b, |x|) && carry < b * b
  {
    hide Column;
    ColumnBound(b, x[..j], y, i);
    CapArith(|x|, j, b - 1);
    CarryBound(b, r, carry, carryIn + Column(x[..j], y, i), |x|);
  }

  /** Word and carry hold the incoming carry plus the first j products of column i; the carry fits two words. */
  ghost predicate ColumnAt(w: nat, x: seq<nat>, y: seq<nat>, i: nat, j: nat, carryIn: nat, word: nat, carry: nat) {
    && w >= 1 && j <= |x| && word < Base(w) && word + Base(w) * carry == carryIn + Column(x[..j], y, i)
    && carry <= CarryCap(Base(w), |x|) && carry < Base(w) * Base(w)
  }

  /** Before the first product: the words of the incoming carry. */
  lemma ColumnStarts(w: nat, x: seq<nat>, y: seq<nat>, i: nat, j: nat, carryIn: nat)
    requires w >= 1 && j <= |x| <= Base(w) && IsWords(Base(w), x) && IsWords(Base(w), y)
    requires carryIn <= CarryCap(Base(w), |x|) && Column(x[..j], y, i) == 0
    ensures ColumnAt(w, x, y, i, j, carryIn, Low(carryIn, w), Shr(carryIn, w))
  {
    hide Pow2, Low, Shr, Column, CarryCap;
    BaseAtLeastTwo(w);
    Parts(carryIn, w);
    PartialBound(Base(w), x, y, i, j, Low(carryIn, w), Shr(carryIn, w), carryIn);
  }

  lemma ColumnGrows(w: nat, x: seq<nat>, y: seq<nat>, i: nat, j: nat, carryIn: nat, r: nat, carry: nat, out: nat,
                    over: bool)
    requires j < |x| <= Base(w) && 0 <= i - j < |y| && IsWords(Base(w), x) && IsWords(Base(w), y)
    requires ColumnAt(w, x, y, i, j, carryIn, r, carry) && carryIn <= CarryCap(Base(w), |x|) && out < Base(w)
    requires out + If(over, Base(w)) == r + Low(Product(x[j], y[i - j]), w)
    ensures ColumnAt(w, x, y, i, j + 1, carryIn, out, carry + Shr(Product(x[j], y[i - j]), w) + If(over, 1))
  {
    hide Pow2, Low, Shr, Column, CarryCap;
    var b, product := Base(w), Product(x[j], y[i - j]);
    BaseAtLeastTwo(w);
    Parts(product, w);
    Accumulate(b, r, carry, Low(product, w), Shr(product, w), out, over, product);
    ColumnStep(x, y, i, j);
    PartialBound(b, x, y, i, j + 1, out, carry + Shr(product, w) + If(over, 1), carryIn);
  }

  lemma ColumnEnds(w: nat, x: seq<nat>, y: seq<nat>, i: nat, j: nat, carryIn: nat, word: nat, carry: nat)
    requires ColumnAt(w, x, y, i, j, carryIn, word, carry) && Column(x[..j], y, i) == Column(x, y, i)
    ensures word < Base(w) && carry <= CarryCap(Base(w), |x|)
    ensures word + Base(w) * carry == carryIn + Column(x, y, i)
  {
  }

  /** Column i: word and carry hold the incoming carry plus the column; the carry never leaves two words. */
  method AddColumn(w: nat, op1: Span, op2: Span, result: Span, i: nat, carryIn: nat) returns (carry: nat)
    requires w >= 1 && op1.Fits() && op2.Fits() && result.Fits() && i < result.size
    requires result.data != op1.data && result.data != op2.data
    requires IsWords(Base(w), op1.Words()) && IsWords(Base(w), op2.Words())
    requires op1.size <= Base(w) && carryIn <= CarryCap(Base(w), op1.size)
    modifies result.data
    ensures result.Words()[i] < Base(w) && carry <= CarryCap(Base(w), op1.size)
    ensures result.Words()[i] + Base(w) * carry == carryIn + Column(op1.Words(), op2.Words(), i)
    ensures result.Words()[..i] == old(result.Words()[..i]) && OnlyWithin(result)
  {
    hide Pow2, Low, Shr, Column, AddWord, CarryCap, Product, ColumnAt;
    var b, k := Base(w), result.start + i;
    ghost var x, y := op1.Words(), op2.Words();
    result.data[k] := Low(carryIn, w);
    carry := Shr(carryIn, w);
    var start := if i >= op2.size then i - op2.size + 1 else 0;
    var end := if i + 1 < op1.size then i + 1 else op1.size;
    if start < end {
      ColumnLow(x, y, i, start);
      ColumnStarts(w, x, y, i, start, carryIn);
      for j := start to end
        invariant result.data[k] < b && ColumnAt(w, x, y, i, j, carryIn, result.data[k], carry)
        invariant forall n :: 0 <= n < result.data.Length && n != k ==> result.data[n] == old(result.data[n])
      {
        var d1, d2 := op1.data[op1.start + j], op2.data[op2.start + (i - j)];
        assert d1 == x[j] && d2 == y[i - j];
        var product := Product(d1, d2);
        var out := AddWord(b, result.data[k], Low(product, w), false);
        ColumnGrows(w, x, y, i, j, carryIn, result.data[k], carry, out.0, out.1);
        result.data[k] := out.0;
        carry := carry + Shr(product, w) + (if out.1 then 1 else 0);
      }
      ColumnHigh(x, y, i, end);
      ColumnEnds(w, x, y, i, end, carryIn, result.data[k], carry);
    } else {
      ColumnEmpty(x, y, i);
      assert x[..0] == [];
      ColumnStarts(w, x, y, i, 0, carryIn);
      ColumnEnds(w, x, y, i, 0, carryIn, result.data[k], carry);
    }
    assert result.Words() == old(result.Words())[i := result.data[k]];
  }

  lemma ColumnEmpty(x: seq<nat>, y: seq<nat>, i: nat)
    requires (if i >= |y| then i - |y| + 1 else 0) >= (if i + 1 < |x| then i + 1 else |x|)
    ensures Column(x, y, i) == 0 && Column([], y, i) == 0
  {
    var j := if i + 1 < |x| then i + 1 else |x|;
    ColumnLow(x, y, i, j);
    ColumnHigh(x, y, i, j);
  }

  lemma ColumnsRound(b: nat, x: seq<nat>, y: seq<nat>, i: nat, done: seq<nat>, word: nat, carryIn: int, carry: int)
    requires |done| == i && Val(b, done) + carryIn * Pow(b, i) == Columns(b, x, y, i)
    requires word + b * carry == carryIn + Column(x, y, i)
    ensures Val(b, done + [word]) + carry * Pow(b, i + 1) == Columns(b, x, y, i + 1)
  {
    hide Val, Column;
    ValPush(b, done, word);
    var p := Pow(b, i);
    assert (word + b * carry) * p == word * p + (b * carry) * p;
    assert (b * carry) * p == carry * (b * p) by { MulAssoc(b, carry, p); MulSwap(b, carry, p); }
    assert (carryIn + Column(x, y, i)) * p == carryIn * p + Column(x, y, i) * p;
  }

  // ----- products modulo the size of the result -----

  /** Whole multiples of the modulus in the factors do not matter. */
  lemma ModFactors(x: int, h: int, y: int, k: int, m: int)
    requires m > 0
    ensures ((x + h * m) * (y + k * m)) % m == (x * y) % m
  {
    var q, r := (x * y) / m, (x * y) % m;
    var more := x * k + h * y + h * (k * m);
    assert (x + h * m) * (y + k * m) == x * y + m * more by { FactorsArith(x, h, y, k, m); }
    assert m * q + m * more == m * (q + more);
    DivModUnique((x + h * m) * (y + k * m), m, q + more, r);
  }

  lemma FactorsArith(x: int, h: int, y: int, k: int, m: int)
    ensures (x + h * m) * (y + k * m) == x * y + m * (x * k + h * y + h * (k * m))
  {
    var hm, km := h * m, k * m;
    assert (x + hm) * (y + km) == x * y + x * km + hm * y + hm * km;
    assert x * km == m * (x * k) && hm * y == m * (h * y);
    assert hm * km == m * (h * km) by { MulSwap(h, m, km); }
    MulDistrib(m, x * k + h * y, h * km);
    MulDistrib(m, x * k, h * y);
  }

  lemma ModNegated(x: int, m: int)
    requires m > 0
    ensures (-x) % m == if x % m == 0 then 0 else m - x % m
  {
    var q, r := x / m, x % m;
    if r == 0 {
      assert -x == m * -q + 0;
      DivModUnique(-x, m, -q, 0);
    } else {
      assert m * (-q - 1) == -(m * q) - m;
      DivModUnique(-x, m, -q - 1, m - r);
    }
  }

  /** The stored words are the product modulo the size of the result. */
  lemma ProductStored(b: nat, x: seq<nat>, y: seq<nat>, stored: seq<nat>, carry: nat)
    requires b >= 1 && IsWords(b, stored)
    requires Val(b, stored) + carry * Pow(b, |stored|) == Columns(b, x, y, |stored|)
    ensures Pow(b, |stored|) > 0 && Val(b, stored) == (Val(b, x) * Val(b, y)) % Pow(b, |stored|)
  {
    hide Val, Pow, Columns;
    var n := |stored|;
    var c := ColumnsAreProduct(b, x, y, n);
    PowPos(b, n);
    ValBound(b, stored);
    assert carry * Pow(b, n) + c * Pow(b, n) == Pow(b, n) * (carry + c);
    DivModUnique(Val(b, x) * Val(b, y), Pow(b, n), carry + c, Val(b, stored));
  }

  /** The column loop: the product of two unsigned operands modulo the size of the result. */
  method Schoolbook(w: nat, op1: Span, op2: Span, result: Span)
    requires w >= 1 && op1.Fits() && op2.Fits() && result.Fits()
    requires result.data != op1.data && result.data != op2.data
    requires IsWords(Base(w), op1.Words()) && IsWords(Base(w), op2.Words()) && op1.size <= Base(w)
    modifies result.data
    ensures IsWords(Base(w), result.Words()) && OnlyWithin(result) && Pow(Base(w), result.size) > 0
    ensures Val(Base(w), result.Words())
         == (Val(Base(w), op1.Words()) * Val(Base(w), op2.Words())) % Pow(Base(w), result.size)
  {
    hide Val, Pow, Pow2, Low, Shr, Columns, Column, CarryCap;
    var b := Base(w);
    ghost var x, y := op1.Words(), op2.Words();
    BaseAtLeastTwo(w);
    var carry: nat := 0;
    NoColumns(b, x, y);
    assert result.Words()[..0] == [];
    for i := 0 to result.size
      invariant IsWords(b, result.Words()[..i]) && carry <= CarryCap(b, op1.size)
      invariant Val(b, result.Words()[..i]) + carry * Pow(b, i) == Columns(b, x, y, i)
      invariant op1.Words() == x && op2.Words() == y && OnlyWithin(result)
    {
      ghost var done, carryIn := result.Words()[..i], carry;
      carry := AddColumn(w, op1, op2, result, i, carry);
      assert result.Words()[..i + 1] == done + [result.Words()[i]];
      assert op1.Words() == x && op2.Words() == y;
      ColumnsRound(b, x, y, i, done, result.Words()[i], carryIn, carry);
    }
    assert result.Words()[..result.size] == result.Words();
    ProductStored(b, x, y, result.Words(), carry);
  }

  lemma NoColumns(b: nat, x: seq<nat>, y: seq<nat>)
    ensures Val(b, []) + 0 * Pow(b, 0) == Columns(b, x, y, 0)
  {
  }

  // ----- signs -----

  /**
   When the product is right.  The path for one word each widens a negative word without extending its
   sign, so with a negative operand and more than one result word it is right only by coincidence.
   */
  predicate ProductExact(w: nat, x: seq<nat>, signed1: bool, y: seq<nat>, signed2: bool, size: nat)
    requires w >= 1
  {
    |x| == 1 && |y| == 1 && size > 1 ==>
      var negative1, negative2 := IsNegative(w, x, signed1), IsNegative(w, y, signed2);
      if negative1 && negative2 then x[0] == y[0] == Pow2(w - 1)
      else if negative1 then size == 2 && y[0] == 0
      else if negative2 then size == 2 && x[0] == 0
      else true
  }

  /** The magnitude of a negative operand, in a buffer of its own. */
  method Inverted(w: nat, op: Span) returns (r: Span)
    requires w >= 1 && op.Fits() && IsWords(Base(w), op.Words()) && IsNegative(w, op.Words(), op.signed)
    ensures fresh(r.data) && r.Fits() && r.size == op.size && !r.signed && IsWords(Base(w), r.Words())
    ensures Val(Base(w), r.Words()) == -IntVal(w, op.Words(), op.signed)
  {
    hide Val, Pow, Pow2;
    var buffer := new nat[op.size];
    r := Span(buffer, 0, op.size, false);
    ValNonzero(Base(w), op.Words(), op.size - 1);
    var nonzero := NegateWords(w, op, r);
  }

  /** The first words, as many as there are result words. */
  function Trimmed(op: Span, size: nat): Span {
    Span(op.data, op.start, if op.size < size then op.size else size, false)
  }

  lemma TrimmedValue(b: nat, op: Span, size: nat) returns (high: nat)
    requires op.Fits()
    ensures Trimmed(op, size).Fits()
    ensures Val(b, op.Words()) == Val(b, Trimmed(op, size).Words()) + high * Pow(b, size)
  {
    hide Val, Pow;
    if op.size <= size {
      high := 0;
    } else {
      high := Val(b, op.Words()[size..]);
      PrefixWords(op, size);
      ValSplit(b, op.Words(), size);
    }
  }

  /** Modulo the size of a result that is no longer, the words of a negative operand stand for it as they are. */
  lemma SignedResidue(w: nat, op: Span, size: nat) returns (high: int)
    requires w >= 1 && op.Fits() && op.size >= size
    ensures Trimmed(op, size).Fits()
    ensures IntVal(w, op.Words(), op.signed)
         == Val(Base(w), Trimmed(op, size).Words()) + high * Pow(Base(w), size)
  {
    hide Val, Pow, Pow2;
    var b := Base(w);
    high := TrimmedValue(b, op, size);
    if IsNegative(w, op.Words(), op.signed) {
      PowAdd(b, op.size - size, size);
      var n := Pow(b, op.size - size);
      assert (high - n) * Pow(b, size) == high * Pow(b, size) - n * Pow(b, size);
      high := high - n;
    }
  }

  /** What the loop is given for one operand: its magnitude or its words, cut to the size of the result. */
  method Prepared(w: nat, op: Span, normalize: bool, size: nat) returns (r: Span, ghost high: int)
    requires w >= 1 && op.Fits() && IsWords(Base(w), op.Words()) && (normalize || op.size >= size)
    ensures (fresh(r.data) || r.data == op.data) && r.Fits() && r.size <= op.size && IsWords(Base(w), r.Words())
    ensures Negate(normalize && IsNegative(w, op.Words(), op.signed), IntVal(w, op.Words(), op.signed))
         == Val(Base(w), r.Words()) + high * Pow(Base(w), size)
  {
    hide Val, Pow, Pow2;
    var data := Span(op.data, op.start, op.size, false);
    if normalize && IsNegative(w, op.Words(), op.signed) {
      data := Inverted(w, op);
    }
    if normalize {
      high := TrimmedValue(Base(w), data, size);
    } else {
      high := SignedResidue(w, op, size);
    }
    r := Trimmed(data, size);
    PrefixWords(data, r.size);
    assert r.Words() == data.Words()[..r.size];
  }

  lemma NegatedFactors(x: int, y: int)
    ensures (-x) * y == -(x * y) && x * (-y) == -(x * y) && (-x) * (-y) == x * y
  {
  }

  /** The product of the magnitudes, negated when the signs differ. */
  lemma SignedProduct(m: int, i1: int, i2: int, sign1: bool, sign2: bool, e1: int, e2: int, h1: int, h2: int, r: int)
    requires m > 0 && Negate(sign1, i1) == e1 + h1 * m && Negate(sign2, i2) == e2 + h2 * m
    requires var s := (e1 * e2) % m; r == if sign1 != sign2 && s != 0 then m - s else s
    ensures r == (i1 * i2) % m
  {
    var d1, d2 := e1 + h1 * m, e2 + h2 * m;
    ModFactors(e1, h1, e2, h2, m);
    NegatedFactors(i1, i2);
    if sign1 != sign2 {
      ModNegated(d1 * d2, m);
      assert i1 * i2 == -(d1 * d2);
    } else {
      assert i1 * i2 == d1 * d2;
    }
  }

  // ----- one word each -----

  lemma OneWord(b: nat, s: seq<nat>)
    requires |s| == 1
    ensures Val(b, s) == s[0]
  {
    ValCons(b, s);
    ValZeros(b, s[1..]);
  }

  /** What the path for one word each stores. */
  function WordsStored(b: nat, word1: nat, word2: nat, differ: bool, size: nat): int
    requires b >= 1
  {
    if size == 1 then (word1 * word2) % b else word1 * word2 + If(differ, Pow(b, size) - b * b)
  }

  /** The product of the words read as unsigned, with all ones above two words when the signs differ. */
  lemma WordsStoredMeaning(w: nat, word1: nat, word2: nat, differ: bool, size: nat)
    requires w >= 1 && size >= 1 && word1 < Base(w) && word2 < Base(w)
    ensures size > 1 && !differ ==> WordsStored(Base(w), word1, word2, differ, size) == word1 * word2
    ensures size > 1 && differ ==>
              WordsStored(Base(w), word1, word2, differ, size) == word1 * word2 + Pow2(size * w) - Pow2(2 * w)
    ensures size == 1 ==> WordsStored(Base(w), word1, word2, differ, size) == Low(word1 * word2, w)
  {
    hide Pow, Pow2, Low;
    PowOfBase(w, size);
    PowOfBase(w, 2);
    PowTwo(Base(w));
    LowShrDivMod(word1 * word2, w);
  }

  /** The double-word product, continued with the sign of the product. */
  method MulWords(w: nat, word1: nat, word2: nat, differ: bool, result: Span)
    requires w >= 1 && result.Fits() && result.size >= 1 && word1 < Base(w) && word2 < Base(w)
    modifies result.data
    ensures IsWords(Base(w), result.Words()) && OnlyWithin(result)
    ensures Val(Base(w), result.Words()) == WordsStored(Base(w), word1, word2, differ, result.size)
  {
    hide Val, Pow, Pow2, Low, Shr, WordsStored;
    var value: nat := word1 * word2;
    DoubleWord(w, word1, word2, 0);
    result.data[result.start] := Low(value, w);
    if result.size > 1 {
      result.data[result.start + 1] := Shr(value, w);
      var fill := ExtendSign(w, differ);
      for i := 2 to result.size
        invariant result.Words()[0] == Low(value, w) && result.Words()[1] == Shr(value, w)
        invariant forall k :: 2 <= k < i ==> result.Words()[k] == fill
        invariant OnlyWithin(result)
      {
        result.data[result.start + i] := fill;
      }
    }
    WordProduct(w, word1, word2, differ, result.Words());
  }

  lemma WordProduct(w: nat, word1: nat, word2: nat, differ: bool, s: seq<nat>)
    requires w >= 1 && |s| >= 1 && s[0] == Low(word1 * word2, w)
    requires Shr(word1 * word2, w) < Base(w) && (|s| > 1 ==> s[1] == Shr(word1 * word2, w))
    requires forall k :: 2 <= k < |s| ==> s[k] == ExtendSign(w, differ)
    ensures IsWords(Base(w), s) && Val(Base(w), s) == WordsStored(Base(w), word1, word2, differ, |s|)
  {
    hide Val, Pow, Pow2, Low, Shr;
    var b, value := Base(w), word1 * word2;
    BaseAtLeastTwo(w);
    if |s| == 1 {
      OneWord(b, s);
      LowShrDivMod(value, w);
    } else {
      assert s == s[..2] + Fill(if differ then b - 1 else 0, |s| - 2);
      FilledValue(b, s[..2], differ, |s| - 2);
      Val2(b, s[..2]);
      Parts(value, w);
      PowTwo(b);
    }
  }

  lemma PowTwo(b: nat)
    ensures Pow(b, 2) == b * b && Pow(b, 1) == b
  {
    assert Pow(b, 2) == b * Pow(b, 1) && Pow(b, 1) == b * Pow(b, 0);
  }

  /** The stored words of one word each are the signed product exactly under the condition. */
  lemma WordsExact(w: nat, x: seq<nat>, signed1: bool, y: seq<nat>, signed2: bool, size: nat)
    requires w >= 1 && size >= 1 && |x| == |y| == 1 && IsWords(Base(w), x) && IsWords(Base(w), y)
    ensures WordsStored(Base(w), x[0], y[0], IsNegative(w, x, signed1) != IsNegative(w, y, signed2), size)
         == TrueProduct(w, x, signed1, y, signed2, size)
        <==> ProductExact(w, x, signed1, y, signed2, size)
  {
    hide Val, Pow, Pow2, IntVal, IsNegative;
    var b, m := Base(w), Pow(Base(w), size);
    var negative1, negative2 := IsNegative(w, x, signed1), IsNegative(w, y, signed2);
    OneWordSigned(w, x, signed1);
    OneWordSigned(w, y, signed2);
    PowTwo(b);
    PowPos(b, size);
    if size == 1 {
      NarrowExact(b, x[0], y[0], negative1, negative2);
    } else {
      SquareWithin(b, size);
      WideExact(b, m, Pow2(w - 1), x[0], y[0], negative1, negative2);
    }
  }

  /** A negative word stands for 2^w less than what it holds. */
  lemma OneWordSigned(w: nat, s: seq<nat>, signed: bool)
    requires w >= 1 && |s| == 1 && IsWords(Base(w), s)
    ensures IntVal(w, s, signed) == s[0] - If(IsNegative(w, s, signed), Base(w))
    ensures IsNegative(w, s, signed) ==> s[0] >= Pow2(w - 1)
    ensures Base(w) == 2 * Pow2(w - 1) && Base(w) >= 2
  {
    hide Val, Pow;
    OneWord(Base(w), s);
    PowTwo(Base(w));
  }

  lemma NarrowExact(b: int, x: int, y: int, negative1: bool, negative2: bool)
    requires b > 0
    ensures ((x - If(negative1, b)) * (y - If(negative2, b))) % b == (x * y) % b
  {
    ModFactors(x, -If(negative1, 1), y, -If(negative2, 1), b);
    assert -If(negative1, 1) * b == -If(negative1, b) && -If(negative2, 1) * b == -If(negative2, b);
  }

  lemma SquareWithin(b: nat, size: nat)
    requires b >= 2 && size >= 2
    ensures Pow(b, size) >= b * b && (Pow(b, size) == b * b <==> size == 2)
  {
    hide Pow;
    PowTwo(b);
    PowAdd(b, size - 2, 2);
    PowPos(b, size - 2);
    if size > 2 {
      PowStep(b, size - 3);
      PowPos(b, size - 3);
      MulLe(1, Pow(b, size - 3), b);
      MulLt(1, Pow(b, size - 2), b * b);
    } else {
      NoPower(b);
    }
  }

  lemma NoPower(b: nat)
    ensures Pow(b, 0) == 1
  {
  }

  lemma WideExact(b: int, m: int, h: int, x: int, y: int, negative1: bool, negative2: bool)
    requires b >= 2 && b == 2 * h && m >= b * b && 0 <= x < b && 0 <= y < b
    requires (negative1 ==> x >= h) && (negative2 ==> y >= h)
    ensures x * y + If(negative1 != negative2, m - b * b)
         == ((x - If(negative1, b)) * (y - If(negative2, b))) % m
        <==> (if negative1 && negative2 then x == y == h
              else if negative1 then m == b * b && y == 0
              else if negative2 then m == b * b && x == 0
              else true)
  {
    if negative1 && negative2 {
      BothNegative(b, m, h, x, y);
    } else if negative1 {
      MixedExact(b, m, x, y);
    } else if negative2 {
      MixedExact(b, m, y, x);
      assert x * (y - b) == (y - b) * x;
    } else {
      SmallProduct(x, y, b);
      DivModUnique(x * y, m, 0, x * y);
    }
  }

  lemma SmallProduct(x: int, y: int, b: int)
    requires 0 <= x < b && 0 <= y < b
    ensures 0 <= x * y < b * b
  {
    MulLe(x, b, y);
    MulLt(y, b, b);
  }

  /** Two negative words: the stored words are the product only at the end of the range. */
  lemma BothNegative(b: int, m: int, h: int, x: int, y: int)
    requires b >= 2 && b == 2 * h && m >= b * b && h <= x < b && h <= y < b
    ensures x * y == ((x - b) * (y - b)) % m <==> x == y == h
  {
    var z := (b - x) * (b - y);
    assert z == b * b - b * (x + y) + x * y by { Expand(b, x, y); }
    NegatedFactors(b - x, b - y);
    SmallProduct(b - x, b - y, b);
    DivModUnique(z, m, 0, z);
    if b * b == b * (x + y) { MulCancel(b, x + y, b); }
  }

  lemma Expand(b: int, x: int, y: int)
    ensures (b - x) * (b - y) == b * b - b * (x + y) + x * y
  {
    assert (b - x) * (b - y) == b * (b - y) - x * (b - y);
  }

  lemma MulCancel(x: int, y: int, b: int)
    requires b > 0 && b * x == b * y
    ensures x == y
  {
  }

  /** A negative word times another: the stored words are the product only if that is zero in two words. */
  lemma MixedExact(b: int, m: int, x: int, y: int)
    requires b >= 2 && m >= b * b && 0 < x < b && 0 <= y < b
    ensures x * y + m - b * b == ((x - b) * y) % m <==> m == b * b && y == 0
  {
    var z := (b - x) * y;
    assert (x - b) * y == -z && z == b * y - x * y;
    SmallProduct(b - x, y, b);
    if y == 0 {
      DivModUnique(0, m, 0, 0);
    } else {
      MulLe(1, b - x, y);
      DivModUnique(-z, m, -1, m - z);
      MulLt(y, b, b);
    }
  }

  // ----- baseline_mul -----

  /** The product of two storages, cut to `size` words. */
  ghost function TrueProduct(w: nat, x: seq<nat>, signed1: bool, y: seq<nat>, signed2: bool, size: nat): int
    requires w >= 1
  {
    PowPos(Base(w), size);
    (IntVal(w, x, signed1) * IntVal(w, y, signed2)) % Pow(Base(w), size)
  }

  lemma ProductMeaning(w: nat, x: seq<nat>, signed1: bool, y: seq<nat>, signed2: bool, size: nat)
    requires w >= 1
    ensures Pow(Base(w), size) > 0
    ensures TrueProduct(w, x, signed1, y, signed2, size)
         == (IntVal(w, x, signed1) * IntVal(w, y, signed2)) % Pow(Base(w), size)
    ensures !IsNegative(w, x, signed1) && !IsNegative(w, y, signed2) ==>
              TrueProduct(w, x, signed1, y, signed2, size)
              == (Val(Base(w), x) * Val(Base(w), y)) % Pow(Base(w), size)
    ensures |x| != 1 || |y| != 1 || (!IsNegative(w, x, signed1) && !IsNegative(w, y, signed2)) ==>
              ProductExact(w, x, signed1, y, signed2, size)
  {
    hide Pow, Pow2, Val, IsNegative;
    PowPos(Base(w), size);
  }

  lemma ProductSwapped(w: nat, x: seq<nat>, signed1: bool, y: seq<nat>, signed2: bool, size: nat)
    requires w >= 1
    ensures TrueProduct(w, x, signed1, y, signed2, size) == TrueProduct(w, y, signed2, x, signed1, size)
    ensures ProductExact(w, x, signed1, y, signed2, size) == ProductExact(w, y, signed2, x, signed1, size)
  {
    hide Pow, Pow2, IntVal, IsNegative;
  }

  /** The path for longer operands: magnitudes, columns, sign. */
  method MulSigned(w: nat, op1: Span, op2: Span, result: Span)
    requires w >= 1 && op1.Fits() && op2.Fits() && result.Fits() && op1.size >= op2.size
    requires result.data != op1.data && result.data != op2.data
    requires IsWords(Base(w), op1.Words()) && IsWords(Base(w), op2.Words()) && op1.size <= Base(w)
    modifies result.data
    ensures IsWords(Base(w), result.Words()) && OnlyWithin(result)
    ensures Val(Base(w), result.Words())
         == TrueProduct(w, op1.Words(), op1.signed, op2.Words(), op2.signed, result.size)
  {
    hide Val, Pow, Pow2, IsNegative, IntVal;
    var b := Base(w);
    ghost var x, y := op1.Words(), op2.Words();
    var sign1, sign2 := IsNegative(w, op1.Words(), op1.signed), IsNegative(w, op2.Words(), op2.signed);
    var normalize := op2.size < result.size;
    var data1, h1 := Prepared(w, op1, normalize, result.size);
    var data2, h2 := Prepared(w, op2, normalize, result.size);
    ghost var e1, e2 := Val(b, data1.Words()), Val(b, data2.Words());
    Schoolbook(w, data1, data2, result);
    if normalize && sign1 != sign2 {
      var nonzero := NegateWords(w, result, result);
    }
    assert op1.Words() == x && op2.Words() == y;
    SignedProduct(Pow(b, result.size), IntVal(w, x, op1.signed), IntVal(w, y, op2.signed),
                  normalize && sign1, normalize && sign2, e1, e2, h1, h2, Val(b, result.Words()));
  }

  /** The product modulo the size of the result, exactly when the one-word path did not lose a sign. */
  method BaselineMul(w: nat, op1: Span, op2: Span, result: Span)
    requires w >= 1 && op1.Fits() && op2.Fits() && result.Fits()
    requires op1.size == 1 && op2.size == 1 ==> result.size >= 1
    requires result.data != op1.data && result.data != op2.data
    requires IsWords(Base(w), op1.Words()) && IsWords(Base(w), op2.Words())
    requires op1.size <= Base(w) && op2.size <= Base(w)
    modifies result.data
    ensures IsWords(Base(w), result.Words()) && OnlyWithin(result)
    ensures Val(Base(w), result.Words())
         == TrueProduct(w, op1.Words(), op1.signed, op2.Words(), op2.signed, result.size)
        <==> ProductExact(w, op1.Words(), op1.signed, op2.Words(), op2.signed, result.size)
    ensures op1.size != 1 || op2.size != 1 ==>
              Val(Base(w), result.Words())
              == TrueProduct(w, op1.Words(), op1.signed, op2.Words(), op2.signed, result.size)
    ensures !IsNegative(w, op1.Words(), op1.signed) && !IsNegative(w, op2.Words(), op2.signed) ==>
              Val(Base(w), result.Words())
              == TrueProduct(w, op1.Words(), op1.signed, op2.Words(), op2.signed, result.size)
    ensures op1.size == 1 && op2.size == 1 ==>
              Val(Base(w), result.Words()) == WordsStored(Base(w), op1.Words()[0], op2.Words()[0],
                  IsNegative(w, op1.Words(), op1.signed) != IsNegative(w, op2.Words(), op2.signed), result.size)
    decreases if op1.size < op2.size then 1 else 0
  {
    hide Val, Pow, Pow2, IsNegative, TrueProduct, WordsStored;
    ghost var x, y := op1.Words(), op2.Words();
    ProductMeaning(w, x, op1.signed, y, op2.signed, result.size);
    if op1.size == 1 && op2.size == 1 {
      var sign1, sign2 := IsNegative(w, op1.Words(), op1.signed), IsNegative(w, op2.Words(), op2.signed);
      assert x[0] == op1.data[op1.start] && y[0] == op2.data[op2.start];
      MulWords(w, op1.data[op1.start], op2.data[op2.start], sign1 != sign2, result);
      WordsExact(w, x, op1.signed, y, op2.signed, result.size);
    } else if op1.size < op2.size {
      BaselineMul(w, op2, op1, result);
      ProductSwapped(w, x, op1.signed, y, op2.signed, result.size);
    } else {
      MulSigned(w, op1, op2, result);
    }
    assert op1.Words() == x && op2.Words() == y;
  }

  /** -1 times 1 in one word each, stored in two words, is 2^w - 1. */
  method LostSignExample(w: nat) returns (product: seq<nat>)
    requires w >= 1
    ensures IntVal(w, [Base(w) - 1], true) == -1
    ensures |product| == 2 && IntVal(w, product, true) == Base(w) - 1
  {
    hide Val, Pow, Pow2, WordsStored, ProductExact;
    var b := Base(w);
    BaseAtLeastTwo(w);
    var minus, one, stored := new nat[][b - 1], new nat[][1], new nat[2];
    var op1, op2, result := Span(minus, 0, 1, true), Span(one, 0, 1, false), Span(stored, 0, 2, true);
    assert op1.Words() == [b - 1] && op2.Words() == [1];
    MinusSign(w);
    BaselineMul(w, op1, op2, result);
    assert op1.Words() == [b - 1] && op2.Words() == [1];
    product := result.Words();
    MinusOne(w, product);
  }

  lemma MinusSign(w: nat)
    requires w >= 1
    ensures IsNegative(w, [Base(w) - 1], true) && !IsNegative(w, [1], false)
  {
  }

  lemma MinusOne(w: nat, product: seq<nat>)
    requires w >= 1 && |product| == 2 && IsWords(Base(w), product)
    requires Val(Base(w), product) == WordsStored(Base(w), Base(w) - 1, 1, true, 2)
    ensures IntVal(w, [Base(w) - 1], true) == -1 && IntVal(w, product, true) == Base(w) - 1
  {
    hide Val, Pow;
    var b := Base(w);
    OneWord(b, [b - 1]);
    PowTwo(b);
    Val2(b, product);
    if product[1] >= 1 { MulLe(1, product[1], b); }
  }
}
