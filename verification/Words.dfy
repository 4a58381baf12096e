/**
 Little-endian multi-word numbers: powers, the value of a word sequence, and the
 algebra of splitting, extending and bounding such values.  The word base `b` is
 left open; callers instantiate it with a power of two.
 */
module Words {

  function Pow(b: nat, n: nat): nat {
    if n == 0 then 1 else b * Pow(b, n - 1)
  }

  /** The number denoted by `s`, least significant word first. */
  function Val(b: nat, s: seq<nat>): nat {
    if s == [] then 0 else Val(b, s[..|s| - 1]) + s[|s| - 1] * Pow(b, |s| - 1)
  }

  predicate IsWords(b: nat, s: seq<nat>) {
    forall i :: 0 <= i < |s| ==> s[i] < b
  }

  /** `n` copies of `x`. */
  function Fill(x: nat, n: nat): (s: seq<nat>)
    ensures |s| == n && forall i :: 0 <= i < n ==> s[i] == x
  {
    seq(n, _ => x)
  }

  lemma {:induction false} PowPos(b: nat, n: nat)
    requires b > 0
    ensures Pow(b, n) > 0
  {
    if n > 0 { PowPos(b, n - 1); }
  }

  lemma {:induction false} PowAdd(b: nat, m: nat, n: nat)
    ensures Pow(b, m + n) == Pow(b, m) * Pow(b, n)
  {
    if m == 0 {
    } else {
      PowAdd(b, m - 1, n);
      MulAssoc(b, Pow(b, m - 1), Pow(b, n));
    }
  }

  lemma ValPush(b: nat, s: seq<nat>, x: nat)
    ensures Val(b, s + [x]) == Val(b, s) + x * Pow(b, |s|)
  {
    assert (s + [x])[..|s|] == s;
  }

  /** Prefix growth: the shape every low-to-high word loop needs. */
  lemma ValPrefix(b: nat, s: seq<nat>, i: nat)
    requires i < |s|
    ensures Val(b, s[..i + 1]) == Val(b, s[..i]) + s[i] * Pow(b, i)
  {
    assert s[..i + 1] == s[..i] + [s[i]];
    ValPush(b, s[..i], s[i]);
  }

  lemma {:induction false} ValConcat(b: nat, s: seq<nat>, t: seq<nat>)
    ensures Val(b, s + t) == Val(b, s) + Pow(b, |s|) * Val(b, t)
  {
    if t == [] {
      assert s + t == s;
    } else {
      var t', x := t[..|t| - 1], t[|t| - 1];
      assert s + t == (s + t') + [x] && t == t' + [x];
      ValPush(b, s + t', x);
      ValPush(b, t', x);
      ValConcat(b, s, t');
      PowAdd(b, |s|, |t'|);
      MulDistrib(Pow(b, |s|), Val(b, t'), x * Pow(b, |t'|));
      MulSwap(Pow(b, |s|), x, Pow(b, |t'|));
    }
  }

  /** A product that proofs can hide. */
  function Product(x: nat, y: nat): nat { x * y }

  lemma MulDistrib(p: int, x: int, y: int)
    ensures p * (x + y) == p * x + p * y
  {
  }

  lemma MulAssoc(x: int, y: int, z: int)
    ensures x * (y * z) == (x * y) * z
  {
  }

  lemma MulSwap(p: int, x: int, q: int)
    ensures p * (x * q) == x * (p * q)
  {
    assert p * (x * q) == (p * x) * q == x * (p * q);
  }

  lemma ValSplit(b: nat, s: seq<nat>, k: nat)
    requires k <= |s|
    ensures Val(b, s) == Val(b, s[..k]) + Pow(b, k) * Val(b, s[k..])
  {
    assert s == s[..k] + s[k..];
    ValConcat(b, s[..k], s[k..]);
  }

  lemma {:induction false} ValBound(b: nat, s: seq<nat>)
    requires IsWords(b, s)
    ensures Val(b, s) < Pow(b, |s|)
  {
    if s == [] {
    } else {
      var n := |s| - 1;
      ValBound(b, s[..n]);
      assert s[n] * Pow(b, n) <= (b - 1) * Pow(b, n) by { MulLe(s[n], b - 1, Pow(b, n)); }
      assert (b - 1) * Pow(b, n) + Pow(b, n) == b * Pow(b, n);
    }
  }

  lemma MulLe(x: int, y: int, p: int)
    requires x <= y && 0 <= p
    ensures x * p <= y * p
  {
  }

  lemma MulLt(x: int, y: int, p: int)
    requires x < y && 0 < p
    ensures x * p < y * p
  {
  }

  /** Cancelling a positive factor. */
  lemma MulCancelLt(x: int, y: int, p: int)
    requires x * p < y * p && 0 < p
    ensures x < y
  {
    if y <= x { MulLe(y, x, p); }
  }

  lemma {:induction false} ValZeros(b: nat, s: seq<nat>)
    requires forall i :: 0 <= i < |s| ==> s[i] == 0
    ensures Val(b, s) == 0
  {
    if s != [] { ValZeros(b, s[..|s| - 1]); }
  }

  /** Appending high zeros changes nothing. */
  lemma ValTrim(b: nat, s: seq<nat>, k: nat)
    requires k <= |s|
    requires forall i :: k <= i < |s| ==> s[i] == 0
    ensures Val(b, s) == Val(b, s[..k])
  {
    ValSplit(b, s, k);
    ValZeros(b, s[k..]);
  }

  /** All-ones words are one short of a power. */
  lemma {:induction false} ValOnes(b: nat, s: seq<nat>)
    requires b > 0
    requires forall i :: 0 <= i < |s| ==> s[i] == b - 1
    ensures Val(b, s) == Pow(b, |s|) - 1
  {
    if s != [] {
      var n := |s| - 1;
      ValOnes(b, s[..n]);
      assert (b - 1) * Pow(b, n) + Pow(b, n) == b * Pow(b, n);
    }
  }

  lemma {:induction false} ValNonzero(b: nat, s: seq<nat>, k: nat)
    requires b > 0 && k < |s| && s[k] != 0
    ensures Val(b, s) >= 1
  {
    var n := |s| - 1;
    PowPos(b, n);
    if k < n {
      ValNonzero(b, s[..n], k);
    } else {
      MulLe(1, s[n], Pow(b, n));
    }
  }

  lemma {:induction false} ValNotOnes(b: nat, s: seq<nat>, k: nat)
    requires IsWords(b, s) && k < |s| && s[k] != b - 1
    ensures Val(b, s) + 2 <= Pow(b, |s|)
  {
    var n := |s| - 1;
    var p := Pow(b, n);
    assert (b - 1) * p + p == b * p && (b - 2) * p + p == (b - 1) * p;
    if k < n {
      ValNotOnes(b, s[..n], k);
      MulLe(s[n], b - 1, p);
    } else {
      ValBound(b, s[..n]);
      MulLe(s[n], b - 2, p);
    }
  }

  /** The highest differing word decides. */
  lemma ValCompare(b: nat, s: seq<nat>, t: seq<nat>, i: nat)
    requires |s| == |t| && i < |s| && IsWords(b, s) && IsWords(b, t)
    requires s[i] < t[i] && s[i + 1..] == t[i + 1..]
    ensures Val(b, s) < Val(b, t)
  {
    hide Val, Pow;
    ValSplit(b, s, i + 1);
    ValSplit(b, t, i + 1);
    ValPrefix(b, s, i);
    ValPrefix(b, t, i);
    ValBound(b, s[..i]);
    MulLe(s[i] + 1, t[i], Pow(b, i));
    assert (s[i] + 1) * Pow(b, i) == s[i] * Pow(b, i) + Pow(b, i);
  }

  lemma SliceOfSlice<T>(s: seq<T>, from: nat, to: nat, i: nat, j: nat)
    requires i <= j && from + j <= to <= |s|
    ensures s[from..to][i..j] == s[from + i..from + j]
  {
    var x, y := s[from..to][i..j], s[from + i..from + j];
    assert |x| == |y|;
    forall k | 0 <= k < |x| ensures x[k] == y[k] {
    }
  }

  /** Length of the longest common prefix. */
  function CommonPrefix<T(==)>(x: seq<T>, y: seq<T>): (n: nat)
    ensures n <= |x| && n <= |y| && x[..n] == y[..n]
    ensures n < |x| && n < |y| ==> x[n] != y[n]
  {
    if x == [] || y == [] || x[0] != y[0] then 0
    else
      var n := CommonPrefix(x[1..], y[1..]);
      assert x[..n + 1] == [x[0]] + x[1..][..n] && y[..n + 1] == [y[0]] + y[1..][..n];
      n + 1
  }

  lemma CommonPrefixUnique<T>(x: seq<T>, y: seq<T>, n: nat)
    requires n <= |x| && n <= |y| && x[..n] == y[..n]
    requires n < |x| && n < |y| ==> x[n] != y[n]
    ensures CommonPrefix(x, y) == n
  {
    var m := CommonPrefix(x, y);
    assert forall i :: 0 <= i < n ==> x[i] == x[..n][i] == y[..n][i] == y[i];
    assert forall i :: 0 <= i < m ==> x[i] == x[..m][i] == y[..m][i] == y[i];
  }
}
