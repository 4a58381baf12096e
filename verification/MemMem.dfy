/**
 AK/MemMem.h: substring search.  Knuth-Morris-Pratt over a haystack given in chunks,
 the bit-parallel bitap for short needles, and the dispatcher between them.
 */
module MemMem {
  import opened Wrappers
  import opened Bits

  ghost predicate Occurs(haystack: seq<Byte>, needle: seq<Byte>, at: nat) {
    at + |needle| <= |haystack| && haystack[at..at + |needle|] == needle
  }

  /** The naive specification: the least offset where the needle occurs. */
  ghost predicate IsFirst(haystack: seq<Byte>, needle: seq<Byte>, r: Option<nat>) {
    match r
    case None => forall at: nat :: !Occurs(haystack, needle, at)
    case Some(at) => Occurs(haystack, needle, at) && forall j: nat :: j < at ==> !Occurs(haystack, needle, j)
  }

  // ----- borders and the strong failure table -----

  /** The first k bytes are also the last k of the first j bytes. */
  ghost predicate Border(needle: seq<Byte>, j: nat, k: nat)
    requires j <= |needle|
  {
    k < j && needle[..k] == needle[j - k..j]
  }

  /** t is the longest border of the first j bytes that is followed by another byte than they are, or -1. */
  ghost predicate Strong(needle: seq<Byte>, j: nat, t: int)
    requires j < |needle|
  {
    && -1 <= t < j
    && (t >= 0 ==> Border(needle, j, t) && needle[t] != needle[j])
    && forall k: nat :: t < k < j && Border(needle, j, k) ==> needle[k] == needle[j]
  }

  /** c is the longest proper border of the first j bytes. */
  ghost predicate Longest(needle: seq<Byte>, j: nat, c: nat)
    requires j <= |needle|
  {
    Border(needle, j, c) && forall k: nat :: c < k < j ==> !Border(needle, j, k)
  }

  /** Borders of a border are exactly the shorter borders. */
  lemma BorderOfBorder(needle: seq<Byte>, j: nat, c: nat, k: nat)
    requires j <= |needle| && Border(needle, j, c) && k < c
    ensures Border(needle, j, k) <==> Border(needle, c, k)
  {
    var x, y := needle[..c], needle[j - c..j];
    assert x[c - k..] == needle[c - k..c];
    assert y[c - k..] == needle[j - k..j];
  }

  lemma BorderExtends(needle: seq<Byte>, j: nat, k: nat)
    requires j < |needle| && k < j
    ensures Border(needle, j + 1, k + 1) <==> Border(needle, j, k) && needle[k] == needle[j]
  {
    assert needle[..k + 1] == needle[..k] + [needle[k]];
    assert needle[j - k..j + 1] == needle[j - k..j] + [needle[j]];
    if Border(needle, j + 1, k + 1) {
      assert needle[..k + 1][..k] == needle[..k] && needle[j - k..j + 1][..k] == needle[j - k..j];
    }
  }

  /** The table entry at a position whose byte follows the longest border too. */
  lemma StrongSame(needle: seq<Byte>, p: nat, c: nat, t: int)
    requires p < |needle| && Longest(needle, p, c) && Strong(needle, c, t) && needle[p] == needle[c]
    ensures Strong(needle, p, t)
  {
    if t >= 0 { BorderOfBorder(needle, p, c, t); }
    forall k: nat | t < k < p && Border(needle, p, k) ensures needle[k] == needle[p] {
      if k < c { BorderOfBorder(needle, p, c, k); }
    }
  }

  /** Every border of the first p bytes from `above` on is followed by another byte than x. */
  ghost predicate Excluded(needle: seq<Byte>, p: nat, above: int, x: Byte)
    requires p <= |needle|
  {
    forall k: nat :: above < k < p && Border(needle, p, k) ==> needle[k] != x
  }

  /** Falling back along the table skips no border that could be extended by x. */
  lemma FallBack(needle: seq<Byte>, p: nat, c: nat, t: int, x: Byte)
    requires p <= |needle| && Border(needle, p, c) && Strong(needle, c, t) && needle[c] != x
    requires Excluded(needle, p, c, x)
    ensures Excluded(needle, p, t, x) && (t >= 0 ==> Border(needle, p, t))
  {
    if t >= 0 { BorderOfBorder(needle, p, c, t); }
    forall k: nat | t < k < p && Border(needle, p, k) ensures needle[k] != x {
      if k < c { BorderOfBorder(needle, p, c, k); }
    }
  }

  /** The fall back ends at the border that the next byte extends. */
  lemma NextLongest(needle: seq<Byte>, p: nat, c: int)
    requires 0 < p < |needle| && -1 <= c < p && Excluded(needle, p, c, needle[p])
    requires c >= 0 ==> Border(needle, p, c) && needle[c] == needle[p]
    ensures Longest(needle, p + 1, c + 1)
  {
    if c >= 0 { BorderExtends(needle, p, c); }
    var q := p + 1;
    forall k: nat | c + 1 < k < q ensures !Border(needle, q, k) {
      BorderExtends(needle, p, k - 1);
    }
  }

  /** prepare_kmp_partial_table */
  method PartialTable(needle: seq<Byte>) returns (table: array<int>)
    requires |needle| > 0
    ensures table.Length == |needle| && forall j :: 0 <= j < |needle| ==> Strong(needle, j, table[j])
  {
    hide Border, Longest, Strong, Excluded;
    table := new int[|needle|];
    var position: nat, candidate: int := 1, 0;
    table[0] := -1;
    TableStart(needle);
    while position < |needle|
      invariant 1 <= position <= |needle| && 0 <= candidate < position && Longest(needle, position, candidate)
      invariant forall j :: 0 <= j < position ==> Strong(needle, j, table[j])
    {
      if needle[position] == needle[candidate] {
        StrongSame(needle, position, candidate, table[candidate]);
        table[position] := table[candidate];
        LongestIsBorder(needle, position, candidate, needle[position]);
      } else {
        LongestIsBorder(needle, position, candidate, needle[position]);
        table[position] := candidate;
        candidate := Candidate(needle, table, position, candidate);
      }
      NextLongest(needle, position, candidate);
      position, candidate := position + 1, candidate + 1;
    }
  }

  /** The inner do-while: fall back until the border can be extended. */
  method Candidate(needle: seq<Byte>, table: array<int>, position: nat, from: nat) returns (candidate: int)
    requires table.Length == |needle| && from < position < |needle|
    requires forall j :: 0 <= j < position ==> Strong(needle, j, table[j])
    requires Border(needle, position, from) && Excluded(needle, position, from, needle[position])
    requires needle[from] != needle[position]
    ensures -1 <= candidate < position && Excluded(needle, position, candidate, needle[position])
    ensures candidate >= 0 ==> Border(needle, position, candidate) && needle[candidate] == needle[position]
  {
    hide Border, Excluded;
    FallBack(needle, position, from, table[from], needle[position]);
    candidate := table[from];
    while candidate >= 0 && needle[candidate] != needle[position]
      invariant -1 <= candidate < position && Excluded(needle, position, candidate, needle[position])
      invariant candidate >= 0 ==> Border(needle, position, candidate)
      decreases candidate
    {
      FallBack(needle, position, candidate, table[candidate], needle[position]);
      candidate := table[candidate];
    }
  }

  lemma TableStart(needle: seq<Byte>)
    requires |needle| > 0
    ensures Strong(needle, 0, -1) && Longest(needle, 1, 0)
  {
  }

  lemma LongestIsBorder(needle: seq<Byte>, p: nat, c: nat, x: Byte)
    requires p < |needle| && Longest(needle, p, c)
    ensures Border(needle, p, c) && c < p && Excluded(needle, p, c, x)
    ensures needle[c] != needle[p] ==> Strong(needle, p, c)
  {
  }

  // ----- the chunked search -----

  function Flatten(chunks: seq<seq<Byte>>): (h: seq<Byte>) {
    if chunks == [] then [] else Flatten(chunks[..|chunks| - 1]) + chunks[|chunks| - 1]
  }

  lemma {:induction false} FlattenPrefix(chunks: seq<seq<Byte>>, i: nat)
    requires i < |chunks|
    ensures Flatten(chunks[..i + 1]) == Flatten(chunks[..i]) + chunks[i]
    ensures |Flatten(chunks[..i])| + |chunks[i]| <= |Flatten(chunks)|
    ensures Flatten(chunks)[|Flatten(chunks[..i])|..|Flatten(chunks[..i])| + |chunks[i]|] == chunks[i]
    decreases |chunks|
  {
    assert chunks[..i + 1][..i] == chunks[..i];
    var n := |chunks| - 1;
    if i == n {
      assert chunks[..i + 1] == chunks;
    } else {
      FlattenPrefix(chunks[..n], i);
      assert chunks[..n][..i] == chunks[..i];
      assert chunks[..n][i] == chunks[i];
      var a, b := |Flatten(chunks[..i])|, |chunks[i]|;
      assert Flatten(chunks)[a..a + b] == Flatten(chunks[..n])[a..a + b];
    }
  }

  lemma FlattenAt(chunks: seq<seq<Byte>>, i: nat, k: nat)
    requires i < |chunks| && k < |chunks[i]|
    ensures |Flatten(chunks[..i])| + k < |Flatten(chunks)|
    ensures Flatten(chunks)[|Flatten(chunks[..i])| + k] == chunks[i][k]
  {
    hide Flatten;
    FlattenPrefix(chunks, i);
    var a := |Flatten(chunks[..i])|;
    assert Flatten(chunks)[a..a + |chunks[i]|][k] == Flatten(chunks)[a + k];
  }

  /** The first n needle bytes have just been read, and the needle does not start anywhere before them. */
  ghost predicate Matched(haystack: seq<Byte>, needle: seq<Byte>, i: nat, n: nat) {
    && n <= i <= |haystack| && n <= |needle| && haystack[i - n..i] == needle[..n]
    && forall at: nat :: at < i - n ==> !Occurs(haystack, needle, at)
  }

  lemma MatchGrows(haystack: seq<Byte>, needle: seq<Byte>, i: nat, n: nat)
    requires Matched(haystack, needle, i, n) && i < |haystack| && n < |needle| && haystack[i] == needle[n]
    ensures Matched(haystack, needle, i + 1, n + 1)
  {
    assert haystack[i - n..i + 1] == haystack[i - n..i] + [haystack[i]];
    assert needle[..n + 1] == needle[..n] + [needle[n]];
  }

  /** On a mismatch the table entry loses no occurrence. */
  lemma MatchFails(haystack: seq<Byte>, needle: seq<Byte>, i: nat, n: nat, t: int)
    requires Matched(haystack, needle, i, n) && i < |haystack| && n < |needle| && haystack[i] != needle[n]
    requires Strong(needle, n, t)
    ensures if t < 0 then Matched(haystack, needle, i + 1, 0) else Matched(haystack, needle, i, t)
  {
    hide Strong;
    StrongBounds(needle, n, t);
    forall at: nat | at < i - t ensures !Occurs(haystack, needle, at) {
      if at >= i - n { Shifted(haystack, needle, i, n, t, i - at); }
    }
    if t >= 0 {
      assert haystack[i - t..i] == haystack[i - n..i][n - t..];
      assert needle[n - t..n] == needle[..n][n - t..];
    }
  }

  lemma StrongBounds(needle: seq<Byte>, n: nat, t: int)
    requires n < |needle| && Strong(needle, n, t)
    ensures -1 <= t < n && (t >= 0 ==> needle[..t] == needle[n - t..n])
  {
  }

  /** An occurrence that starts k bytes back makes k a border, followed by the byte read. */
  lemma Overlap(haystack: seq<Byte>, needle: seq<Byte>, i: nat, n: nat, k: nat)
    requires Matched(haystack, needle, i, n) && i < |haystack| && k <= n < |needle|
    ensures Occurs(haystack, needle, i - k) ==> needle[k] == haystack[i] && (k < n ==> Border(needle, n, k))
  {
    var at := i - k;
    if Occurs(haystack, needle, at) {
      var x := haystack[at..at + |needle|];
      assert x[k] == haystack[i] && x[..k] == haystack[i - k..i];
      assert haystack[i - k..i] == haystack[i - n..i][n - k..];
      assert needle[n - k..n] == needle[..n][n - k..];
    }
  }

  lemma Shifted(haystack: seq<Byte>, needle: seq<Byte>, i: nat, n: nat, t: int, k: nat)
    requires Matched(haystack, needle, i, n) && i < |haystack| && n < |needle| && haystack[i] != needle[n]
    requires Strong(needle, n, t) && t < k <= n
    ensures !Occurs(haystack, needle, i - k)
  {
    hide Border, Occurs, Matched;
    Overlap(haystack, needle, i, n, k);
  }

  /** memmem over chunks: the least occurrence in their concatenation, however it is cut. */
  method Search(chunks: seq<seq<Byte>>, needle: seq<Byte>) returns (r: Option<nat>)
    requires |needle| > 0
    ensures IsFirst(Flatten(chunks), needle, r)
  {
    hide Flatten, Matched, Strong, Occurs;
    var table := PartialTable(needle);
    var total: nat, current: nat, index: int, it: nat := 0, 0, 0, 0;
    ghost var haystack := Flatten(chunks);
    SearchStart(chunks, needle);
    while it < |chunks|
      invariant it <= |chunks| && 0 <= index < |needle| && (it < |chunks| ==> current <= |chunks[it]|)
      invariant (it == |chunks| ==> current == 0)
      invariant total == |Flatten(chunks[..it])| + current && Matched(haystack, needle, total, index)
      invariant table.Length == |needle| && forall j :: 0 <= j < |needle| ==> Strong(needle, j, table[j])
      decreases |chunks| - it, if it < |chunks| then |chunks[it]| - current else 0, index
    {
      if current >= |chunks[it]| {
        FlattenPrefix(chunks, it);
        current := 0;
        it := it + 1;
        continue;
      }
      FlattenAt(chunks, it, current);
      if needle[index] == chunks[it][current] {
        MatchGrows(haystack, needle, total, index);
        index, current, total := index + 1, current + 1, total + 1;
        if index == |needle| {
          MatchedAll(haystack, needle, total);
          return Some(total - index);
        }
        continue;
      }
      MatchFails(haystack, needle, total, index, table[index]);
      StrongBounds(needle, index, table[index]);
      index := table[index];
      if index < 0 {
        index, current, total := index + 1, current + 1, total + 1;
      }
    }
    SearchEnd(chunks, needle, total, index);
    return None;
  }

  lemma SearchStart(chunks: seq<seq<Byte>>, needle: seq<Byte>)
    ensures Flatten(chunks[..0]) == [] && Matched(Flatten(chunks), needle, 0, 0)
  {
  }

  lemma MatchedAll(haystack: seq<Byte>, needle: seq<Byte>, i: nat)
    requires Matched(haystack, needle, i, |needle|)
    ensures IsFirst(haystack, needle, Some(i - |needle|))
  {
  }

  lemma SearchEnd(chunks: seq<seq<Byte>>, needle: seq<Byte>, total: nat, index: nat)
    requires total == |Flatten(chunks[..|chunks|])| && index < |needle|
    requires Matched(Flatten(chunks), needle, total, index)
    ensures IsFirst(Flatten(chunks), needle, None)
  {
    assert chunks[..|chunks|] == chunks;
  }

  // ----- bitap -----

  /** The first k needle bytes are the last k of the first i haystack bytes. */
  ghost predicate Tail(haystack: seq<Byte>, needle: seq<Byte>, i: nat, k: nat)
    requires i <= |haystack| && k <= |needle|
  {
    k <= i && needle[..k] == haystack[i - k..i]
  }

  lemma TailGrows(haystack: seq<Byte>, needle: seq<Byte>, i: nat, k: nat)
    requires i < |haystack| && k < |needle|
    ensures Tail(haystack, needle, i + 1, k + 1) <==> Tail(haystack, needle, i, k) && needle[k] == haystack[i]
  {
    assert needle[..k + 1] == needle[..k] + [needle[k]];
    if k <= i {
      assert haystack[i - k..i + 1] == haystack[i - k..i] + [haystack[i]];
      if Tail(haystack, needle, i + 1, k + 1) {
        assert needle[..k + 1][..k] == needle[..k] && haystack[i - k..i + 1][..k] == haystack[i - k..i];
        assert needle[..k + 1][k] == needle[k] && haystack[i - k..i + 1][k] == haystack[i];
      }
    }
  }

  /** Bit k of the mask of byte c is clear exactly when the needle holds c at k, among its first n bytes. */
  ghost predicate MaskFor(mask: nat, c: int, needle: seq<Byte>, n: nat)
    requires n <= |needle|
  {
    mask < Pow2(32) && forall k: nat :: k < 32 ==> (Bit(mask, k) <==> !(k < n && needle[k] == c))
  }

  lemma MaskStart(c: int, needle: seq<Byte>)
    ensures MaskFor(Pow2(32) - 1, c, needle, 0)
  {
    hide Pow2, Bit;
    var ones := Pow2(32) - 1;
    forall k: nat | k < 32 ensures Bit(ones, k) {
      BitComplement(0, 32, k);
      BitZero(k);
    }
  }

  lemma MaskStep(mask: nat, c: int, needle: seq<Byte>, n: nat)
    requires n < |needle| < 32 && MaskFor(mask, c, needle, n)
    ensures Pow2(n) < Pow2(32)
    ensures var mask' := if c == needle[n] then BitAnd(mask, Complement(Pow2(n), 32)) else mask;
            MaskFor(mask', c, needle, n + 1)
  {
    hide Pow2, Bit, BitAnd, Complement;
    Pow2Less(n, 32);
    var keep := Complement(Pow2(n), 32);
    BitAndBelow(mask, keep, 32);
    forall k: nat | k < 32 ensures Bit(BitAnd(mask, keep), k) <==> Bit(mask, k) && k != n {
      BitAndBit(mask, keep, k);
      BitComplement(Pow2(n), 32, k);
      BitPow2(n, k);
    }
  }

  lemma {:induction false} Pow2Less(m: nat, n: nat)
    requires m < n
    ensures Pow2(m) < Pow2(n)
  {
    Pow2Mono(m, n - 1);
  }

  lemma {:induction false} BitAndBelow(x: nat, y: nat, n: nat)
    requires x < Pow2(n)
    ensures BitAnd(x, y) < Pow2(n)
  {
    if n > 0 && x > 0 && y > 0 { BitAndBelow(x / 2, y / 2, n - 1); }
  }

  /** Bit k of the state is clear exactly when the first k needle bytes end the scanned haystack. */
  ghost predicate State(lookup: nat, haystack: seq<Byte>, needle: seq<Byte>, i: nat)
    requires i <= |haystack|
  {
    forall k: nat :: k <= |needle| ==> (Bit(lookup, k) <==> !Tail(haystack, needle, i, k))
  }

  lemma StateStart(haystack: seq<Byte>, needle: seq<Byte>)
    requires |needle| < 32
    ensures State(Pow2(32) - 2, haystack, needle, 0)
  {
    hide Pow2, Bit;
    Pow2Zero();
    Pow2Less(0, 32);
    var start: nat := Pow2(32) - 2;
    forall k: nat | k <= |needle| ensures Bit(start, k) <==> !Tail(haystack, needle, 0, k) {
      BitComplement(1, 32, k);
      BitPow2(0, k);
    }
  }

  /** Or-ing the mask in and shifting up by one in 32 bits. */
  lemma StateStep(lookup: nat, mask: nat, haystack: seq<Byte>, needle: seq<Byte>, i: nat)
    requires i < |haystack| && |needle| < 32 && State(lookup, haystack, needle, i)
    requires MaskFor(mask, haystack[i], needle, |needle|)
    ensures State(Low(Shl(BitOr(lookup, mask), 1), 32), haystack, needle, i + 1)
  {
    hide Pow2, Bit, BitOr, Low, Shl, Tail;
    var x := BitOr(lookup, mask);
    forall k: nat | k <= |needle| ensures Bit(Low(Shl(x, 1), 32), k) <==> !Tail(haystack, needle, i + 1, k) {
      BitLow(Shl(x, 1), 32, k);
      BitShifted(x, k);
      if k == 0 {
        TailEmpty(haystack, needle, i + 1);
      } else {
        BitOrBit(lookup, mask, k - 1);
        TailGrows(haystack, needle, i, k - 1);
      }
    }
  }

  lemma BitShifted(x: nat, k: nat)
    ensures Bit(Shl(x, 1), k) == (k > 0 && Bit(x, k - 1))
  {
    BitShl(0, x, 1, k);
    BitZero(k);
  }

  lemma TailEmpty(haystack: seq<Byte>, needle: seq<Byte>, i: nat)
    requires i <= |haystack|
    ensures Tail(haystack, needle, i, 0)
  {
  }

  lemma TailOccurs(haystack: seq<Byte>, needle: seq<Byte>, i: nat)
    requires i <= |haystack|
    ensures Tail(haystack, needle, i, |needle|) <==> i >= |needle| && Occurs(haystack, needle, i - |needle|)
  {
    assert needle[..|needle|] == needle;
  }

  /** The masks of all bytes. */
  method NeedleMasks(needle: seq<Byte>) returns (masks: array<nat>)
    requires |needle| < 32
    ensures masks.Length == 256 && forall c :: 0 <= c < 256 ==> MaskFor(masks[c], c, needle, |needle|)
  {
    hide MaskFor, Pow2, BitAnd, Complement;
    masks := new nat[256];
    for i := 0 to 256
      invariant forall c :: 0 <= c < i ==> MaskFor(masks[c], c, needle, 0)
    {
      MaskStart(i, needle);
      masks[i] := Pow2(32) - 1;
    }
    for i := 0 to |needle|
      invariant forall c :: 0 <= c < 256 ==> MaskFor(masks[c], c, needle, i)
    {
      Pow2Less(i, 32);
      forall c | 0 <= c < 256
        ensures var mask' := if c == needle[i] then BitAnd(masks[c], Complement(Pow2(i), 32)) else masks[c];
                MaskFor(mask', c, needle, i + 1)
      {
        MaskStep(masks[c], c, needle, i);
      }
      masks[needle[i]] := BitAnd(masks[needle[i]], Complement(Pow2(i), 32));
    }
  }

  /** bitap_bitwise: the first occurrence; an empty needle is found at offset 1, in any nonempty haystack. */
  method Bitap(haystack: seq<Byte>, needle: seq<Byte>) returns (r: Option<nat>)
    requires |needle| < 32
    ensures |needle| > 0 ==> IsFirst(haystack, needle, r)
    ensures |needle| == 0 ==> r == if haystack == [] then None else Some(1)
  {
    hide State, MaskFor, Pow2, BitAnd, BitOr, Low, Shl, Bit, Tail, Occurs;
    var masks := NeedleMasks(needle);
    Pow2Less(1, 32);
    var lookup: nat := Pow2(32) - 2;
    StateStart(haystack, needle);
    for i := 0 to |haystack|
      invariant State(lookup, haystack, needle, i)
      invariant forall at: nat :: at + |needle| <= i ==> needle == [] || !Occurs(haystack, needle, at)
      invariant needle == [] ==> i == 0
      invariant masks.Length == 256 && forall c :: 0 <= c < 256 ==> MaskFor(masks[c], c, needle, |needle|)
    {
      StateStep(lookup, masks[haystack[i]], haystack, needle, i);
      lookup := BitOr(lookup, masks[haystack[i]]);
      lookup := Low(Shl(lookup, 1), 32);
      BitTest(lookup, |needle|);
      TailOccurs(haystack, needle, i + 1);
      StateBit(lookup, haystack, needle, i + 1);
      if 0 == BitAnd(lookup, Pow2(|needle|)) {
        return Some(i + 1 - |needle|);
      }
    }
    OccursWithin(haystack, needle);
    return None;
  }

  lemma OccursWithin(haystack: seq<Byte>, needle: seq<Byte>)
    ensures forall at: nat :: Occurs(haystack, needle, at) ==> at + |needle| <= |haystack|
  {
  }

  lemma StateBit(lookup: nat, haystack: seq<Byte>, needle: seq<Byte>, i: nat)
    requires i <= |haystack| && State(lookup, haystack, needle, i)
    ensures Bit(lookup, |needle|) <==> !Tail(haystack, needle, i, |needle|)
    ensures needle == [] ==> Tail(haystack, needle, i, |needle|)
  {
  }

  // ----- the dispatcher -----

  /** memmem_optional agrees with the naive search on all lengths. */
  method Find(haystack: seq<Byte>, needle: seq<Byte>) returns (r: Option<nat>)
    ensures IsFirst(haystack, needle, r)
  {
    if |needle| == 0 {
      return Some(0);
    }
    if |haystack| < |needle| {
      return None;
    }
    if |haystack| == |needle| {
      assert haystack[0..|needle|] == haystack;
      if haystack == needle {
        return Some(0);
      }
      return None;
    }
    if |needle| < 32 {
      r := Bitap(haystack, needle);
      return;
    }
    assert Flatten([haystack]) == haystack;
    r := Search([haystack], needle);
  }
}
