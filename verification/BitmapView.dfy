/**
 AK/BitmapView.h: the search for a run of unset bits that skips whole 64-bit words.
 */
module BitmapView {
  import opened Wrappers
  import opened Bits

  const BUCKET: nat := 64

  datatype BitmapView = BitmapView(data: seq<Byte>, size: nat)

  ghost predicate Valid(view: BitmapView) {
    view.size <= 8 * |view.data|
  }

  /** get: the byte is masked with the bit */
  predicate Get(view: BitmapView, index: nat)
    requires Valid(view) && index < view.size
    ensures Get(view, index) <==> Bit(view.data[index / 8], index % 8)
  {
    BitTest(view.data[index / 8], index % 8);
    0 != BitAnd(view.data[index / 8], Pow2(index % 8))
  }

  /** length consecutive unset bits from i on */
  ghost predicate Run(view: BitmapView, i: nat, length: nat)
    requires Valid(view)
  {
    (length == 0 || i + length <= view.size) && forall k: nat :: i <= k < i + length ==> !Get(view, k)
  }

  /** The lowest run of the length, or none. */
  ghost predicate IsFirstFit(view: BitmapView, length: nat, r: Option<nat>)
    requires Valid(view)
  {
    match r
    case None => forall i: nat :: !Run(view, i, length)
    case Some(i) => Run(view, i, length) && forall j: nat :: j < i ==> !Run(view, j, length)
  }

  // ----- words of the bitmap -----

  lemma {:induction false} WordBit(bytes: seq<Byte>, k: nat)
    requires k < 8 * |bytes|
    ensures Bit(Word(bytes), k) == Bit(bytes[k / 8], k % 8)
  {
    hide Bit;
    assert Pow2(8) == 256;
    BitJoin(bytes[0], Word(bytes[1..]), 8, k);
    if k >= 8 { WordBit(bytes[1..], k - 8); }
  }

  /** The bucket as a native word. */
  function Bucket(view: BitmapView, index: nat): (w: nat)
    requires Valid(view) && BUCKET * (index + 1) <= view.size
    ensures w < Pow2(BUCKET)
  {
    WordBelow(view.data[8 * index..8 * index + 8]);
    Word(view.data[8 * index..8 * index + 8])
  }

  lemma BucketBit(view: BitmapView, index: nat, k: nat)
    requires Valid(view) && BUCKET * (index + 1) <= view.size && k < BUCKET
    ensures Bit(Bucket(view, index), k) == Get(view, BUCKET * index + k)
  {
    hide Bit, Word, Get;
    var bytes := view.data[8 * index..8 * index + 8];
    WordBit(bytes, k);
    BucketIndex(index, k);
  }

  lemma BucketIndex(index: nat, k: nat)
    ensures (BUCKET * index + k) / 8 == 8 * index + k / 8 && (BUCKET * index + k) % 8 == k % 8
  {
  }

  lemma {:induction false} BitShr(x: nat, n: nat, k: nat)
    ensures Bit(Shr(x, n), k) == Bit(x, n + k)
  {
    if n > 0 { BitShr(x / 2, n - 1, k); }
  }

  /** count_trailing_zeroes of a nonzero word */
  function CountTrailingZeroes(x: nat): (n: nat)
    requires x > 0
    ensures Bit(x, n) && forall k: nat :: k < n ==> !Bit(x, k)
  {
    if x % 2 == 1 then 0
    else
      var n := CountTrailingZeroes(x / 2);
      assert forall k: nat :: k < n + 1 ==> !Bit(x, k) by {
        forall k: nat | k < n + 1 ensures !Bit(x, k) {
          if k > 0 { assert !Bit(x / 2, k - 1); }
        }
      }
      n + 1
  }


  // ----- the scan -----

  /** The bits from first to pos are scanned; the last `free` of them are unset, and no run starts before those. */
  ghost predicate Scan(view: BitmapView, minLength: nat, first: nat, pos: nat, start: nat, free: nat)
    requires Valid(view)
  {
    && first + free <= pos <= view.size && (free > 0 ==> start == pos - free)
    && (minLength == 0 ==> free == pos - first && start == first)
    && (forall k: nat :: pos - free <= k < pos ==> !Get(view, k))
    && forall i: nat :: first <= i < pos - free ==> !Run(view, i, minLength)
  }

  /** n unset bits make the run longer. */
  lemma ScanUnset(view: BitmapView, minLength: nat, first: nat, pos: nat, start: nat, free: nat, n: nat)
    requires Valid(view) && Scan(view, minLength, first, pos, start, free) && Run(view, pos, n)
    ensures Scan(view, minLength, first, pos + n, if free == 0 then pos else start, free + n)
  {
    hide Get;
  }

  /** Set bits end a run that is too short. */
  lemma ScanSet(view: BitmapView, minLength: nat, first: nat, pos: nat, start: nat, free: nat, n: nat)
    requires Valid(view) && Scan(view, minLength, first, pos, start, free) && free < minLength && n > 0
    requires pos + n <= view.size && forall k: nat :: pos <= k < pos + n ==> Get(view, k)
    ensures Scan(view, minLength, first, pos + n, start, 0)
  {
    hide Get;
    forall i: nat | first <= i < pos + n ensures !Run(view, i, minLength) {
      assert Get(view, if i < pos then pos else i);
    }
  }

  /** The bits in whole words. */
  function WholeWords(view: BitmapView): nat { view.size / BUCKET * BUCKET }

  /**
   How long the returned range is: within the whole words it goes on to the maximum, to a set bit or to the end of
   those words; if it reaches into the bits behind them it has the minimum length.
   */
  ghost predicate Measured(view: BitmapView, minLength: nat, maxLength: nat, end: nat, length: nat)
    requires Valid(view)
  {
    if end <= WholeWords(view) then length >= maxLength || end == WholeWords(view) || Get(view, end)
    else length == minLength
  }

  /** The first run of the minimum length at or after first, cut at the maximum, or none. */
  ghost predicate IsNextRange(view: BitmapView, minLength: nat, maxLength: nat, first: nat, length: Option<nat>,
                              start: nat)
    requires Valid(view)
  {
    match length
    case None => forall i: nat :: first <= i ==> !Run(view, i, minLength)
    case Some(n) =>
      && first <= start && minLength <= n <= maxLength && Run(view, start, n)
      && Measured(view, minLength, maxLength, start + n, n)
      && forall i: nat :: first <= i < start ==> !Run(view, i, minLength)
  }

  lemma ScanFound(view: BitmapView, minLength: nat, maxLength: nat, first: nat, pos: nat, start: nat, free: nat)
    requires Valid(view) && Scan(view, minLength, first, pos, start, free)
    requires minLength <= free && minLength <= maxLength && Measured(view, minLength, maxLength, pos, free)
    ensures IsNextRange(view, minLength, maxLength, first, Some(Min(free, maxLength)), start)
  {
    hide Get;
  }

  // ----- one bucket -----

  lemma BucketFull(view: BitmapView, index: nat)
    requires Valid(view) && BUCKET * (index + 1) <= view.size && Bucket(view, index) == Pow2(BUCKET) - 1
    ensures forall k: nat :: BUCKET * index <= k < BUCKET * index + BUCKET ==> Get(view, k)
  {
    hide Bucket, Get, Bit, Pow2;
    var from := BUCKET * index;
    forall k: nat | from <= k < from + BUCKET ensures Get(view, k) {
      BucketBit(view, index, k - from);
      BitComplement(0, BUCKET, k - from);
      BitZero(k - from);
    }
  }

  /** Nothing is set in what is left of the bucket. */
  lemma RestEmpty(view: BitmapView, index: nat, viewed: nat)
    requires Valid(view) && BUCKET * (index + 1) <= view.size && viewed <= BUCKET
    requires Shr(Bucket(view, index), viewed) == 0
    ensures Run(view, BUCKET * index + viewed, BUCKET - viewed)
  {
    hide Bucket, Get, Bit, Shr;
    var from := BUCKET * index;
    forall k: nat | from + viewed <= k < from + BUCKET ensures !Get(view, k) {
      BucketBit(view, index, k - from);
      BitShr(Bucket(view, index), viewed, k - from - viewed);
      BitZero(k - from - viewed);
    }
  }

  /** Counting trailing zeroes counts unset bits, up to a set one. */
  lemma TrailingUnset(view: BitmapView, index: nat, viewed: nat)
    requires Valid(view) && BUCKET * (index + 1) <= view.size && viewed <= BUCKET
    requires Shr(Bucket(view, index), viewed) > 0
    ensures var n := CountTrailingZeroes(Shr(Bucket(view, index), viewed));
            viewed + n < BUCKET && Run(view, BUCKET * index + viewed, n) && Bit(Bucket(view, index), viewed + n)
  {
    hide Bucket, Get, Bit, Shr, CountTrailingZeroes, Pow2;
    var from, bucket := BUCKET * index, Bucket(view, index);
    var n := CountTrailingZeroes(Shr(bucket, viewed));
    BitShr(bucket, viewed, n);
    if viewed + n >= BUCKET { BitAbove(bucket, BUCKET, viewed + n); }
    forall k: nat | from + viewed <= k < from + viewed + n ensures !Get(view, k) {
      BucketBit(view, index, k - from);
      BitShr(bucket, viewed, k - from - viewed);
    }
  }

  /** Counting trailing zeroes of the complement counts set bits. */
  lemma TrailingSet(view: BitmapView, index: nat, viewed: nat)
    requires Valid(view) && BUCKET * (index + 1) <= view.size && viewed < BUCKET
    requires Bucket(view, index) != Pow2(BUCKET) - 1 && Bit(Bucket(view, index), viewed)
    ensures Shr(Bucket(view, index), viewed) < Pow2(BUCKET) - 1
    ensures var n := CountTrailingZeroes(Complement(Shr(Bucket(view, index), viewed), BUCKET));
            && 0 < n && viewed + n <= BUCKET
            && forall k: nat :: BUCKET * index + viewed <= k < BUCKET * index + viewed + n ==> Get(view, k)
  {
    hide Bucket, Get, Bit, Shr, CountTrailingZeroes, Complement, Pow2;
    var from, bucket := BUCKET * index, Bucket(view, index);
    var rest := Shr(bucket, viewed);
    RestBelow(bucket, viewed);
    ComplementPositive(rest);
    var n := CountTrailingZeroes(Complement(rest, BUCKET));
    OnesWithin(rest, viewed, n);
    BitShr(bucket, viewed, 0);
    forall k: nat | from + viewed <= k < from + viewed + n ensures Get(view, k) {
      BucketBit(view, index, k - from);
      BitShr(bucket, viewed, k - from - viewed);
      BitComplement(rest, BUCKET, k - from - viewed);
    }
    if n == 0 { BitComplement(rest, BUCKET, 0); }
  }

  lemma ComplementPositive(x: nat)
    requires x < Pow2(BUCKET) - 1
    ensures 0 < Complement(x, BUCKET) < Pow2(BUCKET)
  {
  }

  lemma RestBelow(bucket: nat, viewed: nat)
    requires bucket < Pow2(BUCKET) - 1 && viewed < BUCKET
    ensures Shr(bucket, viewed) < Pow2(BUCKET - viewed) && Shr(bucket, viewed) < Pow2(BUCKET) - 1
  {
    hide Pow2, Shr;
    ShrBelow(bucket, viewed, BUCKET - viewed);
    if viewed == 0 {
      ShrNothing(bucket);
    } else {
      Pow2Mono(BUCKET - viewed, BUCKET - 1);
      TwiceHalf();
    }
  }

  lemma ShrNothing(x: nat)
    ensures Shr(x, 0) == x
  {
  }

  lemma TwiceHalf()
    ensures Pow2(BUCKET) == 2 * Pow2(BUCKET - 1)
  {
  }

  /** The trailing ones end at the top of the rest at the latest. */
  lemma OnesWithin(rest: nat, viewed: nat, n: nat)
    requires viewed < BUCKET && rest < Pow2(BUCKET - viewed) && rest < Pow2(BUCKET) - 1
    requires n == CountTrailingZeroes((ComplementPositive(rest); Complement(rest, BUCKET)))
    ensures viewed + n <= BUCKET
  {
    hide Bit, CountTrailingZeroes, Complement, Pow2;
    ComplementPositive(rest);
    var m := BUCKET - viewed;
    if n > m {
      if m < BUCKET {
        BitComplement(rest, BUCKET, m);
        BitAbove(rest, m, m);
      } else {
        BitAbove(Complement(rest, BUCKET), BUCKET, n);
      }
    }
  }

  /** The scan of a bucket that is neither full nor empty, from one of its bits on. */
  method ScanBucket(view: BitmapView, minLength: nat, maxLength: nat, index: nat, startBit: nat, start: nat, free: nat,
                    ghost first: nat) returns (found: Option<nat>, start': nat, free': nat)
    requires Valid(view) && BUCKET * (index + 1) <= view.size && minLength <= maxLength && startBit < BUCKET
    requires Bucket(view, index) != Pow2(BUCKET) - 1
    requires Scan(view, minLength, first, BUCKET * index + startBit, start, free)
    ensures found.Some? ==> IsNextRange(view, minLength, maxLength, first, found, start')
    ensures found.None? ==> Scan(view, minLength, first, BUCKET * (index + 1), start', free')
  {
    hide Bucket, Get, Bit, Shr, CountTrailingZeroes, Complement, Pow2, Scan, IsNextRange, Run;
    WordWithin(view, index);
    start', free' := start, free;
    var bucket, viewed := Shr(Bucket(view, index), startBit), startBit;
    ghost var whole, from := Bucket(view, index), BUCKET * index;
    while viewed < BUCKET
      invariant viewed <= BUCKET && bucket == Shr(whole, viewed)
      invariant Scan(view, minLength, first, from + viewed, start', free')
    {
      ScanStart(view, minLength, first, from + viewed, start', free');
      if bucket == 0 {
        RestEmpty(view, index, viewed);
        ScanUnset(view, minLength, first, from + viewed, start', free', BUCKET - viewed);
        if free' == 0 {
          start' := index * BUCKET + viewed;
        }
        free' := free' + (BUCKET - viewed);
        ShrMore(whole, viewed, BUCKET - viewed);
        ShrZero(BUCKET - viewed);
        viewed := BUCKET;
      } else {
        TrailingUnset(view, index, viewed);
        var zeroes := CountTrailingZeroes(bucket);
        ScanUnset(view, minLength, first, from + viewed, start', free', zeroes);
        ShrMore(whole, viewed, zeroes);
        bucket := Shr(bucket, zeroes);
        if free' == 0 {
          start' := index * BUCKET + viewed;
        }
        free' := free' + zeroes;
        viewed := viewed + zeroes;
        if free' >= minLength {
          BucketBit(view, index, viewed);
          ScanFound(view, minLength, maxLength, first, from + viewed, start', free');
          found := Some(Min(free', maxLength));
          return;
        }
        TrailingSet(view, index, viewed);
        ComplementPositive(bucket);
        var ones := CountTrailingZeroes(Complement(bucket, BUCKET));
        ScanSet(view, minLength, first, from + viewed, start', free', ones);
        ShrMore(whole, viewed, ones);
        bucket := Shr(bucket, ones);
        viewed := viewed + ones;
        free' := 0;
      }
    }
    found := None;
  }

  lemma WordWithin(view: BitmapView, index: nat)
    requires BUCKET * (index + 1) <= view.size
    ensures BUCKET * (index + 1) <= WholeWords(view)
  {
  }

  lemma ScanStart(view: BitmapView, minLength: nat, first: nat, pos: nat, start: nat, free: nat)
    requires Valid(view) && Scan(view, minLength, first, pos, start, free)
    ensures free <= pos
  {
  }

  lemma {:induction false} ShrZero(n: nat)
    ensures Shr(0, n) == 0
  {
    if n > 0 { ShrZero(n - 1); }
  }

  lemma ShrMore(x: nat, m: nat, n: nat)
    ensures Shr(Shr(x, m), n) == Shr(x, m + n)
  {
    ShrShr(x, m, n);
  }

  // ----- the whole search -----

  /**
   The bit at which the search really starts: the beginning of the word when that is empty, and the first
   bit behind the whole words when the position lies there.
   */
  ghost function ScanFrom(view: BitmapView, minLength: nat, from: nat): (first: nat)
    requires Valid(view)
    ensures first <= from
  {
    var word := from / BUCKET * BUCKET;
    if word >= WholeWords(view) then (if minLength == 0 then from else WholeWords(view))
    else if Run(view, word, BUCKET) then word
    else from
  }

  /** A word is zero exactly when it is a run. */
  lemma BucketEmpty(view: BitmapView, index: nat)
    requires Valid(view) && BUCKET * (index + 1) <= view.size
    ensures Bucket(view, index) == 0 <==> Run(view, BUCKET * index, BUCKET)
  {
    hide Bucket, Get, Bit, Shr, CountTrailingZeroes, Pow2;
    ShrNothing(Bucket(view, index));
    if Bucket(view, index) == 0 {
      RestEmpty(view, index, 0);
    } else {
      var k := CountTrailingZeroes(Bucket(view, index));
      TrailingUnset(view, index, 0);
      BucketBit(view, index, k);
    }
  }

  /** find_next_range_of_unset_bits: the first run at or after `ScanFrom`, which is not always the given position. */
  method FindNextRange(view: BitmapView, from: nat, minLength: nat, maxLength: nat)
    returns (length: Option<nat>, start: nat)
    requires Valid(view)
    ensures minLength > maxLength ==> length == None
    ensures minLength <= maxLength ==>
              var word, words := from / 64 * 64, view.size / 64 * 64;
              IsNextRange(view, minLength, maxLength,
                          if word < words then (if Run(view, word, 64) then word else from)
                          else if minLength > 0 then words else from,
                          length, start)
    ensures minLength <= maxLength ==>
              (IsNextRange(view, minLength, maxLength, from, length, start) <==>
               forall i: nat :: ScanFrom(view, minLength, from) <= i < from ==> !Run(view, i, minLength))
  {
    hide Bucket, Get, Pow2, IsNextRange, Run;
    if minLength > maxLength {
      return None, from;
    }
    length, start := ScanBuckets(view, from, minLength, maxLength);
    FromRespected(view, minLength, maxLength, ScanFrom(view, minLength, from), from, length, start);
  }

  /** A run between the real start and the given position is the only thing that can go wrong. */
  lemma FromRespected(view: BitmapView, minLength: nat, maxLength: nat, first: nat, from: nat, length: Option<nat>,
                      start: nat)
    requires Valid(view) && first <= from && IsNextRange(view, minLength, maxLength, first, length, start)
    ensures IsNextRange(view, minLength, maxLength, from, length, start)
        <==> forall i: nat :: first <= i < from ==> !Run(view, i, minLength)
  {
    hide Run;
    if length.Some? && start < from {
      RunShorter(view, start, length.value, minLength);
    }
  }

  lemma RunShorter(view: BitmapView, i: nat, length: nat, n: nat)
    requires Valid(view) && Run(view, i, length) && n <= length
    ensures Run(view, i, n)
  {
  }

  /** The loop over the whole words. */
  method ScanBuckets(view: BitmapView, from: nat, minLength: nat, maxLength: nat)
    returns (length: Option<nat>, start: nat)
    requires Valid(view) && minLength <= maxLength
    ensures IsNextRange(view, minLength, maxLength, ScanFrom(view, minLength, from), length, start)
  {
    hide Bucket, Get, Pow2, Scan, IsNextRange, Run;
    var buckets := view.size / BUCKET;
    var index, startBit := from / BUCKET, from % BUCKET;
    var free: nat := 0;
    ghost var begin, first := index, ScanFrom(view, minLength, from);
    start := from;
    TwiceHalf();
    if index >= buckets {
      if minLength > 0 {
        ScanNothing(view, minLength, first, start);
      } else {
        NothingNeeded(view, maxLength, from);
      }
    }
    while index < buckets
      invariant begin <= index
      invariant index == begin ==> free == 0 && start == from && startBit == from % BUCKET
      invariant index > begin ==> startBit == 0 && Scan(view, minLength, first, BUCKET * index, start, free)
      invariant begin < buckets ==> index <= buckets
      invariant begin >= buckets ==> index == begin
    {
      var bucket := Bucket(view, index);
      BucketEmpty(view, index);
      WordWithin(view, index);
      ghost var pos, s := BUCKET * index + (if bucket == 0 then 0 else startBit), start;
      if index == begin {
        s := first;
        ScanNothing(view, minLength, first, first);
      }
      assert Scan(view, minLength, first, pos, s, free);
      if bucket == Pow2(BUCKET) - 1 {
        BucketFull(view, index);
        if free >= minLength {
          ScanFound(view, minLength, maxLength, first, pos, start, free);
          return Some(Min(free, maxLength)), start;
        }
        ScanSet(view, minLength, first, pos, start, free, BUCKET - startBit);
        free, startBit := 0, 0;
      } else if bucket == 0 {
        ShrNothing(bucket);
        RestEmpty(view, index, 0);
        ScanUnset(view, minLength, first, pos, s, free, BUCKET);
        if free == 0 {
          start := index * BUCKET;
        }
        free := free + BUCKET;
        if free >= maxLength {
          ScanFound(view, minLength, maxLength, first, pos + BUCKET, start, free);
          return Some(maxLength), start;
        }
        startBit := 0;
      } else {
        length, start, free := ScanBucket(view, minLength, maxLength, index, startBit, start, free, first);
        if length.Some? {
          return;
        }
        startBit := 0;
      }
      index := index + 1;
    }
    if free < minLength {
      length, start := ScanTrailing(view, minLength, maxLength, start, free, first);
    } else {
      if begin < buckets { ScanFound(view, minLength, maxLength, first, BUCKET * buckets, start, free); }
      length := Some(Min(free, maxLength));
    }
  }

  /** The bits behind the whole words, one by one. */
  method ScanTrailing(view: BitmapView, minLength: nat, maxLength: nat, from: nat, free: nat, ghost first: nat)
    returns (length: Option<nat>, start: nat)
    requires Valid(view) && free < minLength <= maxLength
    requires Scan(view, minLength, first, view.size / BUCKET * BUCKET, from, free)
    ensures IsNextRange(view, minLength, maxLength, first, length, start)
  {
    hide Get, Scan, IsNextRange, Run;
    var begin, trailing := view.size / BUCKET * BUCKET, view.size % BUCKET;
    var free': nat := free;
    start := from;
    for i := 0 to trailing
      invariant Scan(view, minLength, first, begin + i, start, free') && free' < minLength
    {
      if !Get(view, begin + i) {
        RunOne(view, begin + i);
        ScanUnset(view, minLength, first, begin + i, start, free', 1);
        if free' == 0 {
          start := begin + i;
        }
        free' := free' + 1;
        if free' >= minLength {
          ScanFound(view, minLength, maxLength, first, begin + i + 1, start, free');
          return Some(Min(free', maxLength)), start;
        }
      } else {
        ScanSet(view, minLength, first, begin + i, start, free', 1);
        free' := 0;
      }
    }
    ScanEnd(view, minLength, maxLength, first, start, free');
    return None, start;
  }

  lemma ScanNothing(view: BitmapView, minLength: nat, first: nat, start: nat)
    requires Valid(view) && first <= view.size && (minLength == 0 ==> start == first)
    ensures Scan(view, minLength, first, first, start, 0)
  {
  }

  lemma NothingNeeded(view: BitmapView, maxLength: nat, from: nat)
    requires Valid(view) && from >= WholeWords(view)
    ensures IsNextRange(view, 0, maxLength, from, Some(0), from)
  {
  }

  lemma RunOne(view: BitmapView, i: nat)
    requires Valid(view) && i < view.size && !Get(view, i)
    ensures Run(view, i, 1)
  {
  }

  lemma ScanEnd(view: BitmapView, minLength: nat, maxLength: nat, first: nat, start: nat, free: nat)
    requires Valid(view) && Scan(view, minLength, first, view.size, start, free) && free < minLength
    ensures IsNextRange(view, minLength, maxLength, first, None, start)
  {
  }

  /** find_first_fit: the lowest run of the length, across words of any kind, or none exactly when there is none. */
  method FindFirstFit(view: BitmapView, minimumLength: nat) returns (r: Option<nat>)
    requires Valid(view)
    ensures IsFirstFit(view, minimumLength, r)
  {
    hide Get;
    var length, start := FindNextRange(view, 0, minimumLength, minimumLength);
    r := if length.Some? then Some(start) else None;
  }

  /** One empty word, searched from its bit 1 on: the run found starts at bit 0. */
  method EmptyWordExample() returns (start: nat)
    ensures start == 0
  {
    hide Get;
    var view := BitmapView([0, 0, 0, 0, 0, 0, 0, 0], 64);
    EmptyWord(view);
    var length: Option<nat>;
    length, start := FindNextRange(view, 1, 1, 1);
  }

  lemma EmptyWord(view: BitmapView)
    requires view == BitmapView([0, 0, 0, 0, 0, 0, 0, 0], 64)
    ensures Run(view, 0, 64) && Run(view, 0, 1)
  {
    assert view.data[0..8] == view.data;
    assert forall k :: 0 <= k < 8 ==> view.data[k] == 0;
    WordZeros(view.data);
    BucketEmpty(view, 0);
  }

  lemma {:induction false} WordZeros(bytes: seq<Byte>)
    requires forall k :: 0 <= k < |bytes| ==> bytes[k] == 0
    ensures Word(bytes) == 0
  {
    if bytes != [] { WordZeros(bytes[1..]); }
  }
}
