/**
 AK/CircularBuffer.cpp: a ring array with seekback.  Its abstract value is the history of
 all bytes written since the last clear, together with the number of unread bytes.
 */
module CircularBuffer {
  import opened Wrappers
  import opened Words
  import opened Bits

  // ----- ring positions -----

  /** p modulo cap: the slot of history position p. */
  function Slot(p: nat, cap: nat): (i: nat)
    requires cap > 0
    ensures i < cap
  {
    if p < cap then p else Slot(p - cap, cap)
  }

  lemma {:induction false} SlotIsMod(p: nat, cap: nat)
    requires cap > 0
    ensures Slot(p, cap) == p % cap
  {
    if p < cap {
      DivModUnique(p, cap, 0, p);
    } else {
      SlotIsMod(p - cap, cap);
      var q := (p - cap) / cap;
      assert cap * (q + 1) == cap * q + cap;
      DivModUnique(p, cap, q + 1, (p - cap) % cap);
    }
  }

  lemma {:induction false} SlotAdd(p: nat, i: nat, cap: nat)
    requires cap > 0 && i <= cap
    ensures Slot(p + i, cap) == if Slot(p, cap) + i < cap then Slot(p, cap) + i else Slot(p, cap) + i - cap
  {
    if p >= cap { SlotAdd(p - cap, i, cap); }
  }

  lemma SlotsDiffer(p: nat, q: nat, cap: nat)
    requires cap > 0 && p < q < p + cap
    ensures Slot(p, cap) != Slot(q, cap)
  {
    SlotAdd(p, q - p, cap);
  }

  /** The ring holds the most recent bytes of the history. */
  ghost predicate Holds(ring: seq<Byte>, history: seq<Byte>) {
    |ring| > 0 && forall p :: 0 <= p < |history| && |history| <= p + |ring| ==> ring[Slot(p, |ring|)] == history[p]
  }

  /** A contiguous piece of the ring is a piece of the history. */
  lemma RingPiece(ring: seq<Byte>, history: seq<Byte>, p: nat, n: nat)
    requires Holds(ring, history) && p + n <= |history| <= p + |ring| && Slot(p, |ring|) + n <= |ring|
    ensures ring[Slot(p, |ring|)..Slot(p, |ring|) + n] == history[p..p + n]
  {
    hide Slot;
    var x, y := ring[Slot(p, |ring|)..Slot(p, |ring|) + n], history[p..p + n];
    forall i | 0 <= i < n ensures x[i] == y[i] {
      SlotAdd(p, i, |ring|);
      assert y[i] == history[p + i];
    }
  }

  /** Overwriting the oldest slots appends to the history. */
  lemma RingAppend(ring: seq<Byte>, ring': seq<Byte>, history: seq<Byte>, bytes: seq<Byte>)
    requires Holds(ring, history) && |ring'| == |ring| && Slot(|history|, |ring|) + |bytes| <= |ring|
    requires forall i :: 0 <= i < |ring| ==>
               ring'[i] ==
                 if Slot(|history|, |ring|) <= i < Slot(|history|, |ring|) + |bytes|
                 then bytes[i - Slot(|history|, |ring|)] else ring[i]
    ensures Holds(ring', history + bytes)
  {
    hide Slot;
    var cap, h := |ring|, |history|;
    forall p | 0 <= p < h + |bytes| && h + |bytes| <= p + cap ensures ring'[Slot(p, cap)] == (history + bytes)[p] {
      AppendSlot(h, |bytes|, cap, p);
      if p < h {
        assert ring'[Slot(p, cap)] == ring[Slot(p, cap)] == history[p];
      } else {
        assert ring'[Slot(p, cap)] == bytes[p - h];
      }
    }
  }

  /** Where position p lies when n bytes are written behind position h. */
  lemma AppendSlot(h: nat, n: nat, cap: nat, p: nat)
    requires cap > 0 && Slot(h, cap) + n <= cap && p < h + n <= p + cap
    ensures if p < h then !(Slot(h, cap) <= Slot(p, cap) < Slot(h, cap) + n) else Slot(p, cap) == Slot(h, cap) + (p - h)
  {
    hide Slot;
    if p < h {
      SlotAdd(p, h - p, cap);
    } else {
      SlotAdd(h, p - h, cap);
    }
  }

  // ----- the byte-by-byte seekback copy -----

  /** LZ77: each new byte repeats the byte `distance` before it. */
  function LzCopy(history: seq<Byte>, distance: nat, length: nat): (h: seq<Byte>)
    requires 0 < distance <= |history|
    ensures |h| == |history| + length
  {
    if length == 0 then history
    else
      var h := LzCopy(history, distance, length - 1);
      h + [h[|h| - distance]]
  }

  /** h extends h0 by bytes that each repeat the one `distance` before. */
  ghost predicate Repeats(h0: seq<Byte>, h: seq<Byte>, distance: nat) {
    && 0 < distance <= |h0| <= |h| && h[..|h0|] == h0
    && forall p :: |h0| <= p < |h| ==> h[p] == h[p - distance]
  }

  lemma RepeatsMeaning(h0: seq<Byte>, h: seq<Byte>, distance: nat)
    requires Repeats(h0, h, distance)
    ensures 0 < distance <= |h0| <= |h| && h[..|h0|] == h0
    ensures forall p :: |h0| <= p < |h| ==> h[p] == h[p - distance]
  {
  }

  lemma {:induction false} RepeatsIsLzCopy(h0: seq<Byte>, h: seq<Byte>, distance: nat)
    requires Repeats(h0, h, distance)
    ensures h == LzCopy(h0, distance, |h| - |h0|)
    decreases |h|
  {
    if |h| == |h0| {
      assert h == h[..|h0|];
    } else {
      var n := |h| - 1;
      assert h[..n][..|h0|] == h0;
      RepeatsIsLzCopy(h0, h[..n], distance);
      assert h == h[..n] + [h[n]];
    }
  }

  /** Whole multiples of the distance repeat too. */
  lemma {:induction false} RepeatsMultiple(h0: seq<Byte>, h: seq<Byte>, distance: nat, x: nat, k: nat)
    requires Repeats(h0, h, distance) && |h0| <= x + distance && x + k * distance < |h|
    ensures h[x + k * distance] == h[x]
  {
    if k > 0 {
      assert (k - 1) * distance == k * distance - distance && (k - 1) * distance >= 0;
      RepeatsMultiple(h0, h, distance, x, k - 1);
    }
  }

  /** Copying from any reachable multiple of the distance continues the repetition. */
  lemma RepeatsChunk(h0: seq<Byte>, h: seq<Byte>, distance: nat, c: nat, n: nat)
    requires Repeats(h0, h, distance) && c > 0 && n <= c * distance <= distance + (|h| - |h0|)
    ensures c * distance <= |h| && Repeats(h0, h + h[|h| - c * distance..|h| - c * distance + n], distance)
  {
    var d := c * distance;
    assert d <= |h|;
    var h' := h + h[|h| - d..|h| - d + n];
    assert h'[..|h0|] == h[..|h0|];
    forall p | |h0| <= p < |h'| ensures h'[p] == h'[p - distance] {
      if p < |h| {
        assert h'[p] == h[p] == h[p - distance] == h'[p - distance];
      } else {
        var i := p - |h|;
        var y := |h| - d + i;
        assert h'[p] == h[y];
        if i < distance {
          assert h'[p - distance] == h[p - distance];
          ChunkByte(h0, h, distance, c, i);
        } else {
          assert h'[p - distance] == h[y - distance];
          assert h[y] == h[y - distance];
        }
      }
    }
  }

  lemma ChunkByte(h0: seq<Byte>, h: seq<Byte>, distance: nat, c: nat, i: nat)
    requires Repeats(h0, h, distance) && c > 0 && c * distance <= distance + (|h| - |h0|) && i < distance
    ensures 0 <= |h| - c * distance && h[|h| - c * distance + i] == h[|h| + i - distance]
  {
    var x := |h| - c * distance + i;
    assert x + (c - 1) * distance == |h| + i - distance;
    RepeatsMultiple(h0, h, distance, x, c - 1);
  }

  // ----- when the copy outruns the seekback limit -----

  /** What one round copies: up to the distance, the end of the ring, the room and the length. */
  function Chunk(start: nat, d: nat, cap: nat, room: nat, length: nat): (n: nat)
    requires start < cap
    ensures n <= d && n <= length && n <= room && start + n <= cap
    ensures n == 0 <==> d == 0 || length == 0 || room == 0
  {
    Min(Min(Min(cap - start, d), length), room)
  }

  /** The largest doubling of the distance that the ring can still seek back. */
  function LastDoubling(d: nat, cap: nat): (t: nat)
    requires 0 < d <= cap
    ensures d <= t <= cap < 2 * t
    decreases cap - d
  {
    if 2 * d > cap then d else LastDoubling(2 * d, cap)
  }

  /**
   The copy doubles its distance once too often.  Before that it copies 2t - d bytes, and
   the bytes up to the end of the ring on top when the span of t bytes would wrap around.
   */
  predicate Overruns(start: nat, d: nat, cap: nat, room: nat, length: nat)
    requires start < cap && 0 < d <= cap
  {
    var t := LastDoubling(d, cap);
    var copied := 2 * t - d + if start + t > cap then cap - start else 0;
    copied < room && copied + t < length
  }

  lemma {:induction false} LastDoublingIs(d: nat, cap: nat, k: nat)
    requires 0 < d && d * Pow2(k) <= cap < 2 * (d * Pow2(k))
    ensures d <= cap && LastDoubling(d, cap) == d * Pow2(k)
    decreases k
  {
    if k > 0 {
      assert d * Pow2(k) == (2 * d) * Pow2(k - 1);
      LastDoublingIs(2 * d, cap, k - 1);
    }
  }

  /**
   With t the largest of d, 2d, 4d, ... that the ring can seek back, the doubling to 2t comes after 2t - d copied
   bytes, later if a span of t wraps around; it is harmful when room is left and more than t bytes are asked for.
   */
  lemma OverrunsExactly(start: nat, d: nat, cap: nat, room: nat, length: nat, k: nat)
    requires start < cap && 0 < d && d * Pow2(k) <= cap < 2 * (d * Pow2(k))
    ensures d <= cap
    ensures var t := d * Pow2(k); var copied := 2 * t - d + if start + t > cap then cap - start else 0;
            Overruns(start, d, cap, room, length) <==> copied < room && copied + t < length
  {
    LastDoublingIs(d, cap, k);
  }

  lemma OverrunsTooLong(start: nat, d: nat, cap: nat, room: nat, length: nat)
    requires start < cap && 0 < d <= cap
    ensures Overruns(start, d, cap, room, length) ==> room > 0 && cap < length
  {
  }

  /** One round keeps the verdict. */
  lemma OverrunsStep(start: nat, d: nat, cap: nat, room: nat, length: nat)
    requires start < cap && 0 < d <= cap && 0 < room <= cap && length > 0
    ensures var n := Chunk(start, d, cap, room, length);
            var before, next := Overruns(start, d, cap, room, length), if start + n < cap then start + n else 0;
            if n == d && length - n > d then
              (if 2 * d > cap then before <==> room > n
               else before <==> Overruns(start, 2 * d, cap, room - n, length - n))
            else before <==> Overruns(next, d, cap, room - n, length - n)
  {
  }

  /** The history repeats at the distance, d is a multiple of it, and the verdict is unchanged. */
  ghost predicate Copying(h0: seq<Byte>, h: seq<Byte>, distance: nat, d: nat, factor: nat, start: nat, cap: nat,
                          room: nat, remaining: nat, trapped: bool) {
    && Repeats(h0, h, distance) && factor > 0 && d == factor * distance
    && 0 < distance <= d <= distance + (|h| - |h0|) && cap > 0
    && (d <= cap ==> start == Slot(|h| - d, cap) && trapped == Overruns(start, d, cap, room, remaining))
    && (d > cap ==> trapped == (remaining > 0 && room > 0))
  }

  lemma CopyingStep(h0: seq<Byte>, h: seq<Byte>, distance: nat, d: nat, factor: nat, start: nat, cap: nat, room: nat,
                    remaining: nat, trapped: bool)
    requires Copying(h0, h, distance, d, factor, start, cap, room, remaining, trapped)
    requires d <= cap && 0 < room <= cap && remaining > 0
    ensures 0 < d <= |h| && start == Slot(|h| - d, cap)
    ensures var n := Chunk(start, d, cap, room, remaining); var h' := h + h[|h| - d..|h| - d + n];
            if remaining - n > d && n == d
            then Copying(h0, h', distance, d * 2, factor * 2, start, cap, room - n, remaining - n, trapped)
            else Copying(h0, h', distance, d, factor, Slot(|h| + n - d, cap), cap, room - n, remaining - n, trapped)
  {
    hide Slot, Repeats, Overruns, Chunk, LastDoubling;
    var n := Chunk(start, d, cap, room, remaining);
    OverrunsStep(start, d, cap, room, remaining);
    RepeatsChunk(h0, h, distance, factor, n);
    DoubledDistance(factor, distance);
    ReadSlot(|h| - d, n, cap);
  }

  // ----- the buffer -----

  /** A run of ring slots. */
  datatype Piece = Piece(start: nat, size: nat)

  datatype CopyResult = Copied(n: nat) | BeyondLimit | VerifyFailed

  datatype ReadResult = Delivered(n: nat) | TooFar

  class CircularBuffer {
    const buffer: array<Byte>
    var readingHead: nat
    var usedSpace: nat
    var seekbackLimit: nat
    ghost var history: seq<Byte>

    ghost predicate Valid()
      reads this, buffer
    {
      && buffer.Length > 0 && readingHead < buffer.Length
      && usedSpace <= buffer.Length && usedSpace <= |history|
      && seekbackLimit == Min(|history|, buffer.Length)
      && readingHead == Slot(|history| - usedSpace, buffer.Length)
      && Holds(buffer[..], history)
    }

    /** create_empty */
    constructor (size: nat)
      requires size > 0
      ensures Valid() && fresh(buffer) && buffer.Length == size && history == [] && usedSpace == 0
    {
      buffer := new Byte[size](_ => 0);
      readingHead, usedSpace, seekbackLimit := 0, 0, 0;
      history := [];
    }

    function EmptySpace(): nat
      requires Valid()
      reads this, buffer
    {
      buffer.Length - usedSpace
    }

    method Clear()
      requires Valid()
      modifies this
      ensures Valid() && history == [] && usedSpace == 0 && seekbackLimit == 0
    {
      readingHead, usedSpace, seekbackLimit := 0, 0, 0;
      history := [];
    }

    // ----- spans -----

    function NextWriteSpan(): (s: Piece)
      requires Valid()
      reads this, buffer
      ensures s.start == Slot(|history|, buffer.Length) && s.start + s.size <= buffer.Length && s.size <= EmptySpace()
      ensures s.size == 0 <==> EmptySpace() == 0
    {
      SlotAdd(|history| - usedSpace, usedSpace, buffer.Length);
      if buffer.Length <= readingHead + usedSpace then
        Piece(readingHead + usedSpace - buffer.Length, buffer.Length - usedSpace)
      else
        Piece(readingHead + usedSpace, buffer.Length - (readingHead + usedSpace))
    }

    /** The unread bytes from `offset` on, up to the end of the ring. */
    function NextReadSpan(offset: nat): (s: Piece)
      requires Valid()
      reads this, buffer
      ensures s.start + s.size <= buffer.Length
      ensures offset >= usedSpace ==> s.size == 0
      ensures offset < usedSpace ==> s.size > 0 && s.size <= usedSpace - offset
      ensures s.size > 0 ==> s.start == Slot(|history| - usedSpace + offset, buffer.Length)
    {
      if offset > 0 && offset >= usedSpace then Piece(0, 0)
      else
        var head := if offset > 0 then Slot(readingHead + offset, buffer.Length) else readingHead;
        SlotOfSlot(|history| - usedSpace, offset, buffer.Length);
        Piece(head, Min(buffer.Length - head, usedSpace - offset))
    }

    /** The bytes from `distance` before the write position on, up to the end of the ring. */
    function NextSeekbackSpan(distance: nat): (s: Piece)
      requires Valid() && distance <= seekbackLimit
      reads this, buffer
      ensures s.start == Slot(|history| - distance, buffer.Length) && s.start + s.size <= buffer.Length
      ensures s.size == Min(buffer.Length - s.start, distance) && (s.size == 0 <==> distance == 0)
    {
      SeekbackSlot(|history|, usedSpace, distance, buffer.Length);
      var offset := Slot(buffer.Length + readingHead + usedSpace - distance, buffer.Length);
      Piece(offset, Min(buffer.Length - offset, distance))
    }

    // ----- writing -----

    /** One copy into the next write span; the copy is a memmove. */
    method WriteChunk(src: array<Byte>, from: nat, m: nat)
      requires Valid() && from + m <= src.Length && m <= NextWriteSpan().size
      modifies this, buffer
      ensures Valid() && history == old(history) + old(src[from..from + m]) && usedSpace == old(usedSpace) + m
      ensures var start := Slot(|old(history)|, buffer.Length);
              forall i :: 0 <= i < buffer.Length && !(start <= i < start + m) ==> buffer[i] == old(buffer[i])
    {
      hide Slot, Holds, NextWriteSpan;
      var start := NextWriteSpan().start;
      ghost var ring, bytes := buffer[..], src[from..from + m];
      forall i | 0 <= i < m {
        buffer[start + i] := src[from + i];
      }
      RingAppend(ring, buffer[..], history, bytes);
      history := history + bytes;
      usedSpace := usedSpace + m;
      seekbackLimit := seekbackLimit + m;
      if seekbackLimit > buffer.Length {
        seekbackLimit := buffer.Length;
      }
    }

    /** One round of write; the bytes not yet copied stay intact even inside this buffer. */
    method WriteRound(src: array<Byte>, from: nat, n: nat, count: nat, ghost h: nat, ghost distance: nat,
                      ghost bytes: seq<Byte>)
      returns (m: nat)
      requires Valid() && from + count <= src.Length && n < count == |bytes| && NextWriteSpan().size > 0
      requires |history| == h + n
      requires src == buffer ==>
                 count <= distance <= h && distance <= buffer.Length && from == Slot(h - distance, buffer.Length)
      requires forall k :: from + n <= k < from + count ==> src[k] == bytes[k - from]
      modifies this, buffer
      ensures Valid() && 0 < m <= count - n && m <= old(EmptySpace())
      ensures history == old(history) + bytes[n..n + m] && usedSpace == old(usedSpace) + m
      ensures forall k :: from + n + m <= k < from + count ==> src[k] == bytes[k - from]
    {
      hide Slot, Holds, NextWriteSpan;
      m := Min(count - n, NextWriteSpan().size);
      assert src[from + n..from + n + m] == bytes[n..n + m];
      WriteChunk(src, from + n, m);
      forall k | from + n + m <= k < from + count ensures src[k] == bytes[k - from] {
        if src == buffer { NoOverlap(h, distance, buffer.Length, from, n, m, k - from); }
      }
    }

    /**
     Accepts as many bytes as there is room for.  The source may be a seekback span of
     this very buffer, `distance` behind the write position.
     */
    method Write(src: array<Byte>, from: nat, count: nat, ghost distance: nat) returns (n: nat)
      requires Valid() && from + count <= src.Length
      requires src == buffer ==> count <= distance <= seekbackLimit && from == Slot(|history| - distance, buffer.Length)
      modifies this, buffer
      ensures Valid() && n == Min(count, old(EmptySpace()))
      ensures history == old(history) + old(src[from..from + n]) && usedSpace == old(usedSpace) + n
    {
      hide Slot, Holds, NextWriteSpan;
      n := 0;
      ghost var bytes, h := src[from..from + count], |history|;
      while n < count && NextWriteSpan().size > 0
        invariant Valid() && n <= count && n <= old(EmptySpace()) && usedSpace == old(usedSpace) + n
        invariant history == old(history) + bytes[..n]
        invariant forall k :: from + n <= k < from + count ==> src[k] == bytes[k - from]
      {
        var m := WriteRound(src, from, n, count, h, distance, bytes);
        AppendSlices(old(history), bytes, n, m);
        n := n + m;
      }
      SliceOfSlice(old(src[..]), from, from + count, 0, n);
    }

    // ----- reading -----

    /** FIFO: the oldest unread bytes are delivered and become read. */
    method Read(dst: array<Byte>) returns (n: nat)
      requires Valid() && dst != buffer
      modifies this, dst
      ensures Valid() && history == old(history) && n == Min(dst.Length, old(usedSpace))
      ensures usedSpace == old(usedSpace) - n
      ensures dst[..n] == history[|history| - old(usedSpace)..|history| - old(usedSpace) + n]
      ensures dst[n..] == old(dst[n..])
    {
      hide Slot, Holds, NextReadSpan;
      n := 0;
      ghost var unread := |history| - usedSpace;
      while n < dst.Length && NextReadSpan(0).size > 0
        invariant Valid() && history == old(history) && n <= dst.Length && n <= old(usedSpace)
        invariant usedSpace == old(usedSpace) - n
        invariant dst[..n] == history[unread..unread + n] && dst[n..] == old(dst[n..])
      {
        ghost var before := dst[..];
        var m := ReadChunk(dst, n);
        ReadRound(before, dst[..], old(dst[..]), history, unread, n, m);
        n := n + m;
      }
    }

    method ReadChunk(dst: array<Byte>, at: nat) returns (m: nat)
      requires Valid() && dst != buffer && at < dst.Length && NextReadSpan(0).size > 0
      modifies this, dst
      ensures Valid() && history == old(history) && 0 < m <= dst.Length - at && m <= old(usedSpace)
      ensures usedSpace == old(usedSpace) - m
      ensures var unread := |history| - old(usedSpace); dst[at..at + m] == history[unread..unread + m]
      ensures dst[..at] == old(dst[..at]) && dst[at + m..] == old(dst[at + m..])
    {
      hide Slot, Holds, NextReadSpan;
      var span := NextReadSpan(0);
      m := Min(span.size, dst.Length - at);
      RingPiece(buffer[..], history, |history| - usedSpace, m);
      ReadSlot(|history| - usedSpace, m, buffer.Length);
      CopyOut(span.start, m, dst, at);
      usedSpace := usedSpace - m;
      readingHead := readingHead + m;
      if readingHead >= buffer.Length {
        readingHead := readingHead - buffer.Length;
      }
    }

    method CopyOut(start: nat, m: nat, dst: array<Byte>, at: nat)
      requires dst != buffer && start + m <= buffer.Length && at + m <= dst.Length
      modifies dst
      ensures dst[..at] == old(dst[..at]) && dst[at..at + m] == buffer[start..start + m]
      ensures dst[at + m..] == old(dst[at + m..])
    {
      forall i | 0 <= i < m {
        dst[at + i] := buffer[start + i];
      }
      ghost var x, y := dst[at..at + m], buffer[start..start + m];
      assert forall i :: 0 <= i < m ==> x[i] == dst[at + i] == buffer[start + i] == y[i];
    }

    method Discard(count: nat) returns (ok: bool)
      requires Valid()
      modifies this
      ensures Valid() && history == old(history) && ok == (count <= old(usedSpace))
      ensures usedSpace == old(usedSpace) - (if ok then count else 0)
    {
      if usedSpace < count {
        return false;
      }
      SlotOfSlot(|history| - usedSpace, count, buffer.Length);
      usedSpace := usedSpace - count;
      readingHead := Slot(readingHead + count, buffer.Length);
      return true;
    }

    /** Reads the history from `distance` before its end, read or unread. */
    method ReadWithSeekback(dst: array<Byte>, distance: nat) returns (r: ReadResult)
      requires Valid() && dst != buffer
      modifies dst
      ensures r == if distance > seekbackLimit then TooFar else Delivered(Min(dst.Length, distance))
      ensures r.Delivered? ==>
                distance <= |history| && dst[..r.n] == history[|history| - distance..|history| - distance + r.n] &&
                dst[r.n..] == old(dst[r.n..])
    {
      hide Slot, Holds, NextSeekbackSpan;
      if distance > seekbackLimit {
        return TooFar;
      }
      var n, d := 0, distance;
      ghost var start := |history| - distance;
      while n < dst.Length && NextSeekbackSpan(d).size > 0
        invariant n + d == distance && n <= dst.Length
        invariant dst[..n] == history[start..start + n] && dst[n..] == old(dst[n..])
      {
        ghost var before := dst[..];
        var m := SeekChunk(d, dst, n);
        ReadRound(before, dst[..], old(dst[..]), history, start, n, m);
        n, d := n + m, d - m;
      }
      return Delivered(n);
    }

    /** One round of the seekback read. */
    method SeekChunk(d: nat, dst: array<Byte>, at: nat) returns (m: nat)
      requires Valid() && dst != buffer && 0 < d <= seekbackLimit && at < dst.Length
      modifies dst
      ensures 0 < m <= d && m <= dst.Length - at && d <= |history|
      ensures dst[..at] == old(dst[..at]) && dst[at + m..] == old(dst[at + m..])
      ensures dst[at..at + m] == history[|history| - d..|history| - d + m]
    {
      hide Slot, Holds, NextSeekbackSpan;
      var span := NextSeekbackSpan(d);
      m := Min(span.size, dst.Length - at);
      PieceIsHistory(Piece(span.start, m), |history| - d);
      CopyOut(span.start, m, dst, at);
    }

    // ----- seekback copy -----

    /** One round of the seekback copy: the span `d` behind the write position, as far as it is contiguous. */
    method CopyRound(d: nat, remaining: nat) returns (n: nat)
      requires Valid() && 0 < d <= seekbackLimit
      modifies this, buffer
      ensures Valid() && usedSpace == old(usedSpace) + n
      ensures n == Chunk(old(Slot(|history| - d, buffer.Length)), d, buffer.Length, old(EmptySpace()), remaining)
      ensures history == old(history) + old(history)[|old(history)| - d..|old(history)| - d + n]
    {
      hide Slot, Holds, NextSeekbackSpan;
      var span := NextSeekbackSpan(d);
      ghost var h, ring := history, buffer[..];
      n := Write(buffer, span.start, Min(span.size, remaining), d);
      RingPiece(ring, h, |h| - d, n);
    }

    /**
     copy_from_seekback.  It appends what the byte-by-byte copy appends, until the length or
     the room is used up; the VERIFY in next_seekback_span fires exactly when `Overruns`.
     */
    method CopyFromSeekback(distance: nat, length: nat) returns (r: CopyResult)
      requires Valid()
      modifies this, buffer
      ensures r == BeyondLimit <==> distance > old(seekbackLimit)
      ensures 0 < distance <= old(seekbackLimit) ==>
                (r == VerifyFailed <==>
                  Overruns(old(Slot(|history| - distance, buffer.Length)), distance, buffer.Length,
                           old(EmptySpace()), length))
      ensures r == VerifyFailed ==> 0 < distance && length > old(EmptySpace())
      ensures r == BeyondLimit ==> Valid() && history == old(history) && usedSpace == old(usedSpace)
      ensures r.Copied? ==> Valid() && r.n == (if distance == 0 then 0 else Min(length, old(EmptySpace())))
      ensures r.Copied? && distance > 0 ==> distance <= |old(history)| && history == LzCopy(old(history), distance, r.n)
      ensures r.Copied? && distance > 0 ==>
                && history[..|old(history)|] == old(history)
                && forall p :: |old(history)| <= p < |history| ==> history[p] == history[p - distance]
      ensures r.Copied? && distance == 0 ==> history == old(history)
      ensures r.Copied? ==> usedSpace == old(usedSpace) + r.n
    {
      hide Slot, Holds, LzCopy, Repeats, Overruns, Chunk, LastDoubling;
      if distance > seekbackLimit {
        return BeyondLimit;
      }
      if distance == 0 {
        // the first seekback span is empty
        return Copied(0);
      }
      var remaining: nat, d: nat := length, distance;
      ghost var h0, factor: nat, cap := history, 1, buffer.Length;
      ghost var start: nat := Slot(|history| - distance, cap);
      ghost var trapped := Overruns(start, distance, cap, EmptySpace(), length);
      RepeatsStart(h0, distance);
      OverrunsTooLong(start, distance, cap, EmptySpace(), length);
      while remaining > 0 && EmptySpace() > 0
        invariant Valid() && remaining <= length && usedSpace == old(usedSpace) + (length - remaining)
        invariant buffer.Length == cap
        invariant |history| == |h0| + (length - remaining)
        invariant Copying(h0, history, distance, d, factor, start, cap, EmptySpace(), remaining, trapped)
        decreases remaining
      {
        // the VERIFY of next_seekback_span
        if d > seekbackLimit {
          return VerifyFailed;
        }
        remaining, d, factor, start := CopyStep(d, remaining, h0, distance, factor, start, trapped);
      }
      if d <= seekbackLimit { OverrunsTooLong(start, d, cap, EmptySpace(), remaining); }
      RepeatsIsLzCopy(h0, history, distance);
      RepeatsMeaning(h0, history, distance);
      return Copied(length - remaining);
    }

    method CopyStep(d: nat, remaining: nat, ghost h0: seq<Byte>, ghost distance: nat, ghost factor: nat,
                    ghost start: nat, ghost trapped: bool)
      returns (remaining': nat, d': nat, ghost factor': nat, ghost start': nat)
      requires Valid() && remaining > 0 && EmptySpace() > 0 && d <= seekbackLimit
      requires Copying(h0, history, distance, d, factor, start, buffer.Length, EmptySpace(), remaining, trapped)
      modifies this, buffer
      ensures Valid() && remaining' < remaining && usedSpace == old(usedSpace) + (remaining - remaining')
      ensures |history| == |old(history)| + (remaining - remaining')
      ensures Copying(h0, history, distance, d', factor', start', buffer.Length, EmptySpace(), remaining', trapped)
    {
      hide Slot, Holds, Copying, Chunk;
      CopyingStep(h0, history, distance, d, factor, start, buffer.Length, EmptySpace(), remaining, trapped);
      ghost var h := history;
      var written := CopyRound(d, remaining);
      remaining', d', factor', start' := remaining - written, d, factor, start;
      if remaining' > d && written == d {
        d', factor' := d * 2, factor * 2;
      } else {
        start' := Slot(|h| + written - d, buffer.Length);
      }
    }

    // ----- searching -----

    ghost function ReadPosition(): nat
      requires Valid()
      reads this, buffer
    {
      |history| - usedSpace
    }

    function SearchLimit(): nat
      requires Valid()
      reads this, buffer
    {
      seekbackLimit - usedSpace
    }

    /** The bytes from `distance` before the read position on, up to the end of the ring. */
    function NextSearchSpan(distance: nat): (s: Piece)
      requires Valid() && distance <= SearchLimit()
      reads this, buffer
      ensures s.start == Slot(ReadPosition() - distance, buffer.Length) && s.start + s.size <= buffer.Length
      ensures s.size <= distance && (s.size == 0 <==> distance == 0)
    {
      SeekbackSlot(|history| - usedSpace, 0, distance, buffer.Length);
      var offset := Slot(buffer.Length + readingHead - distance, buffer.Length);
      Piece(offset, Min(buffer.Length - offset, distance))
    }

    /** matching_prefix_length of two pieces of the ring. */
    method MatchingPrefix(a: Piece, b: Piece) returns (n: nat)
      requires a.start + a.size <= buffer.Length && b.start + b.size <= buffer.Length
      ensures n == CommonPrefix(buffer[a.start..a.start + a.size], buffer[b.start..b.start + b.size])
    {
      ghost var x, y := buffer[a.start..a.start + a.size], buffer[b.start..b.start + b.size];
      n := 0;
      while n < Min(a.size, b.size) && buffer[a.start + n] == buffer[b.start + n]
        invariant n <= Min(a.size, b.size) && x[..n] == y[..n]
      {
        assert x[..n + 1] == x[..n] + [x[n]] && y[..n + 1] == y[..n] + [y[n]];
        n := n + 1;
      }
      CommonPrefixUnique(x, y, n);
    }

    lemma PieceIsHistory(piece: Piece, p: nat)
      requires Valid() && piece.start == Slot(p, buffer.Length) && piece.start + piece.size <= buffer.Length
      requires p + piece.size <= |history| <= p + buffer.Length
      ensures buffer[piece.start..piece.start + piece.size] == history[p..p + piece.size]
    {
      hide Slot, Holds;
      RingPiece(buffer[..], history, p, piece.size);
      assert buffer[piece.start..piece.start + piece.size] == buffer[..][piece.start..piece.start + piece.size];
    }

    /** The common prefix of two pieces, as pieces of the history. */
    method MatchPieces(a: Piece, b: Piece, ghost i: nat, ghost j: nat) returns (n: nat)
      requires Valid() && a.start + a.size <= buffer.Length && b.start + b.size <= buffer.Length
      requires a.start == Slot(i, buffer.Length) && i + a.size <= |history| <= i + buffer.Length
      requires b.start == Slot(j, buffer.Length) && j + b.size <= |history| <= j + buffer.Length
      ensures n == CommonPrefix(history[i..i + a.size], history[j..j + b.size])
    {
      hide Slot, Holds, CommonPrefix;
      n := MatchingPrefix(a, b);
      PieceIsHistory(a, i);
      PieceIsHistory(b, j);
    }

    /** One round of matching: the match grows by m bytes, or cannot grow. */
    method MatchRound(distance: nat, maximum: nat, n: nat) returns (m: nat)
      requires Valid() && 0 < distance <= SearchLimit() && n < maximum <= usedSpace && n <= distance
      requires Agree(history, ReadPosition(), distance, maximum, n)
      ensures Extends(history, ReadPosition(), distance, maximum, n, m)
    {
      hide Slot, Holds, NextReadSpan, NextSearchSpan, CommonPrefix, Extends;
      ghost var p := ReadPosition();
      var span, ahead := NextSearchSpan(distance - n), NextReadSpan(n);
      var haystack := Piece(span.start, Min(span.size, maximum - n));
      var needle := Piece(ahead.start, Min(ahead.size, maximum - n));
      m := MatchPieces(haystack, needle, p - distance + n, p + n);
      SubMatch(history, p, distance, maximum, n, haystack.size, needle.size);
    }

    /** The next unread bytes against the bytes `distance` before them, without looking into the unread part. */
    method MatchLength(distance: nat, maximum: nat) returns (n: nat)
      requires Valid() && 0 < distance <= SearchLimit() && maximum <= usedSpace
      ensures n == MatchAt(history, ReadPosition(), distance, maximum)
    {
      hide Slot, Holds, Agree, Extends, MatchAt;
      n := 0;
      ghost var p := ReadPosition();
      AgreeStart(history, p, distance, maximum);
      while n < maximum
        invariant n <= maximum && n <= distance && Agree(history, p, distance, maximum, n)
        decreases maximum - n
      {
        var m := MatchRound(distance, maximum, n);
        AgreeStep(history, p, distance, maximum, n, m);
        if m == 0 {
          break;
        }
        n := n + m;
      }
      AgreeEnd(history, p, distance, maximum, n);
    }

    /** What each listed distance is worth: its match length, or nothing when it is out of range. */
    ghost function Scores(distances: seq<nat>, longest: nat, minimum: nat): (scores: seq<nat>)
      requires Valid() && longest <= usedSpace
      reads this, buffer
      ensures |scores| == |distances|
    {
      seq(|distances|, i requires 0 <= i < |distances| && Valid() && longest <= usedSpace reads this, buffer =>
        if minimum <= distances[i] && InRing(distances[i])
        then MatchAt(history, ReadPosition(), distances[i], longest) else 0)
    }

    /** The byte that far before the read position exists and has not been overwritten. */
    ghost predicate InRing(distance: nat)
      requires Valid()
      reads this, buffer
    {
      0 < distance <= ReadPosition() && |history| <= ReadPosition() - distance + buffer.Length
    }

    lemma InRingLimit(distance: nat)
      requires Valid()
      ensures InRing(distance) <==> 0 < distance <= SearchLimit()
    {
    }

    /** The distance-list search: the first longest match that reaches the minimum length. */
    method FindCopyInSeekback(distances: seq<nat>, maximum: nat, minimum: nat) returns (best: Option<Match>)
      requires Valid() && minimum > 0
      ensures var scores := Scores(distances, Min(maximum, usedSpace), minimum);
              match best
              case None => forall i :: 0 <= i < |scores| ==> scores[i] < minimum
              case Some(m) => minimum <= m.length && exists i: nat ::
                FirstLongest(scores, i) && distances[i] == m.distance && scores[i] == m.length
    {
      hide MatchAt, Slot, Holds, FirstLongest;
      var longest := Min(maximum, usedSpace);
      ghost var scores := Scores(distances, longest, minimum);
      if longest < minimum {
        forall i | 0 <= i < |scores| ensures scores[i] < minimum { ScoreBound(distances, longest, minimum, i); }
        return None;
      }
      best := None;
      ghost var at := 0;
      for i := 0 to |distances|
        invariant best.None? ==> forall j :: 0 <= j < i ==> scores[j] < minimum
        invariant best.Some? ==> at < i && FirstLongest(scores[..i], at)
        invariant best.Some? ==> best.value == Match(distances[at], scores[at]) && minimum <= scores[at]
      {
        FirstLongestNext(scores, i, at, minimum);
        var distance := distances[i];
        InRingLimit(distance);
        if distance > SearchLimit() || distance <= 0 || distance < minimum {
          continue;
        }
        var n := MatchLength(distance, longest);
        if n < minimum {
          continue;
        }
        if best.None? || best.value.length < n {
          best := Some(Match(distance, n));
          at := i;
        }
      }
      assert scores[..|distances|] == scores;
    }

    lemma ScoreBound(distances: seq<nat>, longest: nat, minimum: nat, i: nat)
      requires Valid() && longest <= usedSpace && i < |distances|
      ensures Scores(distances, longest, minimum)[i] <= longest
    {
    }
  }

  /** Index i holds the maximum, and no earlier index does. */
  ghost predicate FirstLongest(scores: seq<nat>, i: nat) {
    && i < |scores|
    && (forall j :: 0 <= j < |scores| ==> scores[j] <= scores[i])
    && (forall j :: 0 <= j < i ==> scores[j] < scores[i])
  }

  /** The next score leaves the first longest where it is, or becomes it. */
  lemma FirstLongestNext(scores: seq<nat>, i: nat, at: nat, minimum: nat)
    requires i < |scores|
    ensures at < i && FirstLongest(scores[..i], at) ==>
              FirstLongest(scores[..i + 1], if scores[i] <= scores[at] then at else i)
    ensures minimum <= scores[i] && (forall j :: 0 <= j < i ==> scores[j] < minimum) ==>
              FirstLongest(scores[..i + 1], i)
  {
    assert scores[..i + 1] == scores[..i] + [scores[i]];
    assert at < i ==> scores[..i][at] == scores[at];
  }

  datatype Match = Match(distance: nat, length: nat)

  /** How far the bytes from position p on repeat the bytes from p - distance on, both below their ends. */
  function MatchAt(history: seq<Byte>, p: nat, distance: nat, maximum: nat): nat
    requires distance <= p && p + maximum <= |history|
  {
    CommonPrefix(history[p - distance..p], history[p..p + maximum])
  }

  /** As bytes: all before the length agree, none beyond the read position is looked at, and the next two differ. */
  lemma MatchIsLongest(history: seq<Byte>, p: nat, distance: nat, maximum: nat)
    requires distance <= p && p + maximum <= |history|
    ensures var n := MatchAt(history, p, distance, maximum);
            && n <= distance && n <= maximum && (forall q :: p <= q < p + n ==> history[q] == history[q - distance])
            && (n < distance && n < maximum ==> history[p - distance + n] != history[p + n])
  {
    hide CommonPrefix;
    var x, y := history[p - distance..p], history[p..p + maximum];
    var n := CommonPrefix(x, y);
    forall q | p <= q < p + n ensures history[q] == history[q - distance] {
      assert x[..n][q - p] == y[..n][q - p];
    }
  }

  /** The first n bytes on both sides agree. */
  ghost predicate Agree(history: seq<Byte>, p: nat, distance: nat, maximum: nat, n: nat)
    requires distance <= p && p + maximum <= |history|
  {
    n <= distance && n <= maximum && history[p - distance..p][..n] == history[p..p + maximum][..n]
  }

  lemma AgreeStart(history: seq<Byte>, p: nat, distance: nat, maximum: nat)
    requires distance <= p && p + maximum <= |history|
    ensures Agree(history, p, distance, maximum, 0)
  {
  }

  lemma AgreeStep(history: seq<Byte>, p: nat, distance: nat, maximum: nat, n: nat, m: nat)
    requires distance <= p && p + maximum <= |history| && Extends(history, p, distance, maximum, n, m)
    ensures n + m <= distance && n + m <= maximum && Agree(history, p, distance, maximum, n + m)
  {
  }

  lemma AgreeEnd(history: seq<Byte>, p: nat, distance: nat, maximum: nat, n: nat)
    requires distance <= p && p + maximum <= |history| && Agree(history, p, distance, maximum, n)
    requires n == maximum || Extends(history, p, distance, maximum, n, 0)
    ensures n == MatchAt(history, p, distance, maximum)
  {
    hide CommonPrefix;
    CommonPrefixUnique(history[p - distance..p], history[p..p + maximum], n);
  }

  /** The match of length n grows by m bytes, or (m = 0) cannot grow. */
  ghost predicate Extends(history: seq<Byte>, p: nat, distance: nat, maximum: nat, n: nat, m: nat)
    requires distance <= p && p + maximum <= |history|
  {
    var x, y := history[p - distance..p], history[p..p + maximum];
    && n + m <= distance && n + m <= maximum && x[..n + m] == y[..n + m]
    && (m == 0 && n < distance && n < maximum ==> x[n] != y[n])
  }

  /** Matching two ring pieces extends the match, or shows that it ends here. */
  lemma SubMatch(history: seq<Byte>, p: nat, distance: nat, maximum: nat, n: nat, a: nat, b: nat)
    requires distance <= p && p + maximum <= |history| && n <= distance && n < maximum
    requires a <= distance - n && b <= maximum - n && (a == 0 ==> n == distance) && b > 0
    requires history[p - distance..p][..n] == history[p..p + maximum][..n]
    ensures var m := CommonPrefix(history[p - distance + n..p - distance + n + a], history[p + n..p + n + b]);
            Extends(history, p, distance, maximum, n, m)
  {
    hide CommonPrefix;
    var x, y := history[p - distance..p], history[p..p + maximum];
    var s, t := history[p - distance + n..p - distance + n + a], history[p + n..p + n + b];
    var m := CommonPrefix(s, t);
    assert s == x[n..n + a] by { SliceOfSlice(history, p - distance, p, n, n + a); }
    assert t == y[n..n + b] by { SliceOfSlice(history, p, p + maximum, n, n + b); }
    JoinMatch(x, y, n, a, b, m);
  }

  /** A match of n elements followed by one of m elements. */
  lemma JoinMatch(x: seq<Byte>, y: seq<Byte>, n: nat, a: nat, b: nat, m: nat)
    requires n + a <= |x| && n + b <= |y| && m <= a && m <= b
    requires x[..n] == y[..n] && x[n..n + a][..m] == y[n..n + b][..m]
    ensures x[..n + m] == y[..n + m]
    ensures m < a && m < b ==> (x[n..n + a][m] != y[n..n + b][m] <==> x[n + m] != y[n + m])
  {
    assert x[n..n + a][..m] == x[n..n + m] && y[n..n + b][..m] == y[n..n + m];
    assert x[..n + m] == x[..n] + x[n..n + m] && y[..n + m] == y[..n] + y[n..n + m];
  }

  lemma ReadRound(before: seq<Byte>, after: seq<Byte>, original: seq<Byte>, history: seq<Byte>, p: nat, n: nat, m: nat)
    requires n + m <= |before| == |after| == |original| && p + n + m <= |history|
    requires after[..n] == before[..n] && after[n..n + m] == history[p + n..p + n + m]
    requires after[n + m..] == before[n + m..]
    requires before[..n] == history[p..p + n] && before[n..] == original[n..]
    ensures after[..n + m] == history[p..p + n + m] && after[n + m..] == original[n + m..]
  {
    assert after[..n + m] == after[..n] + after[n..n + m];
    assert history[p..p + n + m] == history[p..p + n] + history[p + n..p + n + m];
    assert before[n + m..] == before[n..][m..] && original[n + m..] == original[n..][m..];
  }

  lemma RepeatsStart(h: seq<Byte>, distance: nat)
    requires 0 < distance <= |h|
    ensures Repeats(h, h, distance)
  {
  }

  lemma DoubledDistance(factor: nat, distance: nat)
    ensures (factor * distance) * 2 == (factor * 2) * distance
  {
  }

  /** Advancing the read position by m keeps it on the ring. */
  lemma ReadSlot(p: nat, m: nat, cap: nat)
    requires cap > 0 && m <= cap
    ensures Slot(p + m, cap) == if Slot(p, cap) + m >= cap then Slot(p, cap) + m - cap else Slot(p, cap) + m
  {
    SlotAdd(p, m, cap);
  }

  lemma AppendSlices(h: seq<Byte>, bytes: seq<Byte>, n: nat, m: nat)
    requires n + m <= |bytes|
    ensures (h + bytes[..n]) + bytes[n..n + m] == h + bytes[..n + m]
  {
    assert bytes[..n] + bytes[n..n + m] == bytes[..n + m];
  }

  /** Bytes still to be copied are not among the slots just written. */
  lemma NoOverlap(h: nat, distance: nat, cap: nat, from: nat, n: nat, m: nat, i: nat)
    requires cap > 0 && distance <= h && distance <= cap && from == Slot(h - distance, cap)
    requires n + m <= i < distance && from + i < cap && Slot(h + n, cap) + m <= cap
    ensures !(Slot(h + n, cap) <= from + i < Slot(h + n, cap) + m)
  {
    hide Slot;
    SlotAdd(h - distance, i, cap);
    if Slot(h + n, cap) <= from + i < Slot(h + n, cap) + m {
      var j := from + i - Slot(h + n, cap);
      SlotAdd(h + n, j, cap);
      SlotsDiffer(h - distance + i, h + n + j, cap);
    }
  }

  lemma SlotOfSlot(p: nat, i: nat, cap: nat)
    requires cap > 0 && i <= cap
    ensures Slot(Slot(p, cap) + i, cap) == Slot(p + i, cap)
  {
    SlotAdd(p, i, cap);
    SlotSmall(p, cap);
    SlotAdd(Slot(p, cap), i, cap);
  }

  lemma SlotSmall(p: nat, cap: nat)
    requires cap > 0
    ensures Slot(Slot(p, cap), cap) == Slot(p, cap)
  {
  }

  lemma SeekbackSlot(h: nat, used: nat, distance: nat, cap: nat)
    requires cap > 0 && used <= h && used <= cap && distance <= h && distance <= cap
    ensures Slot(cap + Slot(h - used, cap) + used - distance, cap) == Slot(h - distance, cap)
  {
    hide Slot;
    var head := Slot(h - used, cap);
    SlotSmall(h - used, cap);
    SlotAdd(h - used, used, cap);
    SlotAdd(h - distance, distance, cap);
    // both sides are `distance` steps before the write position
    SlotAdd(cap + head + used - distance, distance, cap);
    SlotAdd(head + used, cap, cap);
    SlotAdd(head, used, cap);
  }
}
