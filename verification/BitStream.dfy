/**
 AK/BitStream.h: bit streams over a byte stream.  The state of a stream is one number, the
 bits written or still to be read, whatever part of them sits in the 64-bit buffer.
 */
module BitStream {
  import opened Wrappers
  import opened Words
  import opened Bits

  const BUFFER_SIZE: nat := 64

  /** lsb_mask for a type of the given width */
  function LsbMask(bits: nat, width: nat): nat
    requires bits <= width
  {
    if bits == 0 then 0 else Shr(Pow2(width) - 1, width - bits)
  }

  lemma LsbMaskKeeps(x: nat, bits: nat, width: nat)
    requires bits <= width
    ensures BitAnd(x, LsbMask(bits, width)) == Low(x, bits)
  {
    hide Pow2, BitAnd, Low, Shr;
    LsbMaskOnes(bits, width);
    BitAndMask(x, bits);
  }

  lemma LsbMaskOnes(bits: nat, width: nat)
    requires bits <= width
    ensures LsbMask(bits, width) == Pow2(bits) - 1
  {
    if bits > 0 {
      var n := width - bits;
      Pow2Add(n, bits);
      assert Pow2(width) - 1 == (Pow2(n) - 1) + Pow2(n) * (Pow2(bits) - 1) by { MulDistrib(Pow2(n), Pow2(bits), -1); }
      PartsUnique(Pow2(width) - 1, n, Pow2(n) - 1, Pow2(bits) - 1);
    }
  }

  // ----- joining bits -----

  /** The value shifted up by count in u64, or-ed into the buffer. */
  function Joined(buffer: nat, value: nat, count: nat): nat {
    BitOr(buffer, Low(Shl(value, count), BUFFER_SIZE))
  }

  /** With room for the value, joining adds it above the buffered bits. */
  lemma JoinedValue(buffer: nat, count: nat, value: nat, n: nat)
    requires buffer < Pow2(count) && value < Pow2(n) && count + n <= BUFFER_SIZE
    ensures Joined(buffer, value, count) == buffer + Pow2(count) * value < Pow2(count + n)
  {
    hide Pow2, Low, BitOr, Shl;
    Pow2Add(count, n);
    MulStep(Pow2(count), value, Pow2(n));
    Pow2Mono(count + n, BUFFER_SIZE);
    ShlIsProduct(value, count);
    LowSmall(Shl(value, count), BUFFER_SIZE);
    BitOrShl(value, buffer, count);
    BitOrComm(buffer, Shl(value, count));
  }

  // ----- the numbers behind a sequence of fields -----

  datatype Field = Field(value: nat, count: nat)

  ghost predicate Fits(fields: seq<Field>) {
    forall i :: 0 <= i < |fields| ==> fields[i].value < Pow2(fields[i].count)
  }

  ghost function TotalBits(fields: seq<Field>): nat {
    if fields == [] then 0 else fields[0].count + TotalBits(fields[1..])
  }

  /** All fields as one number, the first one lowest. */
  ghost function Packed(fields: seq<Field>): nat {
    if fields == [] then 0 else fields[0].value + Pow2(fields[0].count) * Packed(fields[1..])
  }

  /** Packing at the end, which is how the writer does it. */
  lemma {:induction false} PackedPush(fields: seq<Field>, f: Field)
    ensures TotalBits(fields + [f]) == TotalBits(fields) + f.count
    ensures Packed(fields + [f]) == Packed(fields) + Pow2(TotalBits(fields)) * f.value
  {
    if fields != [] {
      var rest := fields[1..];
      PackedPush(rest, f);
      assert (fields + [f])[1..] == rest + [f];
      Pow2Add(fields[0].count, TotalBits(rest));
      PushArithmetic(Pow2(fields[0].count), Packed(rest), Pow2(TotalBits(rest)), f.value);
    }
  }

  lemma PushArithmetic(p: int, x: int, q: int, v: int)
    ensures p * (x + q * v) == p * x + (p * q) * v
  {
    MulDistrib(p, x, q * v);
    MulAssoc(p, q, v);
  }

  // ----- little-endian writer -----

  /** The bytes already passed on, and the buffered bits above them. */
  ghost function WrittenOf(stream: seq<Byte>, buffer: nat): nat {
    Word(stream) + Pow2(8 * |stream|) * buffer
  }

  /** Joining n bits to the buffer writes them above everything before. */
  lemma AppendBits(stream: seq<Byte>, buffer: nat, count: nat, value: nat, n: nat)
    requires buffer < Pow2(count) && value < Pow2(n) && count + n <= BUFFER_SIZE
    ensures Joined(buffer, value, count) < Pow2(count + n)
    ensures WrittenOf(stream, Joined(buffer, value, count)) ==
            WrittenOf(stream, buffer) + Pow2(8 * |stream| + count) * value
  {
    hide Pow2, Joined, Word;
    JoinedValue(buffer, count, value, n);
    Pow2Add(8 * |stream|, count);
    PushArithmetic(Pow2(8 * |stream|), buffer, Pow2(count), value);
  }

  /** Joining a value of any size joins what fits into the buffer. */
  lemma JoinedBits(buffer: nat, count: nat, value: nat, n: nat)
    requires buffer < Pow2(count) && count + n <= BUFFER_SIZE
    ensures var fits := Low(value, BUFFER_SIZE - count);
            && (Joined(buffer, value, count) < Pow2(count + n) <==> fits < Pow2(n))
            && (fits < Pow2(n) ==> fits == Low(value, n) && Joined(buffer, value, count) == Joined(buffer, fits, count))
  {
    hide Pow2, Low, BitOr, Shl;
    var fits := Low(value, BUFFER_SIZE - count);
    LowOfShifted(value, count, BUFFER_SIZE - count);
    LowSmall(fits, BUFFER_SIZE - count);
    LowOfShifted(fits, count, BUFFER_SIZE - count);
    assert Joined(buffer, value, count) == Joined(buffer, fits, count);
    JoinedValue(buffer, count, fits, BUFFER_SIZE - count);
    Pow2Add(count, n);
    PartBound(buffer, Pow2(count), fits, Pow2(n));
    LowOfLow(value, n, BUFFER_SIZE - count);
    if fits < Pow2(n) { LowSmall(fits, n); }
  }

  lemma PartBound(lo: nat, p: nat, hi: nat, q: nat)
    requires lo < p
    ensures lo + p * hi < p * q <==> hi < q
  {
    if hi < q {
      MulStep(p, hi, q);
    } else {
      MulLe(q, hi, p);
    }
  }

  /** Shifting up by n and cutting to n + m bits keeps the low m bits. */
  lemma LowOfShifted(x: nat, n: nat, m: nat)
    ensures Low(Shl(x, n), n + m) == Shl(Low(x, m), n)
  {
    hide Pow2, Low, Shl;
    ShlIsProduct(x, n);
    ShlIsProduct(Low(x, m), n);
    Parts(x, m);
    Pow2Add(n, m);
    PushArithmetic(Pow2(n), Low(x, m), Pow2(m), Shr(x, m));
    MulStep(Pow2(n), Low(x, m), Pow2(m));
    PartsUnique(Shl(x, n), n + m, Pow2(n) * Low(x, m), Shr(x, m));
  }

  lemma LowOfLow(x: nat, m: nat, n: nat)
    requires m <= n
    ensures Low(Low(x, n), m) == Low(x, m)
  {
    hide Pow2, Low;
    LowSplit(x, m, n - m);
    LowPeriodic(Low(x, m), Low(Shr(x, m), n - m), m);
    LowSmall(Low(x, m), m);
  }

  /**
   write_bits leaves no bits above its count: the last step joins none, or what is joined
   there and fits the buffer has at most the count's bits.
   */
  predicate Clean(value: nat, count: nat, held: nat)
    requires held <= BUFFER_SIZE && count <= BUFFER_SIZE
  {
    if held == BUFFER_SIZE || held + count >= BUFFER_SIZE
    then count == 0 || held + count == BUFFER_SIZE || value < Pow2(count)
    else count == 0 || Low(value, BUFFER_SIZE - held) < Pow2(count)
  }

  lemma CleanCases(value: nat, count: nat, width: nat, held: nat)
    requires held <= BUFFER_SIZE && count <= width <= BUFFER_SIZE && value < Pow2(width)
    ensures held == BUFFER_SIZE && count > 0 ==> (Clean(value, count, held) <==> Low(value, BUFFER_SIZE) < Pow2(count))
    ensures held < BUFFER_SIZE < held + count ==>
              var n := BUFFER_SIZE - held;
              && (Clean(value, count, held) <==> Low(Shr(value, n), BUFFER_SIZE) < Pow2(count - n))
              && (Clean(value, count, held) ==> value < Pow2(count))
    ensures held + count < BUFFER_SIZE && count > 0 ==>
              (Clean(value, count, held) <==> Low(value, BUFFER_SIZE - held) < Pow2(count))
    ensures held + count == BUFFER_SIZE && held < BUFFER_SIZE ==> Clean(value, count, held)
    ensures count == 0 ==> Clean(value, count, held) && Low(value, 0) == 0
    ensures value < Pow2(count) ==> Clean(value, count, held) && Low(value, count) == value
  {
    hide Pow2, Low, Shr;
    Pow2Mono(width, BUFFER_SIZE);
    LowSmall(value, BUFFER_SIZE);
    if count == 0 { Pow2Zero(); }
    if held < BUFFER_SIZE < held + count {
      var n := BUFFER_SIZE - held;
      ShrBelow(value, n, width - n);
      Pow2Mono(width - n, BUFFER_SIZE);
      LowSmall(Shr(value, n), BUFFER_SIZE);
      ShrBounds(value, n, count);
    }
    if value < Pow2(count) {
      LowSmall(value, count);
      if held + count < BUFFER_SIZE {
        Pow2Mono(count, BUFFER_SIZE - held);
        LowSmall(value, BUFFER_SIZE - held);
      }
    }
  }

  lemma ShrBounds(x: nat, n: nat, count: nat)
    requires n <= count
    ensures Shr(x, n) < Pow2(count - n) <==> x < Pow2(count)
  {
    hide Pow2, Low, Shr;
    Parts(x, n);
    Pow2Add(n, count - n);
    if x < Pow2(count) {
      ShrBelow(x, n, count - n);
    } else if Shr(x, n) < Pow2(count - n) {
      MulStep(Pow2(n), Shr(x, n), Pow2(count - n));
    }
  }

  /** A value written in two parts. */
  lemma SplitValue(value: nat, count: nat, n: nat, at: nat)
    requires n <= count
    ensures Low(value, n) < Pow2(n)
    ensures value < Pow2(count) ==>
              Pow2(at) * Low(value, n) + Pow2(at + n) * Low(Shr(value, n), count - n) == Pow2(at) * Low(value, count)
  {
    hide Pow2, Low, Shr;
    if value < Pow2(count) {
      LowSmall(value, count);
      ShrBelow(value, n, count - n);
      LowSmall(Shr(value, n), count - n);
    }
    Parts(value, n);
    Pow2Add(at, n);
    PushArithmetic(Pow2(at), Low(value, n), Pow2(n), Shr(value, n));
  }

  class LittleEndianWriter {
    var stream: seq<Byte>
    var bitBuffer: nat
    var bitCount: nat

    /** The bits above the count are zero. */
    ghost predicate Valid()
      reads this
    {
      bitCount <= BUFFER_SIZE && bitBuffer < Pow2(bitCount)
    }

    constructor ()
      ensures Valid() && Written() == 0 && Length() == 0
    {
      stream, bitBuffer, bitCount := [], 0, 0;
    }

    /** Everything written so far. */
    ghost function Written(): nat
      reads this
    {
      WrittenOf(stream, bitBuffer)
    }

    ghost function Length(): nat
      reads this
    {
      8 * |stream| + bitCount
    }

    /** flush_buffer_to_stream: only whole bytes leave the buffer. */
    method Flush()
      requires Valid()
      modifies this
      ensures Valid() && Written() == old(Written()) && Length() == old(Length())
      ensures bitCount == old(bitCount) % 8
    {
      hide Pow2, WrittenOf, Bytes, Shr;
      var n := bitCount / 8;
      FlushedWord(stream, bitBuffer, n, bitCount);
      stream := stream + Bytes(bitBuffer, n);
      if bitCount == BUFFER_SIZE {
        bitBuffer, bitCount := 0, 0;
      } else {
        bitBuffer := Shr(bitBuffer, n * 8);
        bitCount := bitCount - n * 8;
      }
    }

    /** The low count bits go above everything written before, across a flush when the buffer fills up. */
    method WriteBits(value: nat, count: nat, width: nat)
      requires Valid() && count <= width <= BUFFER_SIZE && value < Pow2(width)
      modifies this
      ensures Length() == old(Length()) + count && bitCount <= BUFFER_SIZE
      ensures Valid() <==> Clean(value, count, old(bitCount))
      ensures Valid() ==> Written() == old(Written()) + Pow2(old(Length())) * Low(value, count)
    {
      hide Pow2, WrittenOf, Joined, BitAnd, LsbMask, Low, Shr, Clean;
      CleanCases(value, count, width, bitCount);
      var v, n := value, count;
      var remaining := BUFFER_SIZE - bitCount;
      if bitCount == BUFFER_SIZE {
        Flush();
      } else if n >= remaining {
        SplitValue(v, n, remaining, Length());
        FillUp(v);
        if remaining != width {
          v := Shr(v, remaining);
        }
        n := n - remaining;
      }
      if n == 0 {
        return;
      }
      Join(v, n);
    }

    /** As many low bits of the value as fit, and out they go. */
    method FillUp(value: nat)
      requires Valid() && bitCount < BUFFER_SIZE
      modifies this
      ensures var n := BUFFER_SIZE - old(bitCount);
              && Valid() && bitCount == 0 && Length() == old(Length()) + n
              && Written() == old(Written()) + Pow2(old(Length())) * Low(value, n)
    {
      hide Pow2, WrittenOf, Joined, BitAnd, LsbMask, Low;
      var n := BUFFER_SIZE - bitCount;
      SplitValue(value, n, n, Length());
      AppendBits(stream, bitBuffer, bitCount, Low(value, n), n);
      LsbMaskKeeps(value, n, BUFFER_SIZE);
      bitBuffer := Joined(bitBuffer, BitAnd(value, LsbMask(n, BUFFER_SIZE)), bitCount);
      bitCount := BUFFER_SIZE;
      Flush();
    }

    /** The last step of write_bits: the value is or-ed in with all its bits. */
    method Join(value: nat, n: nat)
      requires Valid() && bitCount < BUFFER_SIZE && bitCount + n <= BUFFER_SIZE
      modifies this
      ensures Length() == old(Length()) + n && bitCount <= BUFFER_SIZE
      ensures Valid() <==> Low(value, BUFFER_SIZE - old(bitCount)) < Pow2(n)
      ensures Valid() ==> Written() == old(Written()) + Pow2(old(Length())) * Low(value, n)
    {
      hide Pow2, WrittenOf, Joined, Low;
      JoinedBits(bitBuffer, bitCount, value, n);
      if Low(value, BUFFER_SIZE - bitCount) < Pow2(n) {
        AppendBits(stream, bitBuffer, bitCount, Low(value, n), n);
      }
      bitBuffer := Joined(bitBuffer, value, bitCount);
      bitCount := bitCount + n;
    }

    /** align_to_byte_boundary: pads with zero bits. */
    method Align()
      requires Valid()
      modifies this
      ensures Valid() && Written() == old(Written())
      ensures bitCount % 8 == 0 && old(Length()) <= Length() < old(Length()) + 8
    {
      hide Pow2, WrittenOf, Low, Clean;
      var offset := bitCount % 8;
      if offset != 0 {
        WholeBytes(Length(), |stream|, bitCount);
        CleanCases(0, 8 - offset, 8, bitCount);
        WriteBits(0, 8 - offset, 8);
        WholeBytes(Length(), |stream|, bitCount);
      }
    }
  }

  /** The value 2 as one bit: the bit above the count stays in the buffer. */
  method UncleanExample() returns (writer: LittleEndianWriter)
    ensures fresh(writer) && writer.Length() == 1 && !writer.Valid()
  {
    writer := new LittleEndianWriter();
    TwoIsUnclean();
    writer.WriteBits(2, 1, 8);
  }

  lemma TwoIsUnclean()
    ensures 2 < Pow2(8) && !Clean(2, 1, 0)
  {
    assert Pow2(1) == 2 && Pow2(2) == 4;
    hide Pow2, Low;
    Pow2Mono(2, 8);
    Pow2Mono(2, BUFFER_SIZE);
    LowSmall(2, BUFFER_SIZE);
  }

  // ----- little-endian reader -----

  /** The buffered bits, and the bytes still in the stream above them. */
  ghost function UnreadOf(buffer: nat, count: nat, stream: seq<Byte>): nat {
    buffer + Pow2(count) * Word(stream)
  }

  /** Moving n bytes from the stream to the buffer changes nothing unread. */
  lemma RefilledWord(buffer: nat, count: nat, stream: seq<Byte>, n: nat)
    requires buffer < Pow2(count) && n <= |stream| && count + 8 * n <= BUFFER_SIZE
    ensures var b := Joined(buffer, Word(stream[..n]), count);
            b < Pow2(count + 8 * n) && UnreadOf(b, count + 8 * n, stream[n..]) == UnreadOf(buffer, count, stream)
  {
    hide Pow2, Word, Joined;
    WordBelow(stream[..n]);
    JoinedValue(buffer, count, Word(stream[..n]), 8 * n);
    assert stream == stream[..n] + stream[n..];
    WordConcat(stream[..n], stream[n..]);
    Pow2Add(count, 8 * n);
    PushArithmetic(Pow2(count), Word(stream[..n]), Pow2(8 * n), Word(stream[n..]));
  }

  /** Taking n buffered bits takes them off the unread number. */
  lemma TakenBits(buffer: nat, count: nat, stream: seq<Byte>, n: nat)
    requires buffer < Pow2(count) && n <= count
    ensures Low(buffer, n) == Low(UnreadOf(buffer, count, stream), n)
    ensures Shr(buffer, n) < Pow2(count - n)
    ensures UnreadOf(Shr(buffer, n), count - n, stream) == Shr(UnreadOf(buffer, count, stream), n)
  {
    hide Pow2, Word, Low, Shr;
    ShrBelow(buffer, n, count - n);
    Parts(buffer, n);
    Pow2Add(n, count - n);
    PushArithmetic(Pow2(n), Shr(buffer, n), Pow2(count - n), Word(stream));
    PartsUnique(UnreadOf(buffer, count, stream), n, Low(buffer, n), UnreadOf(Shr(buffer, n), count - n, stream));
  }

  class LittleEndianReader {
    const fillWithZero: bool
    var stream: seq<Byte>
    var bitBuffer: nat
    var bitCount: nat

    ghost predicate Valid()
      reads this
    {
      bitCount <= BUFFER_SIZE && bitBuffer < Pow2(bitCount)
    }

    constructor (stream: seq<Byte>, fillWithZero: bool)
      ensures Valid() && this.fillWithZero == fillWithZero && Unread() == Word(stream) && Available() == 8 * |stream|
    {
      this.fillWithZero, this.stream, bitBuffer, bitCount := fillWithZero, stream, 0, 0;
    }

    /** Everything not read yet. */
    ghost function Unread(): nat
      reads this
    {
      UnreadOf(bitBuffer, bitCount, stream)
    }

    ghost function Available(): nat
      reads this
    {
      bitCount + 8 * |stream|
    }

    /**
     refill_buffer_from_stream; the stream may deliver any nonempty part of what it is asked
     for.  Stuck is the state the source's loop never leaves: it asks for no bytes although
     bits are missing and the stream has more.
     */
    method Refill(requested: nat) returns (status: Status)
      requires Valid() && requested <= BUFFER_SIZE
      modifies this
      ensures Valid() && Unread() == old(Unread())
      ensures status == Stuck <==> Stalls(old(bitCount), requested, |old(stream)|)
      ensures status == Stuck <==>
              var bytes := (64 - old(bitCount)) / 8; requested > old(bitCount) + 8 * bytes && |old(stream)| > bytes
      ensures status == Stuck ==> requested > bitCount && stream != [] && (BUFFER_SIZE - bitCount) / 8 == 0
      ensures status == EndOfStream <==> !fillWithZero && requested > old(Available())
      ensures status == Filled ==> bitCount >= requested
      ensures requested <= old(Available()) || status != Filled ==> Available() == old(Available())
      ensures status == Filled && requested > old(Available()) ==> bitCount == requested && stream == []
    {
      hide Pow2, Joined, UnreadOf, Stalls;
      ghost var stalls := Stalls(bitCount, requested, |stream|);
      StallCases(bitCount, requested, |stream|);
      while requested > bitCount
        invariant Valid() && Unread() == old(Unread()) && Available() == old(Available())
        invariant stalls == Stalls(bitCount, requested, |stream|)
        decreases |stream|
      {
        StallCases(bitCount, requested, |stream|);
        if stream == [] {
          if fillWithZero {
            PaddedWord(bitBuffer, bitCount, requested);
            bitCount := requested;
            return Filled;
          }
          return EndOfStream;
        }
        var bytesToRead := (BUFFER_SIZE - bitCount) / 8;
        if bytesToRead == 0 {
          return Stuck;
        }
        ghost var held, bytes := bitCount, |stream|;
        var n := Fetch(bytesToRead);
        StallStep(held, requested, bytes, n);
      }
      StallCases(bitCount, requested, |stream|);
      return Filled;
    }

    /** One read of the stream, which delivers some of the bytes asked for. */
    method Fetch(bytesToRead: nat) returns (n: nat)
      requires Valid() && 1 <= bytesToRead && bitCount + 8 * bytesToRead <= BUFFER_SIZE && stream != []
      modifies this
      ensures Valid() && 1 <= n <= bytesToRead && n <= |old(stream)| && stream == old(stream)[n..]
      ensures bitCount == old(bitCount) + 8 * n && Unread() == old(Unread())
    {
      hide Pow2, Joined, UnreadOf, Word;
      n :| 1 <= n <= bytesToRead && n <= |stream|;
      RefilledWord(bitBuffer, bitCount, stream, n);
      bitBuffer := Joined(bitBuffer, Word(stream[..n]), bitCount);
      bitCount := bitCount + n * 8;
      stream := stream[n..];
    }

    /** peek_bits, then discard_previously_peeked_bits */
    method ReadBits(count: nat, width: nat) returns (status: Status, value: nat)
      requires Valid() && count <= width <= BUFFER_SIZE
      modifies this
      ensures Valid()
      ensures status == Stuck <==> Stalls(old(bitCount), count, |old(stream)|)
      ensures status == Stuck <==>
              var bytes := (64 - old(bitCount)) / 8; count > old(bitCount) + 8 * bytes && |old(stream)| > bytes
      ensures status == EndOfStream <==> !fillWithZero && count > old(Available())
      ensures status == Filled ==> value == Low(old(Unread()), count) && Unread() == Shr(old(Unread()), count)
      ensures status == Filled ==>
                Available() == if count <= old(Available()) then old(Available()) - count else 0
      ensures status != Filled ==> Unread() == old(Unread()) && Available() == old(Available())
    {
      hide Pow2, UnreadOf, BitAnd, LsbMask, Low, Shr, Stalls;
      StallCases(bitCount, count, |stream|);
      status, value := Filled, 0;
      if count > bitCount {
        status := Refill(count);
        if status != Filled {
          return;
        }
      }
      LsbMaskKeeps(bitBuffer, count, width);
      TakenBits(bitBuffer, bitCount, stream, count);
      value := BitAnd(bitBuffer, LsbMask(Min(count, bitCount), width));
      var taken := Min(count, bitCount);
      bitBuffer := Shr(bitBuffer, taken);
      bitCount := bitCount - taken;
    }
  }

  datatype Status = Filled | EndOfStream | Stuck

  /** How far whole bytes can fill the buffer. */
  function FillLimit(held: nat): nat
    requires held <= BUFFER_SIZE
  {
    held + 8 * ((BUFFER_SIZE - held) / 8)
  }

  /** The request is beyond what whole bytes can fill, and the stream has more than those bytes. */
  predicate Stalls(held: nat, requested: nat, bytes: nat)
    requires held <= BUFFER_SIZE
  {
    requested > FillLimit(held) && bytes > (BUFFER_SIZE - held) / 8
  }

  /** Reading n bytes does not change whether the refill stalls. */
  lemma StallStep(held: nat, requested: nat, bytes: nat, n: nat)
    requires held <= BUFFER_SIZE && n <= bytes && n <= (BUFFER_SIZE - held) / 8
    ensures held + 8 * n <= BUFFER_SIZE
    ensures Stalls(held + 8 * n, requested, bytes - n) <==> Stalls(held, requested, bytes)
  {
  }

  /** A satisfied request or an empty stream does not stall; missing bits with no room for a byte do. */
  lemma StallCases(held: nat, requested: nat, bytes: nat)
    requires held <= BUFFER_SIZE
    ensures requested <= held || bytes == 0 ==> !Stalls(held, requested, bytes)
    ensures requested > held && bytes > 0 && (BUFFER_SIZE - held) / 8 == 0 ==> Stalls(held, requested, bytes)
    ensures held + 8 * bytes < requested <= BUFFER_SIZE ==> !Stalls(held, requested, bytes)
    ensures Stalls(held, requested, bytes) <==> var n := (64 - held) / 8; requested > held + 8 * n && bytes > n
  {
  }

  /** 57 is the largest request that never stalls, whatever is buffered and whatever the stream holds. */
  lemma FillLimits(count: nat)
    requires count <= BUFFER_SIZE
    ensures (forall held: nat, bytes: nat :: held <= BUFFER_SIZE ==> !Stalls(held, count, bytes)) <==> count <= 57
  {
    if count > 57 {
      assert Stalls(count - 1, count, 1);
    }
  }

  lemma StallsAt(held: nat, bytes: nat)
    requires held <= BUFFER_SIZE && held + 8 * bytes == 65
    ensures Stalls(held, 58, bytes)
  {
  }

  /** Nine bytes, seven bits read, and then a request for 58: the loop never ends, however the bytes arrive. */
  method StallExample(fillWithZero: bool) returns (status: Status)
    ensures status == Stuck
  {
    hide Pow2, UnreadOf, Word, Low, Shr, Stalls;
    FillLimits(7);
    var reader := new LittleEndianReader([1, 2, 3, 4, 5, 6, 7, 8, 9], fillWithZero);
    var value;
    status, value := reader.ReadBits(7, 8);
    StallsAt(reader.bitCount, |reader.stream|);
    status, value := reader.ReadBits(58, 64);
  }

  lemma PaddedWord(buffer: nat, count: nat, requested: nat)
    requires buffer < Pow2(count) && count <= requested
    ensures buffer < Pow2(requested) && UnreadOf(buffer, requested, []) == UnreadOf(buffer, count, [])
  {
    Pow2Mono(count, requested);
  }

  // ----- round trip -----

  ghost function Values(fields: seq<Field>): (v: seq<nat>)
    ensures |v| == |fields|
  {
    seq(|fields|, i requires 0 <= i < |fields| => fields[i].value)
  }

  /** Reading at the front takes the first field. */
  lemma PackedFront(fields: seq<Field>)
    requires fields != [] && Fits(fields)
    ensures Low(Packed(fields), fields[0].count) == fields[0].value
    ensures Shr(Packed(fields), fields[0].count) == Packed(fields[1..])
  {
    PartsUnique(Packed(fields), fields[0].count, fields[0].value, Packed(fields[1..]));
  }

  /** Fields written, aligned and flushed are read back in order, however the stream is cut into reads. */
  method RoundTrip(fields: seq<Field>, fillWithZero: bool) returns (values: seq<nat>)
    requires Fits(fields) && forall i :: 0 <= i < |fields| ==> fields[i].count <= 57
    ensures values == Values(fields)
  {
    hide Packed, TotalBits, Fits, WrittenOf, UnreadOf, Word, Pow2, Low, Shr, Clean, Stalls;
    var writer := new LittleEndianWriter();
    PackedNothing();
    for i := 0 to |fields|
      invariant writer.Valid() && writer.Written() == Packed(fields[..i]) && writer.Length() == TotalBits(fields[..i])
    {
      assert fields[..i + 1] == fields[..i] + [fields[i]];
      PackedPush(fields[..i], fields[i]);
      FitsAt(fields, i);
      Pow2Mono(fields[i].count, 64);
      CleanCases(fields[i].value, fields[i].count, 64, writer.bitCount);
      writer.WriteBits(fields[i].value, fields[i].count, 64);
    }
    assert fields[..|fields|] == fields == fields[0..];
    writer.Align();
    writer.Flush();
    FlushedAll(writer.stream, writer.bitBuffer);
    var reader := new LittleEndianReader(writer.stream, fillWithZero);
    values := [];
    for i := 0 to |fields|
      invariant reader.Valid() && reader.Unread() == Packed(fields[i..]) && reader.Available() >= TotalBits(fields[i..])
      invariant values == Values(fields)[..i]
    {
      FitsRest(fields, i);
      assert fields[i..][1..] == fields[i + 1..];
      PackedFront(fields[i..]);
      TotalFront(fields[i..]);
      FillLimits(fields[i].count);
      var status, value := reader.ReadBits(fields[i].count, 64);
      values := values + [value];
    }
  }

  lemma PackedNothing()
    ensures Packed([]) == 0 && TotalBits([]) == 0
  {
  }

  lemma FitsAt(fields: seq<Field>, i: nat)
    requires Fits(fields) && i < |fields|
    ensures fields[i].value < Pow2(fields[i].count)
  {
  }

  lemma FitsRest(fields: seq<Field>, i: nat)
    requires Fits(fields) && i < |fields|
    ensures Fits(fields[i..])
  {
  }

  lemma TotalFront(fields: seq<Field>)
    requires fields != []
    ensures TotalBits(fields) == fields[0].count + TotalBits(fields[1..])
  {
  }

  lemma FlushedAll(stream: seq<Byte>, buffer: nat)
    requires buffer < Pow2(0)
    ensures WrittenOf(stream, buffer) == Word(stream)
  {
  }

  lemma WholeBytes(length: nat, bytes: nat, bits: nat)
    requires length == 8 * bytes + bits
    ensures length % 8 == bits % 8 && (length + (8 - bits % 8)) % 8 == 0
  {
  }

  /** Moving n bytes from the buffer to the stream changes nothing written. */
  lemma FlushedWord(stream: seq<Byte>, buffer: nat, n: nat, count: nat)
    requires buffer < Pow2(count) && 8 * n <= count < 8 * n + 8
    ensures WrittenOf(stream + Bytes(buffer, n), Shr(buffer, 8 * n)) == WrittenOf(stream, buffer)
    ensures Shr(buffer, 8 * n) < Pow2(count - 8 * n) && (count == 8 * n ==> Shr(buffer, 8 * n) == 0)
  {
    hide Pow2, Word, Shr;
    Pow2Zero();
    WordConcat(stream, Bytes(buffer, n));
    WordBytes(buffer, n);
    Pow2Add(8 * |stream|, 8 * n);
    PushArithmetic(Pow2(8 * |stream|), Word(Bytes(buffer, n)), Pow2(8 * n), Shr(buffer, 8 * n));
    ShrBelow(buffer, 8 * n, count - 8 * n);
  }
}
