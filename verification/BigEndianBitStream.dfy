/** The big-endian bit streams of AK/BitStream.h: the first bit written is the highest. */
module BigEndianBitStream {
  import opened Wrappers
  import opened Words
  import opened Bits
  import opened BitStream

  /** Bytes as a big-endian number. */
  ghost function BigWord(bytes: seq<Byte>): nat {
    if bytes == [] then 0 else 256 * BigWord(bytes[..|bytes| - 1]) + bytes[|bytes| - 1]
  }

  lemma BigWordPush(bytes: seq<Byte>, x: Byte)
    ensures BigWord(bytes + [x]) == 256 * BigWord(bytes) + x
  {
    assert (bytes + [x])[..|bytes|] == bytes;
  }

  lemma {:induction false} BigWordFront(bytes: seq<Byte>)
    requires bytes != []
    ensures BigWord(bytes) == bytes[0] * Pow2(8 * (|bytes| - 1)) + BigWord(bytes[1..])
    ensures BigWord(bytes[1..]) < Pow2(8 * (|bytes| - 1))
  {
    var n := |bytes| - 1;
    if n > 0 {
      var front := bytes[..n];
      BigWordFront(front);
      assert bytes[1..][..n - 1] == front[1..];
      EightMore(n - 1);
      MulSwap(256, bytes[0], Pow2(8 * (n - 1)));
    }
  }

  /** hi, with the n bits of lo below it */
  ghost function Above(hi: nat, n: nat, lo: nat): nat { hi * Pow2(n) + lo }

  lemma AboveParts(hi: nat, m: nat, lo: nat, n: nat)
    requires hi < Pow2(m) && lo < Pow2(n)
    ensures Above(hi, n, lo) < Pow2(m + n) && Shr(Above(hi, n, lo), n) == hi && Low(Above(hi, n, lo), n) == lo
  {
    hide Pow2, Shr, Low;
    Pow2Add(m, n);
    MulLe(hi + 1, Pow2(m), Pow2(n));
    assert (hi + 1) * Pow2(n) == hi * Pow2(n) + Pow2(n);
    assert hi * Pow2(n) == Pow2(n) * hi;
    PartsUnique(Above(hi, n, lo), n, lo, hi);
  }

  lemma AboveAbove(x: nat, m: nat, y: nat, n: nat, z: nat)
    ensures Above(Above(x, m, y), n, z) == Above(x, m + n, Above(y, n, z))
  {
    hide Pow2;
    Pow2Add(m, n);
    HighArithmetic(x, Pow2(m), Pow2(n), y);
  }

  lemma HighArithmetic(v: int, p: int, q: int, x: int)
    ensures v * (p * q) + x * q == (v * p + x) * q
  {
    assert (v * p + x) * q == (v * p) * q + x * q;
  }

  /** The first bit of the number is the highest bit of the first byte. */
  lemma {:induction false} BigWordBit(bytes: seq<Byte>, j: nat)
    requires j < 8 * |bytes|
    ensures Bit(BigWord(bytes), 8 * |bytes| - 1 - j) == Bit(bytes[j / 8], 7 - j % 8)
  {
    hide Bit;
    assert Pow2(8) == 256;
    var n := |bytes| - 1;
    BitJoin(bytes[n], BigWord(bytes[..n]), 8, 8 * |bytes| - 1 - j);
    if j < 8 * n { BigWordBit(bytes[..n], j); }
  }

  // ----- writer -----

  class BigEndianWriter {
    var stream: seq<Byte>
    var currentByte: nat
    var bitOffset: nat

    ghost predicate Valid()
      reads this
    {
      bitOffset <= 7 && currentByte < Pow2(bitOffset)
    }

    constructor ()
      ensures Valid() && Written() == 0 && Length() == 0
    {
      stream, currentByte, bitOffset := [], 0, 0;
    }

    /** Everything written so far, as one number. */
    ghost function Written(): nat
      reads this
    {
      Above(BigWord(stream), bitOffset, currentByte)
    }

    ghost function Length(): nat
      reads this
    {
      8 * |stream| + bitOffset
    }

    /** One bit, and the byte when it is complete. */
    method WriteBit(bit: nat)
      requires Valid() && bit <= 1
      modifies this
      ensures Valid() && Written() == 2 * old(Written()) + bit && Length() == old(Length()) + 1
    {
      hide BigWord, BitOr, Low, Shl, Pow2, Above;
      NextBit(BigWord(stream), currentByte, bit, bitOffset);
      currentByte := Low(Shl(currentByte, 1), 8);
      currentByte := BitOr(currentByte, bit);
      bitOffset := bitOffset + 1;
      if bitOffset > 7 {
        BigWordPush(stream, currentByte);
        AboveByte(stream, currentByte);
        stream := stream + [currentByte];
        bitOffset, currentByte := 0, 0;
      }
    }

    /** write_bits of a value of the given width: from the highest of the count bits down. */
    method WriteBits(value: nat, count: nat, ghost width: nat)
      requires Valid() && count <= width && value < Pow2(width)
      modifies this
      ensures Valid() && Length() == old(Length()) + count
      ensures Written() == Above(old(Written()), count, Low(value, count))
    {
      hide BigWord, BitAnd, Above;
      var left: nat := count;
      AboveNothing(Written(), Shr(value, count));
      while left > 0
        invariant Valid() && left <= count && Length() == old(Length()) + (count - left)
        invariant Written() == Above(old(Written()), count - left, Low(Shr(value, left), count - left))
      {
        TopBits(old(Written()), value, left, count - left);
        var bit := BitAnd(Shr(value, left - 1), 1);
        left := left - 1;
        WriteBit(bit);
      }
    }

    /** align_to_byte_boundary: pads with zero bits. */
    method Align() returns (ghost pad: nat)
      requires Valid()
      modifies this
      ensures Valid() && bitOffset == 0 && pad < 8
      ensures Length() == old(Length()) + pad && Written() == Above(old(Written()), pad, 0)
    {
      hide BigWord, Low, Pow2, Above;
      pad := 0;
      if bitOffset == 0 {
        AboveNothing(Written(), 0);
        return;
      }
      pad := 8 - bitOffset;
      LowSmall(0, pad);
      WriteBits(0, 8 - bitOffset, 32);
      WholeBytes(Length(), |stream|, bitOffset);
    }
  }

  lemma AboveNothing(w: nat, x: nat)
    ensures Above(w, 0, Low(x, 0)) == w && Above(w, 0, 0) == w
  {
  }

  lemma AboveZero(n: nat, w: nat)
    ensures Above(0, n, w) == w
  {
  }

  lemma AboveByte(stream: seq<Byte>, b: Byte)
    ensures Above(BigWord(stream), 8, b) == 256 * BigWord(stream) + b == Above(256 * BigWord(stream) + b, 0, 0)
  {
    Constants256();
  }

  lemma NextBit(w: nat, current: nat, bit: nat, offset: nat)
    requires offset <= 7 && current < Pow2(offset) && bit <= 1
    ensures var c := BitOr(Low(Shl(current, 1), 8), bit);
            c == 2 * current + bit && c < Pow2(offset + 1) <= 256 &&
            Above(w, offset + 1, c) == 2 * Above(w, offset, current) + bit
    ensures Pow2(0) == 1 && Pow2(8) == 256
  {
    assert Pow2(offset + 1) == 2 * Pow2(offset) && Pow2(8) == 256 && Pow2(1) == 2;
    assert Shl(current, 1) == 2 * current;
    hide BitOr, Low, Shl, Pow2;
    Pow2Mono(offset + 1, 8);
    LowSmall(2 * current, 8);
    BitOrShl(current, bit, 1);
    MulSwap(w, 2, Pow2(offset));
    Pow2Zero();
  }

  lemma TopBits(w: nat, value: nat, left: nat, done: nat)
    requires left > 0
    ensures BitAnd(Shr(value, left - 1), 1) <= 1
    ensures Above(w, done + 1, Low(Shr(value, left - 1), done + 1))
         == 2 * Above(w, done, Low(Shr(value, left), done)) + BitAnd(Shr(value, left - 1), 1)
  {
    var y := Shr(value, left - 1);
    ShrShr(value, left - 1, 1);
    BitAndMask(y, 1);
    MulSwap(w, 2, Pow2(done));
  }

  // ----- reader -----

  class BigEndianReader {
    var stream: seq<Byte>
    var currentByte: Option<Byte>
    var bitOffset: nat

    ghost predicate Valid()
      reads this
    {
      currentByte.Some? ==> bitOffset <= 7
    }

    constructor (stream: seq<Byte>)
      ensures Valid() && Unread() == BigWord(stream) && Available() == 8 * |stream|
    {
      this.stream, currentByte, bitOffset := stream, None, 0;
    }

    /** Everything not read yet, as one number of Available() bits. */
    ghost function Unread(): nat
      requires Valid()
      reads this
    {
      if currentByte.Some? then
        Above(Low(currentByte.value, 8 - bitOffset), 8 * |stream|, BigWord(stream))
      else BigWord(stream)
    }

    ghost function Available(): nat
      requires Valid()
      reads this
    {
      (if currentByte.Some? then 8 - bitOffset else 0) + 8 * |stream|
    }

    /** The next byte of the stream becomes the current one. */
    method Load()
      requires Valid() && currentByte.None? && stream != []
      modifies this
      ensures Valid() && currentByte.Some? && bitOffset == 0 && |stream| == |old(stream)| - 1
      ensures Unread() == old(Unread()) && Available() == old(Available())
    {
      hide BigWord, Pow2, Low;
      BigWordFront(stream);
      assert Pow2(8) == 256 by { Constants256(); }
      LowSmall(stream[0], 8);
      currentByte, stream := Some(stream[0]), stream[1..];
      bitOffset := 0;
    }

    /** A whole aligned byte, or one bit. */
    method Take(whole: bool, result: nat, width: nat) returns (r: nat, ghost n: nat)
      requires Valid() && currentByte.Some? && (whole ==> bitOffset == 0)
      modifies this
      ensures Valid() && n == (if whole then 8 else 1) && n <= old(Available()) && Available() == old(Available()) - n
      ensures Unread() == Low(old(Unread()), Available())
      ensures r == Shifted(result, n, Shr(old(Unread()), Available()), width)
    {
      hide BigWord, Pow2, Low, Shr, BitAnd, Shifted, Above;
      var b := currentByte.value;
      BigWordBelow(stream);
      if whole {
        n := 8;
        TakeByte(b, |stream|, BigWord(stream));
        r := Shifted(result, 8, b, width);
        currentByte := None;
      } else {
        n := 1;
        TakeBit(b, bitOffset, |stream|, BigWord(stream));
        AboveZero(8 * |stream|, BigWord(stream));
        var bit := BitAnd(Shr(b, 7 - bitOffset), 1);
        r := Shifted(result, 1, bit, width);
        if bitOffset == 7 {
          currentByte := None;
        }
        bitOffset := bitOffset + 1;
      }
    }

    lemma UnreadBelow()
      requires Valid()
      ensures Unread() < Pow2(Available())
    {
      hide Pow2, Low, BigWord, Above;
      BigWordBelow(stream);
      if currentByte.Some? {
        AboveParts(Low(currentByte.value, 8 - bitOffset), 8 - bitOffset, BigWord(stream), 8 * |stream|);
      }
    }

    /** read_bits: the highest unread bits, or an error when there are too few. */
    method ReadBits(count: nat, width: nat) returns (r: Option<nat>)
      requires Valid() && count <= width && (width == 1 ==> count == 1)
      modifies this
      ensures Valid()
      ensures r.Some? <==> count <= old(Available())
      ensures r.Some? ==> Available() == old(Available()) - count
      ensures r.None? ==> Available() == 0
      ensures r.Some? ==> r.value == Shr(old(Unread()), Available()) && Unread() == Low(old(Unread()), Available())
    {
      hide BigWord, Pow2, Low, Shr, BitAnd, Shifted, Above;
      var result: nat, read: nat := 0, 0;
      ghost var u, a := Unread(), Available();
      UnreadBelow();
      StartBits(u, a);
      while read < count
        invariant Valid() && read <= count && read <= a && Available() == a - read
        invariant result == Shr(u, a - read) < Pow2(read) && Unread() == Low(u, a - read)
        decreases count - read, if currentByte.Some? then 0 else 1
      {
        if currentByte.Some? {
          var whole := width > 8 && count - read >= 8 && bitOffset % 8 == 0;
          ghost var n;
          result, n := Take(whole, result, width);
          NextBits(u, a - read, n, read, width);
          read := read + (if whole then 8 else 1);
        } else {
          if stream == [] {
            return None;
          }
          Load();
        }
      }
      return Some(result);
    }
  }

  lemma Constants256()
    ensures Pow2(8) == 256
  {
  }

  /** The result shifted up by n in a type of the given width, or-ed with the bits. */
  function Shifted(result: nat, n: nat, bits: nat, width: nat): nat {
    BitOr(Low(Shl(result, n), width), bits)
  }

  lemma BigWordBelow(bytes: seq<Byte>)
    ensures BigWord(bytes) < Pow2(8 * |bytes|)
  {
    hide Pow2;
    if bytes != [] {
      BigWordFront(bytes);
      EightMore(|bytes| - 1);
      MulStep(Pow2(8 * (|bytes| - 1)), bytes[0], 256);
      MulSwap(1, bytes[0], Pow2(8 * (|bytes| - 1)));
    } else {
      Pow2Zero();
    }
  }

  lemma TakeByte(b: Byte, n: nat, w: nat)
    requires w < Pow2(8 * n)
    ensures Low(b, 8) == b
    ensures Shr(Above(b, 8 * n, w), 8 * n) == b && Low(Above(b, 8 * n, w), 8 * n) == w
  {
    hide Pow2, Shr, Low;
    Constants256();
    LowSmall(b, 8);
    AboveParts(b, 8, w, 8 * n);
  }

  /** The top bit of what is left of a byte. */
  lemma TakeBit(b: Byte, offset: nat, n: nat, w: nat)
    requires offset <= 7 && w < Pow2(8 * n)
    ensures Shr(Above(Low(b, 8 - offset), 8 * n, w), 7 - offset + 8 * n) == BitAnd(Shr(b, 7 - offset), 1)
    ensures Low(Above(Low(b, 8 - offset), 8 * n, w), 7 - offset + 8 * n) == Above(Low(b, 7 - offset), 8 * n, w)
    ensures Low(b, 0) == 0
  {
    hide Pow2, Shr, Low, BitAnd, Above;
    var k := 7 - offset;
    LowNothing(b);
    LowSplit(b, k, 1);
    BitAndMask(Shr(b, k), 1);
    var bit := Low(Shr(b, k), 1);
    AboveSwap(bit, k, Low(b, k));
    AboveAbove(bit, k, Low(b, k), 8 * n, w);
    AboveParts(Low(b, k), k, w, 8 * n);
    AboveParts(bit, 1, Above(Low(b, k), 8 * n, w), k + 8 * n);
  }

  lemma AboveSwap(hi: nat, n: nat, lo: nat)
    ensures Above(hi, n, lo) == lo + Pow2(n) * hi
  {
  }

  lemma LowNothing(x: nat)
    ensures Low(x, 0) == 0 && Pow2(1) == 2
  {
  }

  lemma StartBits(u: nat, a: nat)
    requires u < Pow2(a)
    ensures Shr(u, a) == 0 && Low(u, a) == u
  {
    PartsUnique(u, a, u, 0);
  }

  /** Taking the top n of the a lowest bits of u continues the number read above them. */
  lemma NextBits(u: nat, a: nat, n: nat, read: nat, width: nat)
    requires n <= a && Shr(u, a) < Pow2(read) && read + n <= width
    ensures Shifted(Shr(u, a), n, Shr(Low(u, a), a - n), width) == Shr(u, a - n) < Pow2(read + n)
    ensures Low(Low(u, a), a - n) == Low(u, a - n)
  {
    hide Pow2, Shr, Low, Shifted;
    var before, low := Shr(u, a), Low(u, a);
    var t, lo := Shr(low, a - n), Low(low, a - n);
    Parts(u, a);
    Parts(low, a - n);
    ShrBelow(low, a - n, n);
    Pow2Add(a - n, n);
    PushArithmetic(Pow2(a - n), t, Pow2(n), before);
    PartsUnique(u, a - n, lo, t + Pow2(n) * before);
    ShiftedValue(before, read, n, t, width);
  }

  lemma ShiftedValue(before: nat, read: nat, n: nat, t: nat, width: nat)
    requires before < Pow2(read) && t < Pow2(n) && read + n <= width
    ensures Shifted(before, n, t, width) == t + Pow2(n) * before < Pow2(read + n)
  {
    hide Pow2, Low, Shl, BitOr;
    Pow2Add(n, read);
    MulStep(Pow2(n), before, Pow2(read));
    Pow2Mono(read + n, width);
    ShlIsProduct(before, n);
    LowSmall(Shl(before, n), width);
    BitOrShl(before, t, n);
  }

  // ----- round trip -----

  /** All fields as one number, the first one highest. */
  ghost function PackedHigh(fields: seq<Field>): nat {
    if fields == [] then 0 else Above(fields[0].value, TotalBits(fields[1..]), PackedHigh(fields[1..]))
  }

  lemma {:induction false} PackedHighPush(fields: seq<Field>, f: Field)
    ensures TotalBits(fields + [f]) == TotalBits(fields) + f.count
    ensures PackedHigh(fields + [f]) == Above(PackedHigh(fields), f.count, f.value)
  {
    PackedPush(fields, f);
    if fields == [] {
      assert fields + [f] == [f];
    } else {
      var rest := fields[1..];
      PackedHighPush(rest, f);
      assert (fields + [f])[1..] == rest + [f];
      AboveAbove(fields[0].value, TotalBits(rest), PackedHigh(rest), f.count, f.value);
    }
  }

  lemma {:induction false} PackedHighBelow(fields: seq<Field>)
    requires Fits(fields)
    ensures PackedHigh(fields) < Pow2(TotalBits(fields))
  {
    if fields != [] {
      PackedHighBelow(fields[1..]);
      AboveParts(fields[0].value, fields[0].count, PackedHigh(fields[1..]), TotalBits(fields[1..]));
    }
  }

  /** The first field is on top of the padded rest. */
  lemma PackedHighFront(fields: seq<Field>, pad: nat)
    requires fields != [] && Fits(fields)
    ensures Shr(Above(PackedHigh(fields), pad, 0), TotalBits(fields[1..]) + pad) == fields[0].value
    ensures Low(Above(PackedHigh(fields), pad, 0), TotalBits(fields[1..]) + pad) ==
            Above(PackedHigh(fields[1..]), pad, 0)
  {
    hide Pow2, Shr, Low, Above;
    var f, x, t := fields[0], PackedHigh(fields[1..]), TotalBits(fields[1..]);
    PackedHighBelow(fields[1..]);
    AboveAbove(f.value, t, x, pad, 0);
    AboveParts(x, t, 0, pad);
    AboveParts(f.value, f.count, Above(x, pad, 0), t + pad);
  }

  /** Fields written and aligned are read back in order. */
  method RoundTripHigh(fields: seq<Field>) returns (values: seq<nat>)
    requires Fits(fields) && forall i :: 0 <= i < |fields| ==> fields[i].count <= 64
    ensures values == Values(fields)
  {
    hide PackedHigh, TotalBits, Fits, BigWord, Pow2, Low, Shr, Above;
    var writer := new BigEndianWriter();
    HighNothing();
    for i := 0 to |fields|
      invariant writer.Valid() && writer.Written() == PackedHigh(fields[..i])
      invariant writer.Length() == TotalBits(fields[..i])
    {
      assert fields[..i + 1] == fields[..i] + [fields[i]];
      PackedHighPush(fields[..i], fields[i]);
      FitsAt(fields, i);
      LowSmall(fields[i].value, fields[i].count);
      Pow2Mono(fields[i].count, 64);
      writer.WriteBits(fields[i].value, fields[i].count, 64);
    }
    assert fields[..|fields|] == fields == fields[0..];
    ghost var pad := writer.Align();
    AboveEmpty(writer.stream, writer.currentByte);
    var reader := new BigEndianReader(writer.stream);
    values := [];
    for i := 0 to |fields|
      invariant reader.Valid() && reader.Unread() == Above(PackedHigh(fields[i..]), pad, 0)
      invariant reader.Available() == TotalBits(fields[i..]) + pad
      invariant values == Values(fields)[..i]
    {
      FitsRest(fields, i);
      assert fields[i..][1..] == fields[i + 1..];
      PackedHighFront(fields[i..], pad);
      TotalFront(fields[i..]);
      var r := reader.ReadBits(fields[i].count, 64);
      values := values + [r.value];
    }
  }

  lemma AboveEmpty(stream: seq<Byte>, current: nat)
    requires current < Pow2(0)
    ensures Above(BigWord(stream), 0, current) == BigWord(stream)
  {
  }

  lemma HighNothing()
    ensures PackedHigh([]) == 0 && TotalBits([]) == 0
  {
  }
}
