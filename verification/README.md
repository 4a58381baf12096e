# Verified models of AK

This project models nine algorithms of AK, the base library of SerenityOS, in Dafny and proves
what they promise. Each model follows its source file's form: a class where an object updates its
fields, an array where a buffer is written in place, a loop where the source loops. Machine words
are natural numbers below a power of two, with wrap-around, truncation and masks written out.

- **Multi-word integers** (`Words`, `Bits`, `Storage`, `Shifts`, `Division`, `Multiplication`; AK/BigIntBase.h).
  Words of any width `w`, spans over arrays, two's-complement meaning. Addition and subtraction
  satisfy the identity documented in the source, comparison has the sign of the difference,
  schoolbook multiplication of signed and unsigned operands is exact modulo the result size, and Knuth's Algorithm D
  (The Art of Computer Programming, volume 2, section 4.3.1) divides: the digit estimate is within
  one, one add-back suffices and neither VERIFY fires.
- **Robin Hood hash table** (`Probing`, `OrderLinks`, `TableSteps`, `HashTable`; AK/HashTable.h).
  Ordered or unordered, it refines a map and the list of keys by first insertion over every run of
  operations. The linked list survives displacement through the stack bucket, swaps of
  neighbouring buckets, backward-shift deletion and rehash. The entries that growth writes again are bounded by
  the keys. `TableSteps` holds the storage as a value
  with one spare bucket behind the last; the spare stands for the bucket on the stack.
- **Circular buffer** (`CircularBuffer`, `RingRun`; AK/CircularBuffer.cpp). The ring refines an
  unbounded byte history with a read position. The seekback copy with its doubling distance equals
  the byte-by-byte LZ77 copy. `RingRun` states this for whole runs and their replies, with conservation of bytes.
- **Substring search** (`MemMem`; AK/MemMem.h). Knuth-Morris-Pratt with the strong failure table over
  a haystack in chunks, bitap, and the dispatcher, all against the naive definition.
- **Decimal scanner** (`EightDigits`, `DecimalScan`; AK/FloatingPointStringConversions.cpp). The
  eight-digit bit tricks, and `parse_numbers` against the longest numeral spelled at the start of the text and
  the real number it denotes.
- **Bit streams** (`BitStream`, `BigEndianBitStream`; AK/BitStream.h). Writers and readers over one
  number, the bits written or unread; round trips for both byte orders.
- **Bitmap first fit** (`BitmapView`; AK/BitmapView.h). The word-skipping scan against the bit-level definition.
- **Lexical paths** (`LexicalPath`; AK/LexicalPath.cpp). The canonical path is the one shortest name of its
  place, and the relative path, which the absolute one undoes, has the fewest parts.
- **Intrusive binary heap** (`BinaryHeap`; AK/BinaryHeap.h). Under any strict weak order every run of insertions and
  removals from anywhere acts as on a bag of items, and draining sorts.

## Where the code does not meet the obvious property

- `div_mod_internal` writes as many remainder words as the dividend storage has. In a division such as
  `u128 % u256` (AK/UFixedBigInt.h:426-433) the remainder storage is longer and its last word keeps what
  it held. `DivModInternal` states this: the storage denotes the remainder iff its further words were
  zero. `StaleRemainderWord` is an instance. The documented requirement of `shift_right`, equal sizes,
  is not met there.
- `baseline_mul` widens the words of two one-word operands without extending their signs, so with a negative
  operand and a longer result it stores another number. `ProductExact` is the exact condition on the operands,
  `BaselineMul` proves it in both directions and says what is stored, and `LostSignExample` multiplies -1 by 1.
  The product of two signed words is taken to wrap where the code has signed overflow.
- `find_next_range_of_unset_bits` does not respect a starting position inside an empty word or behind the last
  whole word. `ScanFrom` is where it really starts. `FindNextRange` finds the first run from there on, which is the
  first from the given position on iff no run of the length starts in between; `EmptyWordExample` is an instance.
  A range that reaches into the bits behind the whole words is reported with the minimum length only.
- `copy_from_seekback` accepts any length, but when the length exceeds the empty space the doubled
  distance can pass the seekback limit and the VERIFY in `next_seekback_span` fires.
  `CircularBuffer.Overruns` is the exact condition on the arguments, `CopyFromSeekback` proves it in
  both directions, `OverrunsExactly` says it with powers of two, and `RingRun.OverrunExample` is a run that ends there.
- `refill_buffer_from_stream` asks for whole bytes only, so with 58 to 64 bits requested it can ask for
  none, and then it never ends. `Stalls` is the exact condition on the buffered bits, the request and
  the stream; `Refill` and `ReadBits` prove it in both directions for every chunking. `FillLimits` shows
  that 57 is the largest request that is always safe, and `StallExample` is an instance.
- The little-endian `write_bits` or-s the whole value into the buffer. Bits above the count stay zero
  iff `Clean`; a value below 2^count always is. `UncleanExample` writes 2 as one bit.
- The accumulated explicit exponent is exact below ten times its cap 0x10000000 and only there
  (`CappedExact`), and so is the scanned value unless it is zero (`ScannedValue`). `CapExample` is the text
  1e2684354560.
- `absolute_path` with an empty directory path starts at the root, although the empty path means the
  working directory. `AbsoluteMeaning` has the exact condition, `EmptyDirectoryExample` an instance.
- `bitap_bitwise` finds an empty needle at offset 1, and not at all in an empty haystack (`Bitap`).
  The dispatcher never passes an empty needle.
- The `has_eight_chars_to_read` callbacks in AK/FloatingPointStringConversions.cpp:2003-2036 compute
  head - end, which is never at least 8. `ParseNumbers` holds for every callback that only answers
  yes when eight characters are left, so for these too.
- The vector constructor of the heap writes positions only when it swaps. `Build` computes from the items which
  positions it writes; all recorded positions are right afterwards iff those of the other nodes were
  (`FromNodes`). `UntouchedExample` is an instance with two nodes. In heaps built by `insert` they always are (`Run`).
- `try_ensure_capacity` is documented as room for that many values without reallocation. `try_set` checks the load
  before it looks for the key, so replacing an entry can reallocate when the reserved number is reached
  (`ReplacingExample`). `Run` has the exact condition for any run (`Roomy`), and `ReserveSuffices` the promise it
  does keep.

## Model

| member | source | states |
|---|---|---|
| Storage.AddWord | AK/BigIntBase.h:218-228 | sum word and carry out together are exactly the two words plus the carry in |
| Storage.SubWord | AK/BigIntBase.h:260-270 | difference word and borrow together are exactly the difference minus the borrow in |
| Storage.ExtendedValue | AK/BigIntBase.h:474-480 | continuing a storage with its sign word keeps its two's-complement value |
| Storage.OverflowReport | AK/BigIntBase.h:466-470 | under the documented identity, the report is 0 exactly when the true sum is representable |
| Storage.CarryLoop | AK/BigIntBase.h:478-486 | the word loop computes the sum or difference of the extended operands modulo B^size, in place over an operand too, and returns the final carry |
| Storage.Add | AK/BigIntBase.h:462-492 | a ± b (with carry in) = c + r·2^(size·w) for mixed signedness and sizes; r = 0 iff the result is representable; only the result span changes |
| Storage.NegateWords | AK/BigIntBase.h:515-526 | stores the two's complement, in place or not; the result tells whether the operand was nonzero |
| Storage.SignWordsAbove | AK/BigIntBase.h:331-342 | when all higher words are sign words, the value depends on the low words only |
| Storage.SignificantWordAbove | AK/BigIntBase.h:331-345 | a higher word that is not a sign word puts the value beyond everything n words can hold |
| Storage.DiffersAbove | AK/BigIntBase.h:334-342 | true iff some word from the given index on differs from the sign word |
| Storage.CompareLow | AK/BigIntBase.h:350-363 | sign (or inequality only) of the difference of the low words |
| Storage.Compare | AK/BigIntBase.h:320-364 | 0 iff equal, and the sign of a - b unless only inequality is asked, across sizes and signedness |
| Shifts.ShiftedLeftValue | AK/BigIntBase.h:424-441 | the word-by-word left shift denotes the number shifted left modulo 2^(size·w) |
| Shifts.ShiftedRightValue | AK/BigIntBase.h:443-460 | the word-by-word right shift denotes the number shifted right |
| Shifts.MoveLeft | AK/BigIntBase.h:424-441 | the loop writes exactly the shifted words although source and destination may overlap |
| Shifts.MoveRight | AK/BigIntBase.h:443-460 | the loop writes exactly the shifted words although source and destination may overlap |
| Shifts.ShiftLeft | AK/BigIntBase.h:421-441 | stores value·2^shift modulo 2^(size·w), in place or not |
| Shifts.ShiftRight | AK/BigIntBase.h:443-460 | stores value / 2^shift, in place or not |
| Division.EstimateWithinOne | AK/BigIntBase.h:614-633 | step D3: for a normalized divisor of any length, the refined estimate (shortcut included) is the true digit or one more, and is a word |
| Division.DigitLower | AK/BigIntBase.h:614-633 | an estimate that passes the two-word comparison exceeds the true digit by at most one |
| Division.ShortcutLower | AK/BigIntBase.h:616-618 | when the leading words are equal, B - 1 exceeds the true digit by at most one |
| Division.LeadingWordBound | AK/BigIntBase.h:616 | the first VERIFY: the leading dividend word never exceeds the leading divisor word |
| Division.DoubleWord | AK/BigIntBase.h:636-643 | qhat times a word plus the carry fits two words and its high part is a word |
| Division.MulSub | AK/BigIntBase.h:635-644 | step D4: subtracts qhat times the divisor from the window; the final borrow is worth B^(n+1) |
| Division.BorrowMeansOneTooMany | AK/BigIntBase.h:644-653 | a borrow is left over exactly when the estimate is one too large |
| Division.AddBack | AK/BigIntBase.h:646-651 | step D6: one add-back restores the true remainder, and the second VERIFY (overflow is 1) holds |
| Division.DivStep | AK/BigIntBase.h:613-653 | one window: old window = digit·divisor + new window, with new window < divisor |
| Division.DivDigit | AK/BigIntBase.h:613-654 | one quotient digit inside the whole dividend; words outside the window keep their values |
| Division.DivLoop | AK/BigIntBase.h:611-654 | all digits: the scaled dividend equals quotient·divisor plus the words left, which are below the divisor |
| Division.CountLeadingZeroes | AK/BigIntBase.h:607 | the shift brings the leading word into the upper half of the word range without overflow |
| Division.ScaledPrefix | AK/BigIntBase.h:607-609 | shifting scales every prefix of the words whose top word has room |
| Division.NormalizedWords | AK/BigIntBase.h:603-609 | after normalization both numbers are scaled by the same power, the divisor's top bit is set and the first window is below the divisor |
| Division.Normalize | AK/BigIntBase.h:603-609 | the in-place shifts of step D1 establish that |
| Division.WordsAbove | AK/BigIntBase.h:659-661 | words above a prefix leave the value unchanged iff they are all zero |
| Division.Restore | AK/BigIntBase.h:659-661 | step D8: the low words, as many as both storages have, receive the remainder and the others stay, so the storage denotes it iff the others were zero |
| Division.Divide | AK/BigIntBase.h:602-657 | steps D1 to D7: quotient and remainder of the dividend by the divisor, the scaled remainder left in the low dividend words |
| Division.DivModInternal | AK/BigIntBase.h:596-662 | d = v·q + r with 0 <= r < v, for every word size, every length with n >= 2 and every remainder size; the low remainder words hold r, further words stay, so the whole storage holds r iff those were zero |
| Division.StaleRemainderWord | AK/BigIntBase.h:659-661 | a two-word dividend by a four-word divisor storage: the unwritten top word makes the remainder exceed the divisor |
| Multiplication.ColumnsAreProduct | AK/BigIntBase.h:574-590 | the schoolbook columns below B^i agree with the product modulo B^i |
| Multiplication.PartialBound | AK/BigIntBase.h:575-589 | the double-word carry stays below B² while an operand has at most B words |
| Multiplication.AddColumn | AK/BigIntBase.h:576-590 | one column: result word plus B·carry is the incoming carry plus the whole column |
| Multiplication.Schoolbook | AK/BigIntBase.h:574-590 | the column loop stores the product of two unsigned operands of any sizes modulo 2^(size·w) |
| Multiplication.Inverted | AK/BigIntBase.h:561-570 | the buffer receives the magnitude of a negative operand |
| Multiplication.Prepared | AK/BigIntBase.h:558-572 | magnitude or plain words, cut to the result size, agree with the operand modulo 2^(size·w) up to the sign taken off |
| Multiplication.SignedProduct | AK/BigIntBase.h:558-593 | negating the product of the magnitudes iff the signs differ gives the signed product modulo 2^(size·w) |
| Multiplication.MulSigned | AK/BigIntBase.h:557-593 | the path for longer operands stores the signed product modulo 2^(size·w), for every mix of signs and sizes |
| Multiplication.MulWords | AK/BigIntBase.h:535-549 | the one-word path stores the unsigned double-word product followed by sign words |
| Multiplication.WordsStoredMeaning | AK/BigIntBase.h:535-549 | in numbers: the unsigned product of the two words, plus 2^(size·w) - 2^(2w) when the signs differ; its low word in a result of one word |
| Multiplication.WordsExact | AK/BigIntBase.h:535-549 | what the one-word path stores is the signed product iff `ProductExact`: no operand is negative, the result has one word, both words are the least one, or the product is zero in two words |
| Multiplication.ProductMeaning | AK/BigIntBase.h:529-594 | the product meant is IntVal·IntVal modulo 2^(size·w), the plain product for operands that are not negative; the condition `ProductExact` holds of these and of all longer operands |
| Multiplication.BaselineMul | AK/BigIntBase.h:529-594 | for signed or unsigned operands and results of any sizes: stores operand1·operand2 modulo 2^(size·w) when an operand has several words or none is negative; for one word each it stores the unsigned double word followed by sign words, which is the product iff `ProductExact` |
| Multiplication.LostSignExample | AK/BigIntBase.h:535-549 | -1 times 1 in one word each is stored as 2^w - 1 in two words |
| Probing.DecodeIsProbe | AK/HashTable.h:579-602 | the state byte decodes to the true distance from the home bucket, also above 253 |
| Probing.RunUsed | AK/HashTable.h:670-673 | every bucket between the home of an entry and the entry is used, with a probe length at least the distance |
| Probing.PlaceKeeps | AK/HashTable.h:652-685 | writing an entry where it is at least as poor as the occupant keeps the Robin Hood order |
| Probing.ShiftKeeps | AK/HashTable.h:765-779 | moving an entry one bucket towards its home keeps the Robin Hood order |
| Probing.FreeKeeps | AK/HashTable.h:766-787 | freeing a bucket whose successor is free or at home keeps the Robin Hood order |
| Probing.FreeBucket | AK/HashTable.h:509 | with fewer entries than buckets some bucket is free, so the unbounded probe loops stop |
| Probing.Absent | AK/HashTable.h:568-576 | reaching a free or richer bucket without meeting the key proves that the key is absent |
| OrderLinks.AppendedLinked | AK/HashTable.h:607-617 | a new bucket becomes the last of the list that enumerates the keys in insertion order |
| OrderLinks.RelocatedLinked | AK/HashTable.h:618-645 | copying a bucket elsewhere and repairing the links keeps the same enumeration |
| OrderLinks.SwappedLinked | AK/HashTable.h:618-645 | exchanging two buckets and repairing the links keeps the enumeration, neighbours in either order included |
| OrderLinks.DisplacedLinked | AK/HashTable.h:673-684 | moving a bucket to the stack and reusing its place for a new entry appends that entry and keeps the others in order |
| OrderLinks.UnlinkedLinked | AK/HashTable.h:726-737 | unlinking removes exactly one key from the enumeration |
| OrderLinks.MovedLinked | AK/HashTable.h:744-755 | a backward shift with its neighbour repair keeps the enumeration |
| TableSteps.PlacedOk | AK/HashTable.h:652-659 | insertion into a free bucket keeps storage, map and order in agreement |
| TableSteps.ReplacedOk | AK/HashTable.h:662-666 | in-place replacement changes one value and no order |
| TableSteps.DisplaceOkTable | AK/HashTable.h:673-685 | displacing a richer bucket through the stack bucket keeps storage, map and order in agreement |
| TableSteps.SwapSpareOk | AK/HashTable.h:701-707 | swapping the carried bucket with a richer one keeps the agreement |
| TableSteps.PlaceSpareOk | AK/HashTable.h:694-699 | putting the carried bucket into a free one keeps the agreement |
| TableSteps.UnlinkOkTable | AK/HashTable.h:724-738 | deletion removes one key and leaves its bucket stale |
| TableSteps.ShiftOkTable | AK/HashTable.h:765-780 | a backward shift moves the stale bucket forward and keeps the agreement |
| TableSteps.MarkFreeOk | AK/HashTable.h:786-787 | freeing the last stale bucket completes the deletion |
| TableSteps.ScanDeletes | AK/HashTable.h:466-476 | a deletion under the scan leaves no matching entry in the buckets already passed, wrap-around included |
| HashTable.HashTable.Lookup | AK/HashTable.h:561-577 | finds the bucket of the key iff the key is in the table; terminates because a free bucket exists |
| HashTable.HashTable.FindSpot | AK/HashTable.h:647-717 | stops at a free bucket, at the key, or at a richer bucket; in the first and last case the key is absent |
| HashTable.HashTable.CarryOn | AK/HashTable.h:687-708 | the displacement loop ends in a free bucket with contents and order unchanged |
| HashTable.HashTable.WriteValue | AK/HashTable.h:604-718 | inserted, replaced or kept exactly as a map update would; a new key goes to the end of the order |
| HashTable.HashTable.DeleteBucket | AK/HashTable.h:720-788 | exactly the entry of that bucket leaves map and order; others move back at most within their run |
| HashTable.HashTable.Remove | AK/HashTable.h:432-460 | true iff the key was present; map minus the key, order minus the key |
| HashTable.HashTable.RemoveAllMatching | AK/HashTable.h:462-479 | a key stays iff it was there and its entry does not match, although deletions shift buckets under the scan; result tells whether any went |
| HashTable.HashTable.CopyInOrder | AK/HashTable.h:548-551 | the ordered iteration re-inserts all entries in list order |
| HashTable.HashTable.CopyBuckets | AK/HashTable.h:548-551 | the unordered iteration re-inserts all entries |
| HashTable.HashTable.Rehash | AK/HashTable.h:524-555 | same map, same order when ordered, at least the requested and eight more buckets; every entry is written again once |
| HashTable.HashTable.TrySet | AK/HashTable.h:359-366 | inserts, replaces or keeps with the documented result; the buckets grow, by 60 percent and by eight at least, iff one more entry would fill 80 percent of them, and a free bucket always remains |
| HashTable.HashTable.SetAll | AK/HashTable.h:359-366 | over any run of sets on a new table, the entries written again by growth are at most 3.5 times the keys plus 2.5, however the allocator rounds |
| HashTable.RepaidStep | AK/HashTable.h:362-363 | growing by 60 percent at 80 percent load keeps the entries written again within twice the buckets and within that bound on the keys |
| HashTable.HashTable.EnsureCapacity | AK/HashTable.h:234-244 | the requested number of values stays below the load limit; reallocates iff the required number of buckets is larger; nothing else changes |
| HashTable.HashTable.TakeFirst | AK/HashTable.h:490-497 | removes and returns the oldest entry |
| HashTable.HashTable.TakeLast | AK/HashTable.h:481-488 | removes and returns the newest entry |
| HashTable.HashTable.Apply | AK/HashTable.h:234-497 | each operation changes the table and replies as the map and list model does, and reallocates iff `Grows`; a take stops in a VERIFY iff there is nothing to take |
| HashTable.HashTable.Run | AK/HashTable.h:234-497 | every sequence of set, find, remove, bulk removal, reserve, take_first and take_last acts and replies as on a plain map and, when ordered, on the list of keys by first insertion; it leaves the capacity alone iff no operation needs more room |
| HashTable.ReserveSuffices | AK/HashTable.h:236-239 | the documented promise over whole runs: once n values are reserved, no run reallocates whose sets each find fewer than n keys, removals and lookups in between included |
| HashTable.ReplacingExample | AK/HashTable.h:359-366 | replacing one of six keys in the eight buckets that suffice for six reallocates |
| CircularBuffer.SlotIsMod | AK/CircularBuffer.cpp:98-130 | the ring position used throughout is the remainder modulo the capacity |
| CircularBuffer.RingPiece | AK/CircularBuffer.cpp:105-130 | a contiguous piece of the ring is the corresponding piece of the history |
| CircularBuffer.RingAppend | AK/CircularBuffer.cpp:143-164 | overwriting the oldest slots appends to the history |
| CircularBuffer.CircularBuffer.NextWriteSpan | AK/CircularBuffer.cpp:98-103 | starts at the write position, stays inside the ring and the empty space, and is empty iff the ring is full |
| CircularBuffer.CircularBuffer.NextReadSpan | AK/CircularBuffer.cpp:105-119 | starts at the given unread byte, empty exactly when there is none |
| CircularBuffer.CircularBuffer.NextSeekbackSpan | AK/CircularBuffer.cpp:121-130 | starts `distance` before the end of the history and goes to the end of the ring or of the distance |
| CircularBuffer.CircularBuffer.Write | AK/CircularBuffer.cpp:143-164 | accepts min(n, empty space) bytes and appends them to the history, also when the source is a seekback span of the ring itself |
| CircularBuffer.CircularBuffer.Read | AK/CircularBuffer.cpp:166-187 | delivers the oldest unread bytes, min(size, used space) of them, and nothing else changes |
| CircularBuffer.CircularBuffer.ReadWithSeekback | AK/CircularBuffer.cpp:189-208 | delivers the history bytes starting `distance` before its end, or an error beyond the limit |
| CircularBuffer.CircularBuffer.Discard | AK/CircularBuffer.cpp:210-218 | skips unread bytes iff there are enough |
| CircularBuffer.CircularBuffer.Clear | AK/CircularBuffer.cpp:91-96 | starts a new history |
| CircularBuffer.RepeatsIsLzCopy | AK/CircularBuffer.cpp:253-277 | a history that repeats at the distance is the byte-by-byte LZ77 copy |
| CircularBuffer.RepeatsChunk | AK/CircularBuffer.cpp:263-273 | copying from any reachable multiple of the distance continues the repetition, which is why doubling is sound |
| CircularBuffer.OverrunsStep | AK/CircularBuffer.cpp:259-273 | one round of the loop preserves whether the seekback limit will be overrun |
| CircularBuffer.OverrunsExactly | AK/CircularBuffer.cpp:259-273 | with t the largest d·2^k that fits the ring, the limit is overrun iff room is left after 2t - d copied bytes (more when a span of t wraps around) and over t bytes are still asked for |
| CircularBuffer.CircularBuffer.CopyFromSeekback | AK/CircularBuffer.cpp:253-277 | appends exactly min(length, empty space) bytes, each equal to the byte `distance` before it, as the byte-by-byte LZ77 copy does; the VERIFY fires iff `Overruns` holds of the arguments, never when the length fits the empty space |
| CircularBuffer.CircularBuffer.NextSearchSpan | AK/CircularBuffer.cpp:132-141 | starts `distance` before the read position |
| CircularBuffer.CircularBuffer.MatchLength | AK/CircularBuffer.cpp:490-502 | the longest common prefix of the unread bytes and the bytes `distance` before them, despite wrap-around |
| CircularBuffer.MatchIsLongest | AK/CircularBuffer.cpp:490-502 | the match length: all bytes before it agree, no unread byte is used as a source, and the next two bytes differ |
| CircularBuffer.CircularBuffer.InRingLimit | AK/CircularBuffer.cpp:56-59 | a distance is within the search limit iff the byte that far before the read position exists and is still in the ring |
| CircularBuffer.CircularBuffer.FindCopyInSeekback | AK/CircularBuffer.cpp:468-513 | the first longest match among the listed distances that are at least the minimum and whose byte is still in the ring, or none iff all are shorter than the minimum |
| RingRun.Apply | AK/CircularBuffer.cpp:91-277 | each operation does to the ring what it does to an unbounded history with a read position, and replies the same |
| RingRun.Run | AK/CircularBuffer.cpp:18-277 | every run of writes, reads, seekback reads, discards, seekback copies and clears from an empty ring replies as the history model does, and stops in a VERIFY iff the model says so |
| RingRun.OverrunExample | AK/CircularBuffer.cpp:121-124 | a run on a ring of four whose seekback copy doubles its distance past the limit and trips the VERIFY |
| RingRun.Conservation | AK/CircularBuffer.cpp:143-187 | over any run without discard and clear, the bytes read followed by the unread bytes are exactly the accepted bytes |
| MemMem.BorderOfBorder | AK/MemMem.h:57-68 | the shorter borders of a prefix are the borders of its border |
| MemMem.StrongSame | AK/MemMem.h:58-59 | inheriting the table entry of the longest border is correct when the next bytes agree |
| MemMem.FallBack | AK/MemMem.h:61-64 | falling back along the strong table skips no border that the next byte could extend |
| MemMem.NextLongest | AK/MemMem.h:62-67 | after the fall back the candidate is the longest border of the longer prefix |
| MemMem.PartialTable | AK/MemMem.h:49-70 | every entry is the longest border followed by a different byte, or -1 |
| MemMem.FlattenPrefix | AK/MemMem.h:78-84 | chunk positions correspond to positions of the concatenation, empty chunks included |
| MemMem.MatchFails | AK/MemMem.h:93-98 | on a mismatch the table entry loses no occurrence |
| MemMem.Search | AK/MemMem.h:45-102 | the least occurrence in the concatenation of the chunks, or none iff there is none; both loops terminate |
| MemMem.MaskStep | AK/MemMem.h:30-31 | the mask update clears exactly the bit of the position that holds the byte |
| MemMem.NeedleMasks | AK/MemMem.h:24-31 | bit k of the mask of byte c is clear iff the needle holds c at k |
| MemMem.StateStep | AK/MemMem.h:34-35 | or and shift keep: bit k is clear iff the first k needle bytes end the scanned haystack |
| MemMem.Bitap | AK/MemMem.h:18-42 | the first occurrence for needles of 1 to 31 bytes; for an empty needle offset 1, or none in an empty haystack |
| MemMem.Find | AK/MemMem.h:104-128 | equals the naive first occurrence on all lengths, whichever branch is taken |
| EightDigits.TestByte | AK/FloatingPointStringConversions.cpp:188-205 | the lowest byte that is no digit makes the test nonzero whatever carries or borrows it causes |
| EightDigits.HasEightDigitsCorrect | AK/FloatingPointStringConversions.cpp:188-205 | accepts exactly the words whose eight bytes are ASCII digits |
| EightDigits.EightDigitsToValueCorrect | AK/FloatingPointStringConversions.cpp:207-243 | the multiply-and-mask cascade computes the decimal value of eight digits |
| DecimalScan.CappedExact | AK/FloatingPointStringConversions.cpp:331-339 | the capped exponent is exact iff it is below ten times the cap, and stays at least the cap otherwise |
| DecimalScan.TakenIsLongest | AK/FloatingPointStringConversions.cpp:254-343 | every spelling (sign, digits, dot, digits, letter, sign, digits, given by characters) at the start of the text is the one the grammar takes, or ends earlier |
| DecimalScan.NumeralIsLongest | AK/FloatingPointStringConversions.cpp:254-343 | there is a numeral iff some spelling begins the text, and it is what the longest spelling says |
| DecimalScan.ValueIsDenoted | AK/FloatingPointStringConversions.cpp:286-342 | whole part plus fraction, times or divided by ten to the explicit exponent, is the significand times ten to the total exponent |
| DecimalScan.ScanDigits | AK/FloatingPointStringConversions.cpp:262-272 | value·10^k plus the digits modulo 2^64, up to the first non-digit, for every eight-character callback that is sound |
| DecimalScan.ScanSignificand | AK/FloatingPointStringConversions.cpp:274-296 | both digit parts are delimited as the grammar says and accumulated modulo 2^64 |
| DecimalScan.ScanExponent | AK/FloatingPointStringConversions.cpp:298-343 | sign and digits after the letter, or nothing and no characters consumed |
| DecimalScan.LeadingZeros | AK/FloatingPointStringConversions.cpp:350-356 | the walk counts the zeros before the first significant digit; it leaves the numeral only when that is all zeros |
| DecimalScan.LeadingCount | AK/FloatingPointStringConversions.cpp:348-358 | after subtracting the zeros, more than 19 digits remain iff the significand is at least 10^19 |
| DecimalScan.Reparse | AK/FloatingPointStringConversions.cpp:363-376 | takes digits until the mantissa has nineteen of them, without overflow |
| DecimalScan.KeepNineteen | AK/FloatingPointStringConversions.cpp:358-399 | nineteen digits m and an exponent that bracket the significand: m·10^k <= s < (m+1)·10^k |
| DecimalScan.Narrow | AK/FloatingPointStringConversions.cpp:345-403 | the accumulated mantissa when it is exact, nineteen digits otherwise |
| DecimalScan.ParseNumbers | AK/FloatingPointStringConversions.cpp:246-405 | valid iff the text starts with a numeral of the grammar; sign, parts and end as in the grammar; mantissa and exponent exact or bracketing |
| DecimalScan.ScannedValue | AK/FloatingPointStringConversions.cpp:246-405 | as reals: mantissa·10^exponent equals the value iff it is zero or the explicit exponent is below 2684354560, ten times the cap; beyond 19 digits 10^18 <= m < 10^19 brackets it iff the exponent is below that |
| DecimalScan.CapExample | AK/FloatingPointStringConversions.cpp:331-342 | 1e2684354560, whose exponent is ten times the cap, is parsed as another number |
| BitStream.LsbMaskKeeps | AK/BitStream.h:134-141 | masking keeps exactly the low bits |
| BitStream.JoinedValue | AK/BitStream.h:382-404 | or-ing a shifted value into the buffer adds it above the buffered bits |
| BitStream.JoinedBits | AK/BitStream.h:400-401 | or-ing a value of any size into the buffer joins what fits; no bit lands above the count iff that part has no more bits |
| BitStream.SplitValue | AK/BitStream.h:386-395 | a value written in two parts across a flush contributes the same number |
| BitStream.CleanCases | AK/BitStream.h:381-404 | `Clean` case by case: with a full buffer, across a flush, exactly filling it and within it |
| BitStream.FlushedWord | AK/BitStream.h:406-422 | moving whole bytes to the stream changes nothing written |
| BitStream.LittleEndianWriter.Flush | AK/BitStream.h:406-422 | whole bytes leave the buffer; the written number is unchanged |
| BitStream.LittleEndianWriter.FillUp | AK/BitStream.h:386-395 | the low bits that fit complete the buffer and leave it |
| BitStream.LittleEndianWriter.WriteBits | AK/BitStream.h:381-404 | for any value of the type: bits above the count stay zero iff `Clean`, and then the low count bits are added above everything written, across flushes |
| BitStream.UncleanExample | AK/BitStream.h:381-404 | writing the byte 2 as one bit leaves a bit above the count in the buffer |
| BitStream.LittleEndianWriter.Align | AK/BitStream.h:443-449 | pads with zero bits to a byte boundary |
| BitStream.RefilledWord | AK/BitStream.h:263-268 | moving bytes into the buffer changes nothing unread |
| BitStream.StallStep | AK/BitStream.h:263-268 | reading bytes does not change whether the refill stalls |
| BitStream.LittleEndianReader.Refill | AK/BitStream.h:251-272 | for every chunking: never ends iff `Stalls`; otherwise fills up to the request, pads with zeros, or fails iff the stream is too short |
| BitStream.FillLimits | AK/BitStream.h:253-268 | 57 is the largest request that stalls for no buffered bits and no stream |
| BitStream.StallExample | AK/BitStream.h:251-272 | nine bytes, seven bits read and a request for 58 never end, however the bytes arrive |
| BitStream.LittleEndianReader.ReadBits | AK/BitStream.h:207-234 | any count up to the type width: the low bits of the unread number, which is shifted down; an error iff the stream is too short; no end iff whole bytes cannot fill the request and the stream has more than those |
| BitStream.RoundTrip | AK/BitStream.h:207-449 | any fields of at most 57 bits written, aligned and flushed are read back in order for every chunking |
| BigEndianBitStream.BigWordBit | AK/BitStream.h:74-80 | the first bit of the stream's number is the highest bit of its first byte |
| BigEndianBitStream.BigEndianWriter.WriteBits | AK/BitStream.h:299-320 | appends the low count bits of a value of the type, highest first, for every count up to the width of the type |
| BigEndianBitStream.BigEndianReader.ReadBits | AK/BitStream.h:55-102 | returns the highest unread bits, byte-wise or bit-wise, or an error iff there are too few, with nothing left to read |
| BigEndianBitStream.RoundTripHigh | AK/BitStream.h:55-320 | any fields of at most 64 bits written big-endian and aligned are read back in order |
| BitmapView.WordBit | AK/BitmapView.h:209-211 | bit k of a little-endian word is bit k mod 8 of byte k / 8 |
| BitmapView.BucketBit | AK/BitmapView.h:209-211 | bit k of a native word is the bit of the bitmap at 64·index + k |
| BitmapView.TrailingUnset | AK/BitmapView.h:257-264 | counting trailing zeroes counts unset bits up to a set one |
| BitmapView.TrailingSet | AK/BitmapView.h:270-274 | counting trailing zeroes of the complement counts set bits, within the word |
| BitmapView.ScanSet | AK/BitmapView.h:220-228 | set bits end a run that is too short, and no run of the length starts before them |
| BitmapView.ScanBucket | AK/BitmapView.h:242-276 | the scan of a mixed word from one of its bits on finds the first run or extends the current one |
| BitmapView.ScanBuckets | AK/BitmapView.h:208-295 | full, empty and mixed words and the trailing bits together: the first run at or after `ScanFrom` |
| BitmapView.ScanTrailing | AK/BitmapView.h:279-293 | the bits behind the whole words complete the current run or hold the first one |
| BitmapView.BucketEmpty | AK/BitmapView.h:229-240 | a word is zero iff its 64 bits are unset |
| BitmapView.FromRespected | AK/BitmapView.h:202-296 | a search that starts too early answers for the given position iff no run of the length starts in between |
| BitmapView.FindNextRange | AK/BitmapView.h:202-296 | from every position: the first run of at least the minimum length from the start of an empty word, from the trailing bits, or else from that position on, or none; its length goes on to the maximum, a set bit or the end of the whole words, and is the minimum behind these; it answers for the given position iff no run starts in between |
| BitmapView.EmptyWordExample | AK/BitmapView.h:229-240 | searching an empty word from bit 1 on finds bit 0 |
| BitmapView.FindFirstFit | AK/BitmapView.h:324-332 | the lowest index that starts that many unset bits, or none iff there is none |
| LexicalPath.SplitView | AK/ByteString.cpp:126-148 | the nonempty pieces between slashes |
| LexicalPath.SplitConcat | AK/ByteString.cpp:126-148 | splitting at a slash splits both sides |
| LexicalPath.SplitJoin | AK/ByteString.cpp:126-148 | splitting undoes joining |
| LexicalPath.PlainIsCanonical | AK/LexicalPath.cpp:114-116 | the shortcut for paths without dots, empty parts or trailing slash returns what the general case would |
| LexicalPath.CanonicalizedPath | AK/LexicalPath.cpp:108-152 | loop and shortcut compute the canonical path |
| LexicalPath.CanonicalIdempotent | AK/LexicalPath.cpp:108-152 | canonicalizing twice is canonicalizing once |
| LexicalPath.CanonicalLocation | AK/LexicalPath.cpp:108-152 | a path and its canonical form lead to the same place from every directory, under stack semantics |
| LexicalPath.CanonicalUnique | AK/LexicalPath.cpp:108-152 | two paths have the same canonical form iff both or neither are absolute and they lead to the same place from every directory |
| LexicalPath.CanonicalLength | AK/LexicalPath.cpp:108-152 | no nonempty path is shorter than its canonical form, and one of the same length is that form |
| LexicalPath.CanonicalShortest | AK/LexicalPath.cpp:108-152 | every other nonempty path of its kind that leads to the same place from every directory is longer |
| LexicalPath.AbsolutePath | AK/LexicalPath.cpp:154-160 | the canonical target, or the canonical path of the target below the directory |
| LexicalPath.AbsoluteOf | AK/LexicalPath.cpp:154-160 | for a relative target: the reduction of the directory continued by the target |
| LexicalPath.AbsoluteMeaning | AK/LexicalPath.cpp:154-160 | absolute_path leads from every directory where the target leads from the given directory, iff that is not the empty path or the target is absolute |
| LexicalPath.AbsoluteIsCanonical | AK/LexicalPath.cpp:154-160 | the answer of absolute_path is canonical, and absolute iff one of the paths is or the directory is empty |
| LexicalPath.EmptyDirectoryExample | AK/LexicalPath.cpp:154-160 | from the empty path, which means the working directory, the target "a" becomes "/a" |
| LexicalPath.BelowParts | AK/LexicalPath.cpp:183-186 | the string prefix comparison holds iff the parts of one path properly continue those of the other |
| LexicalPath.RelativePath | AK/LexicalPath.cpp:162-207 | the loops build the relative path of the specification; "" unless both paths are absolute, "." for the same place |
| LexicalPath.ReduceApart | AK/LexicalPath.cpp:188-206 | any parts that reduce one directory to another number at least the parts they do not share, and with just as many there is one choice |
| LexicalPath.RelativeFewest | AK/LexicalPath.cpp:162-207 | every relative path that absolute_path takes from the prefix to the path has more parts than relative_path's answer, or the same parts |
| LexicalPath.RelativeSpelling | AK/LexicalPath.cpp:188-206 | the answer joins its parts with single slashes and ends in one iff its last part is ".." |
| LexicalPath.RelativeUndone | AK/LexicalPath.cpp:154-207 | absolute_path(q, relative_path(p, q)) = canonicalized_path(p) for all absolute p and q |
| BinaryHeap.NotGreater | AK/BinaryHeap.h:86-89 | for a strict weak order, "not greater" is transitive |
| BinaryHeap.SwapUp | AK/BinaryHeap.h:91-100 | a step of heapify_up moves the only possible violation to the parent |
| BinaryHeap.SwapDown | AK/BinaryHeap.h:102-114 | a step of heapify_down moves the only possible violation to the smaller child |
| BinaryHeap.LiftUp | AK/BinaryHeap.h:48-51 | lifting a node unconditionally leaves the rest in heap order |
| BinaryHeap.IntrusiveBinaryHeap.SwapIndices | AK/BinaryHeap.h:79-84 | exchanges two nodes and makes both record their positions |
| BinaryHeap.IntrusiveBinaryHeap.FromNodes | AK/BinaryHeap.h:22-27 | heap order and the same multiset for any vector; the recorded positions are all right iff those outside the set of written positions were, a set computed by `Build` from the given items alone |
| BinaryHeap.BuildOrdered | AK/BinaryHeap.h:22-27 | items in strict heap order stay where they are and no position is written |
| BinaryHeap.BuildWritesNothing | AK/BinaryHeap.h:22-27 | no position is written iff the items are in strict heap order; equal items are exchanged |
| BinaryHeap.UntouchedExample | AK/BinaryHeap.h:22-27 | two ordered nodes that record positions 1 and 0 keep them, so the heap is not correctly indexed |
| BinaryHeap.IntrusiveBinaryHeap.HeapifyUp | AK/BinaryHeap.h:91-100 | restores heap order, keeps the multiset and the recorded positions |
| BinaryHeap.IntrusiveBinaryHeap.HeapifyDown | AK/BinaryHeap.h:102-114 | restores heap order below, keeps the multiset; exactly the positions given by `Sink` are written and record themselves, all other nodes are untouched |
| BinaryHeap.IntrusiveBinaryHeap.Insert | AK/BinaryHeap.h:32-37 | multiset plus the node, heap order, and every node still records its position |
| BinaryHeap.IntrusiveBinaryHeap.Pop | AK/BinaryHeap.h:46-56 | returns the node that was at the index, recording the last position; multiset minus it, heap order, positions |
| BinaryHeap.RootIsLeast | AK/BinaryHeap.h:63-66 | the first node of a heap comes after no other |
| BinaryHeap.IntrusiveBinaryHeap.PopMin | AK/BinaryHeap.h:58-61 | returns a least node |
| BinaryHeap.IntrusiveBinaryHeap.Drain | AK/BinaryHeap.h:58-61 | popping until empty yields the same multiset in sorted order |
| BinaryHeap.IntrusiveBinaryHeap.Apply | AK/BinaryHeap.h:32-61 | each operation acts on the bag of items; popping at the position that a node records takes out the item of that node |
| BinaryHeap.Run | AK/BinaryHeap.h:32-61 | every sequence of insert, pop, pop by recorded position and pop_min from an empty heap acts and replies as on a bag, keeps heap order and positions, and stops iff a popped position does not exist |
| BinaryHeap.BagConserved | AK/BinaryHeap.h:32-61 | over a run, the inserted items are those taken and those left |

## Left out

- HashTable.HashTable.Rehash: the allocator's size rounding is any number not below the request; running out of memory is not modelled.
- HashTable.HashTable.Run: bucket storage is a value held in a field, updated bucket by bucket, so pointer aliasing between buckets is expressed by indices.
- Division.DivModInternal: divisor and dividend words above their lengths are required to be zero where the code reads them, the quotient not to overlap the operands, and a requested remainder to have room for the divisor's words and not to overlap dividend and quotient.
- Multiplication.BaselineMul: operands of at most 2^w words, which the length limit of the source (AK/BigIntBase.h:61) implies.
- MemMem.Search: table entries are unbounded integers, so needles of 2^31 bytes and more are not distinguished.
- `increment`, the bitwise operations and the compiler-builtin branches of `add_words` and `sub_words`: easy members beside `Add`.
- Eisel-Lemire conversion and everything after `parse_numbers`.
- `create_initialized`, `offset_of`, `fill_from_stream`, `flush_to_stream` and the hash-chain search of the circular buffer.
- `clear`, `clear_with_capacity`, iterators and moves of whole hash tables.
- `read_some`, `is_eof`, `peek_bits` without discarding, and stream errors other than running out of bytes; a byte stream is a sequence delivered in arbitrary nonempty pieces.
- Longest-range, best-fit and counting queries of the bitmap.
- `dirname`, `basename`, `title`, `extension`, `is_child_of` and `append` of paths.
- The keyed `BinaryHeap` wrapper, `peek_min` and `clear` of the heap.
- Object lifetimes, allocation failure, and the other containers and codecs of AK, which would only add easy members.
