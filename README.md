# kotlinx-io random-access views, in Dafny

A model of the random-access read layer of kotlinx-io, with proofs about it.
The layer has three parts:

- `BufferView` owns a buffer captured once, as a chain of segments, and
  serves positional, non-consuming reads of big-endian (and, by byte
  reversal, little-endian and unsigned) values until it is closed.
- `SegmentIndex` is built once over the chain. It maps an absolute offset
  to the segment holding it by binary search.
- The byte-composition helpers `asShort`, `asInt` and the two `asLong`
  overloads build integers from bytes.

The files:

| file | module | models |
|---|---|---|
| `wrappers.dfy` | `Wrappers` | `Option` and `Result` |
| `byte_ops.dfy` | `ByteOps` | Kotlin's fixed-width integers as bit vectors, the composition helpers, byte reversal and unsigned reinterpretation |
| `buffer.dfy` | `Buffers` | the parts of `Segment` and `Buffer` the view uses: a segment is a window `[pos, limit)` of a byte sequence, a buffer is a class whose field `segments` is its circular chain, head first |
| `segment_index.dfy` | `Index` | `SegmentIndexElement`, `SegmentIndex.build` as a loop over the chain, `binarySearch` and `SegmentIndex.get` |
| `buffer_view.dfy` | `View` | the class `BufferView` with its nullable `buffer` and `segmentIndex` fields, `copyToView`, `readView` and the little-endian and unsigned extensions |
| `view_scenarios.dfy` | `Scenarios` | the `getShort` test scenario and a slice outliving its view |

Modelling choices:

- Kotlin's `Byte`, `Short`, `Int` and `Long` are `bv8`, `bv16`, `bv32` and
  `bv64` bit patterns. Widenings sign-extend. The `and` extension used by
  the helpers widens, then masks, so the `and 0xff` masking is real and is
  proved to cancel the sign extension.
- The unsigned types are the integers of their range.
- Each failing call returns an `Err` of `View.Error` instead of throwing:
  - `Closed` stands for the `EOFException` of a closed view;
  - `Bounds` stands for a failed `checkBounds`;
  - `Lookup(IllegalArgument)` and `Lookup(IndexOutOfRange)` are the two ways `SegmentIndex.get` fails;
  - `EndOfInput` means the source ran dry while capturing.
- `checkBounds`, `Buffer.write` and `Buffer.copyTo` are kotlinx-io
  internals outside the three modelled Kotlin files. `checkBounds(size,
  start, end)` is taken to pass exactly when `0 <= start <= end <= size`.
- A view's bytes, `Content()`, are the concatenation of its buffer's
  segment windows.

`checkBounds(size, position, position)` lets `position == size` through, so
`getByte(size)` fails in the index lookup: with `IllegalArgumentException`
when there are no segments (binary search reports -1), and with an
out-of-range list access otherwise. `View.BufferView.GetByte` states exactly
this.

## Model

| member | source | states |
|---|---|---|
| ByteOps.AsShort | core/common/src/internal/-ByteOps.kt:5-13 | computes `(byte1 and 0xff shl 8 or (byte2 and 0xff)).toShort()` with the widening `and`; what it means is in the AsShort* rows |
| ByteOps.AsInt | core/common/src/internal/-ByteOps.kt:15-28 | computes the or of the four masked bytes shifted by 24, 16, 8 and 0, with the widening `and`; what it means is in the AsInt* rows |
| ByteOps.AsLongOfInts | core/common/src/internal/-ByteOps.kt:30-35 | computes `int1 and 0xffffffffL shl 32 or (int2 and 0xffffffffL)` with the widening `and`; what it means is in the AsLongOfInts* rows |
| ByteOps.AsLong | core/common/src/internal/-ByteOps.kt:37-57 | computes the or of the eight masked bytes shifted by 56 down to 0, with the widening `and`; what it means is in the AsLong* rows |
| ByteOps.ReverseShort | core/common/src/BufferView.kt:126 | `Short.reverseBytes()`: swaps the two bytes; ReverseAsShort and ReverseShortInvolution state what it does |
| ByteOps.ReverseInt | core/common/src/BufferView.kt:127 | `Int.reverseBytes()`: reverses the order of the four bytes; ReverseAsInt and ReverseIntInvolution state what it does |
| ByteOps.ReverseLong | core/common/src/BufferView.kt:128 | `Long.reverseBytes()`: reverses the order of the eight bytes; ReverseAsLong and ReverseLongInvolution state what it does |
| ByteOps.ShortToUShort | core/common/src/BufferView.kt:130 | `Short.toUShort()`: the unsigned value of the bit pattern; UnsignedKeepsBits states it keeps the bits |
| ByteOps.IntToUInt | core/common/src/BufferView.kt:131 | `Int.toUInt()`: the unsigned value of the bit pattern; UnsignedKeepsBits states it keeps the bits |
| ByteOps.LongToULong | core/common/src/BufferView.kt:132 | `Long.toULong()`: the unsigned value of the bit pattern; UnsignedKeepsBits states it keeps the bits |
| ByteOps.MaskedByte | core/common/src/internal/-ByteOps.kt:5-13 | `b and 0xff` gives the byte's unsigned value in Int and Long, while plain widening of a byte of 0x80 or more does not |
| ByteOps.MaskedInt | core/common/src/internal/-ByteOps.kt:30-35 | `i and 0xffffffffL` gives the int's unsigned value as a Long, while plain widening of a negative int does not |
| ByteOps.AsShortConcat | core/common/src/internal/-ByteOps.kt:5-13 | `asShort` is the concatenation of the two byte patterns, first byte high |
| ByteOps.AsIntConcat | core/common/src/internal/-ByteOps.kt:15-28 | `asInt` is the concatenation of the four byte patterns, most significant first |
| ByteOps.AsLongOfIntsConcat | core/common/src/internal/-ByteOps.kt:30-35 | `asLong(int1, int2)` is the concatenation of the two int patterns |
| ByteOps.AsLongConcat | core/common/src/internal/-ByteOps.kt:37-57 | `asLong` of eight bytes is the concatenation of their patterns |
| ByteOps.AsShortValue | core/common/src/internal/-ByteOps.kt:5-13 | read unsigned, `asShort(b1, b2)` is `b1 * 256 + b2` with both bytes taken unsigned |
| ByteOps.AsIntValue | core/common/src/internal/-ByteOps.kt:15-28 | read unsigned, `asInt` is the big-endian sum of its four unsigned bytes, so no byte's sign reaches the higher bytes |
| ByteOps.AsLongOfIntsValue | core/common/src/internal/-ByteOps.kt:30-35 | read unsigned, `asLong(i1, i2)` is `i1 * 2^32 + i2` with both ints taken unsigned |
| ByteOps.AsLongValue | core/common/src/internal/-ByteOps.kt:37-57 | read unsigned, `asLong` of eight bytes is the big-endian sum of its unsigned bytes |
| ByteOps.AsLongOfIntsSplit | core/common/src/internal/-ByteOps.kt:30-57 | `asLong(asInt(b1..b4), asInt(b5..b8)) == asLong(b1..b8)` for all bytes |
| ByteOps.AsShortBytes | core/common/src/internal/-ByteOps.kt:5-13 | the bytes of `asShort(b1, b2)`, most significant first, are `[b1, b2]` |
| ByteOps.ShortBytesAsShort | core/common/src/internal/-ByteOps.kt:5-13 | `asShort` of a short's two bytes gives back the short |
| ByteOps.AsIntBytes | core/common/src/internal/-ByteOps.kt:15-28 | the bytes of `asInt(b1..b4)` are `[b1, b2, b3, b4]` |
| ByteOps.IntBytesAsInt | core/common/src/internal/-ByteOps.kt:15-28 | `asInt` of an int's four bytes gives back the int |
| ByteOps.AsLongBytes | core/common/src/internal/-ByteOps.kt:37-57 | the bytes of `asLong(b1..b8)` are `[b1, ..., b8]` |
| ByteOps.LongBytesAsLong | core/common/src/internal/-ByteOps.kt:37-57 | `asLong` of a long's eight bytes gives back the long |
| ByteOps.ReverseAsShort | core/common/src/BufferView.kt:126 | `reverseBytes` of `asShort(b1, b2)` is `asShort(b2, b1)` |
| ByteOps.ReverseAsInt | core/common/src/BufferView.kt:127 | `reverseBytes` of `asInt(b1..b4)` is `asInt(b4..b1)` |
| ByteOps.ReverseAsLong | core/common/src/BufferView.kt:128 | `reverseBytes` of `asLong(b1..b8)` is `asLong(b8..b1)` |
| ByteOps.ReverseShortInvolution | core/common/src/BufferView.kt:126 | reversing the bytes of a short twice gives it back |
| ByteOps.ReverseIntInvolution | core/common/src/BufferView.kt:127 | reversing the bytes of an int twice gives it back |
| ByteOps.ReverseLongInvolution | core/common/src/BufferView.kt:128 | reversing the bytes of a long twice gives it back |
| ByteOps.UnsignedKeepsBits | core/common/src/BufferView.kt:130-132 | `toUShort`, `toUInt` and `toULong` keep the bit pattern |
| Buffers.Segment.Get | core/common/src/BufferView.kt:141-144 | for `0 <= index < size`, `segment[index]` is the index-th byte of the segment's window |
| Buffers.ConcatLength | core/common/src/BufferView.kt:37-41 | a chain holds as many bytes as the sum of its segment sizes |
| Buffers.SegmentAt | core/common/src/SegmentIndex.kt:17-21 | byte j of segment k is the chain's byte at the sum of the earlier segments' sizes plus j |
| Buffers.Chunks | core/common/src/BufferView.kt:7-11 | cutting bytes into segments of 1 to 8192 bytes keeps every byte, in order |
| Buffers.Trim | core/common/src/BufferView.kt:13-20 | a narrowed segment holds exactly the chosen part of the original window |
| Buffers.CopyRange | core/common/src/BufferView.kt:18 | the segments `copyTo` gives `copy` for `[start, end)`: each a valid window onto the source data, trimmed to the range; CopyRangeContent states what they hold |
| Buffers.CopyRangeContent | core/common/src/BufferView.kt:13-20 | the segments made for `copyTo(start, end)` hold exactly bytes `start` to `end` of the source chain |
| Buffers.Buffer.constructor | core/common/src/BufferView.kt:8 | `Buffer()` is a valid buffer without segments, so it holds no bytes |
| Buffers.Buffer.Size | core/common/src/BufferView.kt:37-41 | `Buffer.size` is the number of bytes the buffer holds |
| Buffers.Buffer.Next | core/common/src/SegmentIndex.kt:22-23 | `next` of the last segment is the head again, and of any other segment the following one |
| Buffers.Buffer.Clear | core/common/src/BufferView.kt:32 | `clear` leaves the buffer without segments |
| Buffers.Buffer.Write | core/common/src/BufferView.kt:7-11 | `write(source, byteCount)` appends exactly the first `byteCount` bytes and leaves the rest unread; a shorter source is drained and the call reports end of input |
| Buffers.Buffer.CopyTo | core/common/src/BufferView.kt:13-20 | `copyTo(out, start, end)` appends bytes `start` to `end` to `out` and succeeds exactly when `0 <= start <= end <= size`; otherwise `out` keeps its segments |
| Index.Element.CompareToIndex | core/common/src/SegmentIndex.kt:35-41 | 1 exactly when `index < offset`, -1 exactly when `index >= offset + size`, 0 exactly when the element's range holds `index` |
| Index.ChainOffsets | core/common/src/SegmentIndex.kt:17-21 | each element's offset is the byte count of the segments before it, and its end is that count plus its own segment |
| Index.ChainEnd | core/common/src/SegmentIndex.kt:16-24 | the last element ends at the chain's byte count |
| Index.ChainMonotone | core/common/src/SegmentIndex.kt:17-21 | offsets never decrease along the index |
| Index.ChainOrdered | core/common/src/SegmentIndex.kt:16-24 | the elements built from a chain have ascending, non-overlapping ranges, the order binary search needs |
| Index.Locate | core/common/src/SegmentIndex.kt:16-24 | every chain position at or after an element's offset lies in that element or a later one |
| Index.ChainContains | core/common/src/SegmentIndex.kt:16-24 | some element holds p exactly when `0 <= p < size`, so the ranges tile `[0, size)` |
| Index.ChainBoundary | core/common/src/SegmentIndex.kt:38-39 | an offset at a segment's end is not in that segment; it is in the next one when that one is non-empty |
| Index.ElementByte | core/common/src/BufferView.kt:47-48 | `element.segment[p - element.offset]` is the chain's byte p for every p the element holds |
| Index.BinarySearch | core/common/src/SegmentIndex.kt:7 | `binarySearch` with `compareToIndex` returns the position of an element holding the index, or else minus one minus the insertion point, with every earlier element before the index and every later one after it |
| Index.SegmentIndex.Build | core/common/src/SegmentIndex.kt:13-27 | an empty buffer gives an empty index; otherwise there is one element per segment in chain order, the first at offset 0 and each next one where the previous one ends, visiting the head once |
| Index.SegmentIndex.Get | core/common/src/SegmentIndex.kt:6-10 | succeeds exactly when some element holds the index, and then returns that element, which is the only one holding it; a miss is `IllegalArgument` exactly when the index is empty or the index lies before the first offset, and out of range otherwise |
| View.CheckBounds | core/common/src/BufferView.kt:45 | `checkBounds(size, start, end)` as called at lines 45, 53, 68, 93 and 120: passes exactly when `0 <= start <= end <= size` |
| View.BufferView.constructor | core/common/src/BufferView.kt:26-29 | the new view is open, holds the buffer given, and its index is the one `build` makes of the buffer's chain |
| View.BufferView.Close | core/common/src/BufferView.kt:31-35 | the view ends closed; a held buffer is cleared; closing a closed view changes nothing |
| View.BufferView.Size | core/common/src/BufferView.kt:37-41 | a closed view fails with `Closed`; an open one answers its byte count |
| View.BufferView.ElementAt | core/common/src/BufferView.kt:47 | for `0 <= position`, the lookup succeeds exactly when `position < size`, and the element returned holds `position` and agrees with the view on every byte in its range; a miss is `IllegalArgument` exactly when the view has no segments |
| View.BufferView.GetByte | core/common/src/BufferView.kt:43-49 | `Closed` on a closed view, `Bounds` for `position < 0` or `position > size`, the lookup error at `position == size`, and otherwise the byte at `position` |
| View.BufferView.GetShort | core/common/src/BufferView.kt:51-64 | `Closed` on a closed view, `Bounds` unless `[position, position + 2)` lies in `[0, size)`, and otherwise `asShort` of bytes `position` and `position + 1`, whichever path is taken |
| View.BufferView.GetShortAcross | core/common/src/BufferView.kt:59-61 | the cross-segment path, two `getByte` calls, gives `asShort` of the two bytes |
| View.BufferView.GetInt | core/common/src/BufferView.kt:66-89 | `Closed`, `Bounds` unless `[position, position + 4)` lies in `[0, size)`, otherwise `asInt` of bytes `position` to `position + 3`, whichever path is taken |
| View.BufferView.GetIntAcross | core/common/src/BufferView.kt:74-80 | the cross-segment path, four `getByte` calls, gives `asInt` of the four bytes |
| View.BufferView.GetLong | core/common/src/BufferView.kt:91-113 | `Closed`, `Bounds` unless `[position, position + 8)` lies in `[0, size)`, otherwise `asLong` of bytes `position` to `position + 7`, whichever path is taken |
| View.BufferView.GetLongAcross | core/common/src/BufferView.kt:99-101 | the cross-segment path, `asLong(getInt(p), getInt(p + 4))`, gives `asLong` of the eight bytes, however short the segments are |
| View.BufferView.Slice | core/common/src/BufferView.kt:115-123 | `Closed` on a closed view, `Bounds` unless `0 <= start <= end <= size`, otherwise a fresh, open view over a fresh buffer whose bytes are bytes `start` to `end` of this view |
| View.FastShort | core/common/src/BufferView.kt:63 | the fast path's two segment bytes give the same short as the view's bytes at `position` |
| View.FastInt | core/common/src/BufferView.kt:83-88 | the fast path's four segment bytes give the same int as the view's bytes at `position` |
| View.FastLong | core/common/src/BufferView.kt:103-112 | the fast path's eight segment bytes give the same long as the view's bytes at `position` |
| View.SlowLong | core/common/src/BufferView.kt:100 | composing two big-endian ints of the view's bytes gives the same long as composing the eight bytes |
| View.CopyToView | core/common/src/BufferView.kt:13-20 | succeeds exactly when `0 <= start <= end <= size`, with a fresh open view over a fresh buffer holding bytes `start` to `end`; fails with `Bounds` otherwise |
| View.ReadView | core/common/src/BufferView.kt:7-11 | succeeds exactly when the source has `byteCount` bytes, with a fresh open view holding the first `byteCount` bytes and the rest left unread; otherwise `EndOfInput` with the source drained |
| View.GetShortLe | core/common/src/BufferView.kt:126 | the same errors as `getShort`, otherwise `asShort` of bytes `position + 1` and `position`, the byte reversal of `getShort` |
| View.GetIntLe | core/common/src/BufferView.kt:127 | the same errors as `getInt`, otherwise `asInt` of bytes `position + 3` down to `position` |
| View.GetLongLe | core/common/src/BufferView.kt:128 | the same errors as `getLong`, otherwise `asLong` of bytes `position + 7` down to `position` |
| View.GetUShortLe | core/common/src/BufferView.kt:130 | the same errors as `getShort`, otherwise the little-endian unsigned value of the two bytes |
| View.GetUIntLe | core/common/src/BufferView.kt:131 | the same errors as `getInt`, otherwise the little-endian unsigned value of the four bytes |
| View.GetULongLe | core/common/src/BufferView.kt:132 | the same errors as `getLong`, otherwise the little-endian unsigned value of the eight bytes |
| Scenarios.WrittenShorts | core/common/test/CommonBufferViewTest.kt:12-14 | `writeShort` of each short in turn appends two bytes per short |
| Scenarios.WrittenShortBytes | core/common/test/CommonBufferViewTest.kt:12-14 | bytes 2i and 2i + 1 of what was written are the bytes of the i-th short, most significant first |
| Scenarios.WrittenShortAt | core/common/test/CommonBufferViewTest.kt:12-14 | `asShort` of bytes 2i and 2i + 1 of what was written is the i-th short |
| Scenarios.ReadWrittenShort | core/common/test/CommonBufferViewTest.kt:19-22 | on a view over what was written, `getShort(2i)` returns the i-th short written |
| Scenarios.GetShortScenario | core/common/test/CommonBufferViewTest.kt:9-25 | with 4 * 8192 shorts written and all their bytes captured, `size` is twice the count; `getShort(0)` twice gives the first short both times; `getShort(byteCount / 2 - 2)` and `getShort(byteCount - 2)` give the middle and last shorts; for the test's shorts 0, 1, 2, ... these are 0, 0, shortCount / 2 - 1 and shortCount - 1; after `use` closes the view, `size` fails with `Closed` |
| Scenarios.SliceOutlivesView | core/common/src/BufferView.kt:115-123 | a slice keeps answering the bytes the view held after the view is closed |

## Left out

- `getFloat`, `getDouble`, `getFloatLe` and `getDoubleLe` are not modelled, because they reinterpret bits as floating point. They only delegate to `getInt`, `getLong`, `getIntLe` and `getLongLe`, which are modelled.
- Positions and offsets are unbounded integers. `Long` overflow of `position + 8` and the `toInt()` of the in-segment offset are not modelled. An in-segment offset is below its segment's size, at most 8192 in kotlinx-io, so that `toInt()` never truncates.
- Thrown exceptions are modelled as `Err` values of `View.Error`, without their classes or messages.
- `Source` is I/O. `View.ReadView` and `Buffers.Buffer.Write` take the bytes the source would yield as a sequence, and return the unread rest. `byteCount` is a `nat`, so a negative `byteCount` is not modelled.
- Segment pooling, copy-on-write sharing and `Segment.next`/`prev` links are not modelled. The chain is the `segments` sequence of `Buffers.Buffer`, and `next` is the following index, wrapping to the head.
- Where `Buffer.write` and `Buffer.copyTo` cut segments is not modelled. The model cuts written bytes into segments of up to 8192 bytes. `copyTo` gets windows narrowed onto the same data. Everything the view does is proved for every way of cutting the bytes.
- The default arguments of `slice` and `copyToView` (0 and `size`) are not modelled. `slice()` with its defaults is `Slice(0, size)`; `copyToView` is only called with explicit bounds (core/common/src/BufferView.kt:122).
- Concurrent use is not modelled. `BufferView` is documented as not thread-safe.
- Buffers.Segment.Get: the `require(index in 0..<size)` is a precondition that every call in the model is proved to meet. It is not an error path, because no call reaches it with a bad index.
- Buffers.Buffer.CopyTo: requires that the destination is a different buffer. In the source, the destination is always a fresh `Buffer()`.
- Scenarios.GetShortScenario: the written shorts are a parameter. The test's own values `i.toShort()` are stated through the predicate `Counting`, which relates each short's unsigned value to its index, instead of by building the sequence.
