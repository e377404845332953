/**
 * kotlinx-io's `BufferView`: a read-only, randomly addressable view that owns
 * a buffer captured once and decodes big-endian values at absolute
 * positions through the buffer's `SegmentIndex`. A view is Open until
 * `close` releases the buffer; then every read fails, and it never reopens.
 */
module View {
  import opened Wrappers
  import opened ByteOps
  import opened Buffers
  import opened Index

  /** Why a view operation fails. */
  datatype Error =
    | Closed                     // the view has been closed
    | Bounds                     // `checkBounds` rejected the position or range
    | Lookup(cause: IndexError)  // `SegmentIndex.get` found no segment
    | EndOfInput                 // the source ran dry while capturing

  /** `checkBounds(size, startIndex, endIndex)` passes. */
  predicate CheckBounds(size: int, startIndex: int, endIndex: int) {
    0 <= startIndex <= endIndex <= size
  }

  class BufferView {
    /** The captured buffer; null once closed. */
    var buffer: Buffer?
    /** The index built over `buffer` at capture; absent once closed. */
    var segmentIndex: Option<SegmentIndex>

    /** An open view holds a valid buffer and the index built over its
        chain. The index's order follows from the chain by ChainOrdered; it
        is kept here as well so that each read need not derive it again. */
    ghost predicate Valid()
      reads this, buffer
    {
      (buffer == null <==> segmentIndex.None?)
      && (buffer != null ==> buffer.Valid() && IndexesChain(segmentIndex.value.indexes, buffer.segments)
                             && segmentIndex.value.Valid())
    }

    predicate IsOpen()
      reads this
    {
      buffer != null
    }

    /** The bytes the view holds. */
    ghost function Content(): seq<Byte>
      reads this, buffer
      requires Valid() && IsOpen()
    {
      buffer.Content()
    }

    /** The view takes the buffer over and indexes its chain. */
    constructor (buffer: Buffer)
      requires buffer.Valid()
      ensures Valid() && IsOpen()
      ensures this.buffer == buffer
    {
      var index := SegmentIndex.Build(buffer);
      ChainOrdered(index.indexes, buffer.segments);
      this.buffer := buffer;
      segmentIndex := Some(index);
    }

    /** `close`: clears the buffer, if still held, and drops it and the index.
        Closing a closed view changes nothing. */
    method Close()
      requires Valid()
      modifies this, buffer
      ensures Valid() && !IsOpen()
      ensures old(buffer) != null ==> old(buffer).segments == []
      ensures !old(IsOpen()) ==> unchanged(this)
    {
      if buffer != null {
        buffer.Clear();
      }
      buffer := null;
      segmentIndex := None;
    }

    /** `size`: the number of bytes held. */
    method Size() returns (r: Result<int, Error>)
      requires Valid()
      ensures !IsOpen() ==> r == Err(Closed)
      ensures IsOpen() ==> r == Ok(|Content()|)
    {
      if buffer == null {
        return Err(Closed);
      }
      return Ok(buffer.Size());
    }

    /** `segmentIndex!![position]` on an open view: the element whose
        segment holds `position`, together with what its segment holds. */
    method ElementAt(position: int) returns (found: Result<Element, IndexError>)
      requires Valid() && IsOpen() && 0 <= position
      ensures found.Ok? <==> position < |Content()|
      ensures found.Ok? ==> var e := found.value;
        e.Contains(position) && e.segment.Valid() && 0 <= e.offset && e.End() <= |Content()|
      ensures found.Ok? ==> var e := found.value;
        forall q :: e.Contains(q) ==> e.segment.Get(q - e.offset) == Content()[q]
      ensures found.Err? ==> found.error == if buffer.segments == [] then IllegalArgument else IndexOutOfRange
    {
      var indexes := segmentIndex.value.indexes;
      ConcatLength(buffer.segments);
      ChainContains(indexes, buffer.segments, position);
      found := segmentIndex.value.Get(position);
      if found.Ok? {
        var e := found.value;
        ElementByte(indexes, buffer.segments, e, e.offset);
        ElementByte(indexes, buffer.segments, e, e.End() - 1);
        forall q | e.Contains(q)
          ensures e.segment.Get(q - e.offset) == Content()[q]
        {
          ElementByte(indexes, buffer.segments, e, q);
        }
      }
    }

    /** `getByte`: the byte at `position`. At `position == size` the bounds
        check passes and the lookup fails. */
    method GetByte(position: int) returns (r: Result<Byte, Error>)
      requires Valid()
      ensures !IsOpen() ==> r == Err(Closed)
      ensures IsOpen() && (position < 0 || position > |Content()|) ==> r == Err(Bounds)
      ensures IsOpen() && 0 <= position < |Content()| ==> r == Ok(Content()[position])
      ensures IsOpen() && position == |Content()| ==>
        r == Err(Lookup(if buffer.segments == [] then IllegalArgument else IndexOutOfRange))
    {
      if segmentIndex.None? {
        return Err(Closed);
      }
      var size := buffer.Size();
      if !CheckBounds(size, position, position) {
        return Err(Bounds);
      }
      var found := ElementAt(position);
      match found {
        case Err(e) =>
          r := Err(Lookup(e));
        case Ok(element) =>
          r := Ok(element.segment.Get(position - element.offset));
      }
    }

    /** `getShort`: the big-endian short at `position`, read from one segment
        or, across a segment boundary, byte by byte. */
    method GetShort(position: int) returns (r: Result<Short, Error>)
      requires Valid()
      ensures !IsOpen() ==> r == Err(Closed)
      ensures IsOpen() && !CheckBounds(|Content()|, position, position + 2) ==> r == Err(Bounds)
      ensures IsOpen() && CheckBounds(|Content()|, position, position + 2) ==>
        r == Ok(AsShort(Content()[position], Content()[position + 1]))
    {
      if segmentIndex.None? {
        return Err(Closed);
      }
      var size := buffer.Size();
      if !CheckBounds(size, position, position + 2) {
        return Err(Bounds);
      }
      var found := ElementAt(position);
      match found {
        case Err(e) =>
          r := Err(Lookup(e));
        case Ok(element) =>
          var segment := element.segment;
          var segmentPosition := position - element.offset;
          if segment.Size() - segmentPosition < 2 {
            r := GetShortAcross(position);
          } else {
            FastShort(element, Content(), position, segmentPosition);
            r := Ok(AsShort(segment.Get(segmentPosition), segment.Get(segmentPosition + 1)));
          }
      }
    }

    /** `getInt`: the big-endian int at `position`, read from one segment
        or, across a segment boundary, byte by byte. */
    method GetInt(position: int) returns (r: Result<Int, Error>)
      requires Valid()
      ensures !IsOpen() ==> r == Err(Closed)
      ensures IsOpen() && !CheckBounds(|Content()|, position, position + 4) ==> r == Err(Bounds)
      ensures IsOpen() && CheckBounds(|Content()|, position, position + 4) ==>
        r == Ok(AsInt(Content()[position], Content()[position + 1], Content()[position + 2], Content()[position + 3]))
    {
      if segmentIndex.None? {
        return Err(Closed);
      }
      var size := buffer.Size();
      if !CheckBounds(size, position, position + 4) {
        return Err(Bounds);
      }
      var found := ElementAt(position);
      match found {
        case Err(e) =>
          r := Err(Lookup(e));
        case Ok(element) =>
          var segment := element.segment;
          var segmentPosition := position - element.offset;
          if segment.Size() - segmentPosition < 4 {
            r := GetIntAcross(position);
          } else {
            FastInt(element, Content(), position, segmentPosition);
            r := Ok(AsInt(segment.Get(segmentPosition), segment.Get(segmentPosition + 1),
                          segment.Get(segmentPosition + 2), segment.Get(segmentPosition + 3)));
          }
      }
    }

    /** `getLong`: the big-endian long at `position`, read from one segment
        or, across a segment boundary, as two ints. */
    method GetLong(position: int) returns (r: Result<Long, Error>)
      requires Valid()
      ensures !IsOpen() ==> r == Err(Closed)
      ensures IsOpen() && !CheckBounds(|Content()|, position, position + 8) ==> r == Err(Bounds)
      ensures IsOpen() && CheckBounds(|Content()|, position, position + 8) ==>
        var c := Content();
        r == Ok(AsLong(c[position], c[position + 1], c[position + 2], c[position + 3],
                       c[position + 4], c[position + 5], c[position + 6], c[position + 7]))
    {
      if segmentIndex.None? {
        return Err(Closed);
      }
      var size := buffer.Size();
      if !CheckBounds(size, position, position + 8) {
        return Err(Bounds);
      }
      var found := ElementAt(position);
      match found {
        case Err(e) =>
          r := Err(Lookup(e));
        case Ok(element) =>
          var segment := element.segment;
          var segmentPosition := position - element.offset;
          if segment.Size() - segmentPosition < 8 {
            r := GetLongAcross(position);
          } else {
            FastLong(element, Content(), position, segmentPosition);
            r := Ok(AsLong(segment.Get(segmentPosition), segment.Get(segmentPosition + 1),
                           segment.Get(segmentPosition + 2), segment.Get(segmentPosition + 3),
                           segment.Get(segmentPosition + 4), segment.Get(segmentPosition + 5),
                           segment.Get(segmentPosition + 6), segment.Get(segmentPosition + 7)));
          }
      }
    }

    /** The slow path of `getShort`: the short at `position` composed byte by byte, each
        sub-read resolving its own segment. */
    method GetShortAcross(position: int) returns (r: Result<Short, Error>)
      requires Valid() && IsOpen() && CheckBounds(|Content()|, position, position + 2)
      ensures r == Ok(AsShort(Content()[position], Content()[position + 1]))
    {
      var b1 := GetByte(position);
      var b2 := GetByte(position + 1);
      r := match (b1, b2)
        case (Ok(x1), Ok(x2)) => Ok(AsShort(x1, x2))
        case (Err(e), _) => Err(e)
        case (_, Err(e)) => Err(e);
    }

    /** The slow path of `getInt`: the int at `position` composed byte by byte, each
        sub-read resolving its own segment. */
    method GetIntAcross(position: int) returns (r: Result<Int, Error>)
      requires Valid() && IsOpen() && CheckBounds(|Content()|, position, position + 4)
      ensures r == Ok(AsInt(Content()[position], Content()[position + 1], Content()[position + 2], Content()[position + 3]))
    {
      var b1 := GetByte(position);
      var b2 := GetByte(position + 1);
      var b3 := GetByte(position + 2);
      var b4 := GetByte(position + 3);
      r := match (b1, b2, b3, b4)
        case (Ok(x1), Ok(x2), Ok(x3), Ok(x4)) => Ok(AsInt(x1, x2, x3, x4))
        case (Err(e), _, _, _) => Err(e)
        case (_, Err(e), _, _) => Err(e)
        case (_, _, Err(e), _) => Err(e)
        case (_, _, _, Err(e)) => Err(e);
    }

    /** The slow path of `getLong`: the long at `position` composed as two ints, each
        sub-read resolving its own segment. */
    method GetLongAcross(position: int) returns (r: Result<Long, Error>)
      requires Valid() && IsOpen() && CheckBounds(|Content()|, position, position + 8)
      ensures var c := Content();
        r == Ok(AsLong(c[position], c[position + 1], c[position + 2], c[position + 3],
                       c[position + 4], c[position + 5], c[position + 6], c[position + 7]))
    {
      var i1 := GetInt(position);
      var i2 := GetInt(position + 4);
      r := match (i1, i2)
        case (Ok(x1), Ok(x2)) => Ok(AsLongOfInts(x1, x2))
        case (Err(e), _) => Err(e)
        case (_, Err(e)) => Err(e);
      SlowLong(Content(), position);
    }

    /** `slice`: a new view, owning a buffer of its own, over the bytes in
        `[startIndex, endIndex)`. */
    method Slice(startIndex: int, endIndex: int) returns (r: Result<BufferView, Error>)
      requires Valid()
      ensures !IsOpen() ==> r == Err(Closed)
      ensures IsOpen() && !CheckBounds(|Content()|, startIndex, endIndex) ==> r == Err(Bounds)
      ensures IsOpen() && CheckBounds(|Content()|, startIndex, endIndex) ==> r.Ok?
      ensures r.Ok? ==> fresh(r.value) && r.value.IsOpen() && fresh(r.value.buffer)
      ensures r.Ok? ==> r.value.Valid() && r.value.Content() == Content()[startIndex..endIndex]
    {
      if buffer == null {
        return Err(Closed);
      }
      var size := buffer.Size();
      if !CheckBounds(size, startIndex, endIndex) {
        return Err(Bounds);
      }
      r := CopyToView(buffer, startIndex, endIndex);
    }
  }

  // The fast paths: the bytes an element's segment holds from p - offset
  // on are the view's bytes from p on.

  lemma FastShort(e: Element, c: seq<Byte>, p: int, sp: int)
    requires e.segment.Valid() && 0 <= e.offset && e.End() <= |c|
    requires e.offset <= p && sp == p - e.offset && sp + 2 <= e.segment.Size()
    requires forall q :: e.Contains(q) ==> e.segment.Get(q - e.offset) == c[q]
    ensures var s := e.segment;
      AsShort(s.Get(sp), s.Get(sp + 1))
      == AsShort(c[p], c[p + 1])
  {
    assert e.Contains(p + 1);
  }

  lemma FastInt(e: Element, c: seq<Byte>, p: int, sp: int)
    requires e.segment.Valid() && 0 <= e.offset && e.End() <= |c|
    requires e.offset <= p && sp == p - e.offset && sp + 4 <= e.segment.Size()
    requires forall q :: e.Contains(q) ==> e.segment.Get(q - e.offset) == c[q]
    ensures var s := e.segment;
      AsInt(s.Get(sp), s.Get(sp + 1), s.Get(sp + 2), s.Get(sp + 3))
      == AsInt(c[p], c[p + 1], c[p + 2], c[p + 3])
  {
    assert e.Contains(p + 3);
  }

  lemma FastLong(e: Element, c: seq<Byte>, p: int, sp: int)
    requires e.segment.Valid() && 0 <= e.offset && e.End() <= |c|
    requires e.offset <= p && sp == p - e.offset && sp + 8 <= e.segment.Size()
    requires forall q :: e.Contains(q) ==> e.segment.Get(q - e.offset) == c[q]
    ensures var s := e.segment;
      AsLong(s.Get(sp), s.Get(sp + 1), s.Get(sp + 2), s.Get(sp + 3),
             s.Get(sp + 4), s.Get(sp + 5), s.Get(sp + 6), s.Get(sp + 7))
      == AsLong(c[p], c[p + 1], c[p + 2], c[p + 3], c[p + 4], c[p + 5], c[p + 6], c[p + 7])
  {
    assert e.Contains(p + 7);
  }

  /** The slow path of `getLong` composes the same long from two ints. */
  lemma SlowLong(c: seq<Byte>, p: int)
    requires 0 <= p && p + 8 <= |c|
    ensures AsLongOfInts(AsInt(c[p], c[p + 1], c[p + 2], c[p + 3]), AsInt(c[p + 4], c[p + 5], c[p + 6], c[p + 7]))
         == AsLong(c[p], c[p + 1], c[p + 2], c[p + 3], c[p + 4], c[p + 5], c[p + 6], c[p + 7])
  {
    AsLongOfIntsSplit(c[p], c[p + 1], c[p + 2], c[p + 3], c[p + 4], c[p + 5], c[p + 6], c[p + 7]);
  }

  /** `Buffer.copyToView`: a view over a copy of the bytes of `source` in
      `[startIndex, endIndex)`; `source` keeps its bytes. */
  method CopyToView(source: Buffer, startIndex: int, endIndex: int) returns (r: Result<BufferView, Error>)
    requires source.Valid()
    ensures r.Ok? <==> CheckBounds(source.Size(), startIndex, endIndex)
    ensures r.Err? ==> r == Err(Bounds)
    ensures r.Ok? ==> fresh(r.value) && r.value.IsOpen() && fresh(r.value.buffer)
    ensures r.Ok? ==> r.value.Valid() && r.value.Content() == source.Content()[startIndex..endIndex]
  {
    var copy := new Buffer();
    var ok := source.CopyTo(copy, startIndex, endIndex);
    if !ok {
      return Err(Bounds);
    }
    var view := new BufferView(copy);
    return Ok(view);
  }

  /** `Source.readView(byteCount)` for a source that would yield the bytes
      `source`: captures the first `byteCount` of them and returns the rest
      still unread; a shorter source is drained and capture fails. */
  method ReadView(source: seq<Byte>, byteCount: nat) returns (r: Result<BufferView, Error>, rest: seq<Byte>)
    ensures r.Ok? <==> byteCount <= |source|
    ensures r.Err? ==> r == Err(EndOfInput) && rest == []
    ensures r.Ok? ==> fresh(r.value) && r.value.IsOpen() && fresh(r.value.buffer)
    ensures r.Ok? ==> r.value.Valid() && r.value.Content() == source[..byteCount] && rest == source[byteCount..]
  {
    var buffer := new Buffer();
    var ok;
    rest, ok := buffer.Write(source, byteCount);
    if !ok {
      return Err(EndOfInput), rest;
    }
    var view := new BufferView(buffer);
    return Ok(view), rest;
  }

  /** `getShortLe`: the little-endian short at `position`. */
  method GetShortLe(view: BufferView, position: int) returns (r: Result<Short, Error>)
    requires view.Valid()
    ensures !view.IsOpen() ==> r == Err(Closed)
    ensures view.IsOpen() && !CheckBounds(|view.Content()|, position, position + 2) ==> r == Err(Bounds)
    ensures view.IsOpen() && CheckBounds(|view.Content()|, position, position + 2) ==>
      r == Ok(AsShort(view.Content()[position + 1], view.Content()[position]))
  {
    var big := view.GetShort(position);
    r := match big
      case Ok(x) => Ok(ReverseShort(x))
      case Err(e) => Err(e);
    if view.IsOpen() && CheckBounds(|view.Content()|, position, position + 2) {
      ReverseAsShort(view.Content()[position], view.Content()[position + 1]);
    }
  }

  /** `getIntLe`: the little-endian int at `position`. */
  method GetIntLe(view: BufferView, position: int) returns (r: Result<Int, Error>)
    requires view.Valid()
    ensures !view.IsOpen() ==> r == Err(Closed)
    ensures view.IsOpen() && !CheckBounds(|view.Content()|, position, position + 4) ==> r == Err(Bounds)
    ensures view.IsOpen() && CheckBounds(|view.Content()|, position, position + 4) ==>
      var c := view.Content();
      r == Ok(AsInt(c[position + 3], c[position + 2], c[position + 1], c[position]))
  {
    var big := view.GetInt(position);
    r := match big
      case Ok(x) => Ok(ReverseInt(x))
      case Err(e) => Err(e);
    if view.IsOpen() && CheckBounds(|view.Content()|, position, position + 4) {
      ghost var c := view.Content();
      ReverseAsInt(c[position], c[position + 1], c[position + 2], c[position + 3]);
    }
  }

  /** `getLongLe`: the little-endian long at `position`. */
  method GetLongLe(view: BufferView, position: int) returns (r: Result<Long, Error>)
    requires view.Valid()
    ensures !view.IsOpen() ==> r == Err(Closed)
    ensures view.IsOpen() && !CheckBounds(|view.Content()|, position, position + 8) ==> r == Err(Bounds)
    ensures view.IsOpen() && CheckBounds(|view.Content()|, position, position + 8) ==>
      var c := view.Content();
      r == Ok(AsLong(c[position + 7], c[position + 6], c[position + 5], c[position + 4],
                     c[position + 3], c[position + 2], c[position + 1], c[position]))
  {
    var big := view.GetLong(position);
    r := match big
      case Ok(x) => Ok(ReverseLong(x))
      case Err(e) => Err(e);
    if view.IsOpen() && CheckBounds(|view.Content()|, position, position + 8) {
      ghost var c := view.Content();
      ReverseAsLong(c[position], c[position + 1], c[position + 2], c[position + 3],
                    c[position + 4], c[position + 5], c[position + 6], c[position + 7]);
    }
  }

  /** `getUShortLe`: the little-endian unsigned short at `position`. */
  method GetUShortLe(view: BufferView, position: int) returns (r: Result<UShort, Error>)
    requires view.Valid()
    ensures !view.IsOpen() ==> r == Err(Closed)
    ensures view.IsOpen() && !CheckBounds(|view.Content()|, position, position + 2) ==> r == Err(Bounds)
    ensures view.IsOpen() && CheckBounds(|view.Content()|, position, position + 2) ==>
      var c := view.Content();
      r == Ok(c[position + 1] as int * 0x100 + c[position] as int)
  {
    var le := GetShortLe(view, position);
    r := match le
      case Ok(x) => Ok(ShortToUShort(x))
      case Err(e) => Err(e);
    if view.IsOpen() && CheckBounds(|view.Content()|, position, position + 2) {
      ghost var c := view.Content();
      AsShortValue(c[position + 1], c[position]);
    }
  }

  /** `getUIntLe`: the little-endian unsigned int at `position`. */
  method GetUIntLe(view: BufferView, position: int) returns (r: Result<UInt, Error>)
    requires view.Valid()
    ensures !view.IsOpen() ==> r == Err(Closed)
    ensures view.IsOpen() && !CheckBounds(|view.Content()|, position, position + 4) ==> r == Err(Bounds)
    ensures view.IsOpen() && CheckBounds(|view.Content()|, position, position + 4) ==>
      var c := view.Content();
      r == Ok(c[position + 3] as int * 0x100_0000 + c[position + 2] as int * 0x1_0000
              + c[position + 1] as int * 0x100 + c[position] as int)
  {
    var le := GetIntLe(view, position);
    r := match le
      case Ok(x) => Ok(IntToUInt(x))
      case Err(e) => Err(e);
    if view.IsOpen() && CheckBounds(|view.Content()|, position, position + 4) {
      ghost var c := view.Content();
      AsIntValue(c[position + 3], c[position + 2], c[position + 1], c[position]);
    }
  }

  /** `getULongLe`: the little-endian unsigned long at `position`. */
  method GetULongLe(view: BufferView, position: int) returns (r: Result<ULong, Error>)
    requires view.Valid()
    ensures !view.IsOpen() ==> r == Err(Closed)
    ensures view.IsOpen() && !CheckBounds(|view.Content()|, position, position + 8) ==> r == Err(Bounds)
    ensures view.IsOpen() && CheckBounds(|view.Content()|, position, position + 8) ==>
      var c := view.Content();
      r == Ok(c[position + 7] as int * 0x100_0000_0000_0000 + c[position + 6] as int * 0x1_0000_0000_0000
              + c[position + 5] as int * 0x100_0000_0000 + c[position + 4] as int * 0x1_0000_0000
              + c[position + 3] as int * 0x100_0000 + c[position + 2] as int * 0x1_0000
              + c[position + 1] as int * 0x100 + c[position] as int)
  {
    var le := GetLongLe(view, position);
    r := match le
      case Ok(x) => Ok(LongToULong(x))
      case Err(e) => Err(e);
    if view.IsOpen() && CheckBounds(|view.Content()|, position, position + 8) {
      ghost var c := view.Content();
      AsLongValue(c[position + 7], c[position + 6], c[position + 5], c[position + 4],
                  c[position + 3], c[position + 2], c[position + 1], c[position]);
    }
  }
}
