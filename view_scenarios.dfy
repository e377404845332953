/**
 * Client-side uses of a view: the scenario of `CommonBufferViewTest.getShort`,
 * and the independence of a slice from the view it was cut from.
 */
module Scenarios {
  import opened Wrappers
  import opened ByteOps
  import opened Buffers
  import opened View

  /** The bytes that `writeShort` appends for each of `shorts` in turn: two
      per short, most significant first. */
  function WrittenShorts(shorts: seq<Short>): (bytes: seq<Byte>)
    ensures |bytes| == 2 * |shorts|
  {
    if shorts == [] then [] else ShortBytes(shorts[0]) + WrittenShorts(shorts[1..])
  }

  /** Byte 2 * i and byte 2 * i + 1 of what was written are the bytes of
      the i-th short. */
  lemma {:induction false} WrittenShortBytes(shorts: seq<Short>, i: int)
    requires 0 <= i < |shorts|
    ensures WrittenShorts(shorts)[2 * i] == ShortBytes(shorts[i])[0]
    ensures WrittenShorts(shorts)[2 * i + 1] == ShortBytes(shorts[i])[1]
  {
    if i > 0 {
      WrittenShortBytes(shorts[1..], i - 1);
    }
  }

  /** Reading a short at 2 * i gives back the i-th short written. */
  lemma WrittenShortAt(shorts: seq<Short>, i: int)
    requires 0 <= i < |shorts|
    ensures var bytes := WrittenShorts(shorts);
      AsShort(bytes[2 * i], bytes[2 * i + 1]) == shorts[i]
  {
    WrittenShortBytes(shorts, i);
    ShortBytesAsShort(shorts[i]);
  }

  /** A short read from a view holding what was written at shorts' index
      `i` is the i-th short written. */
  method ReadWrittenShort(view: BufferView, shorts: seq<Short>, i: int) returns (r: Result<Short, Error>)
    requires view.Valid() && view.IsOpen() && view.Content() == WrittenShorts(shorts)
    requires 0 <= i < |shorts|
    ensures r == Ok(shorts[i])
  {
    WrittenShortAt(shorts, i);
    r := view.GetShort(2 * i);
  }

  /** The shorts the test writes: the i-th one is `i.toShort()`. */
  ghost predicate Counting(shorts: seq<Short>) {
    forall i :: 0 <= i < |shorts| ==> shorts[i] as int == i
  }

  /** `CommonBufferViewTest.getShort`: 4 * 8192 shorts are written, and a
      view captures all their bytes. Reads at 0 (twice), at the middle and
      at the end give back the shorts written there, which for the test's
      shorts 0, 1, 2, ... are 0, 0, shortCount / 2 - 1 and shortCount - 1;
      and the view answers nothing once `use` has closed it. */
  method GetShortScenario(shorts: seq<Short>)
    returns (size: Result<int, Error>, first: Result<Short, Error>, again: Result<Short, Error>,
             middle: Result<Short, Error>, last: Result<Short, Error>, closed: Result<int, Error>)
    requires |shorts| == SegmentSize * 4
    ensures size == Ok(2 * |shorts|)
    ensures first == Ok(shorts[0]) && again == first
    ensures middle == Ok(shorts[|shorts| / 2 - 1]) && last == Ok(shorts[|shorts| - 1])
    ensures closed == Err(Closed)
    ensures Counting(shorts) ==>
      first.value as int == 0 && middle.value as int == |shorts| / 2 - 1 && last.value as int == |shorts| - 1
  {
    var shortCount := SegmentSize * 4;
    var source := WrittenShorts(shorts);
    var captured, _ := ReadView(source, 2 * shortCount);
    match captured {
      case Err(e) =>
        size, first, again, middle, last, closed := Err(e), Err(e), Err(e), Err(e), Err(e), Err(e);
      case Ok(view) =>
        size := view.Size();
        first := ReadWrittenShort(view, shorts, 0);
        again := ReadWrittenShort(view, shorts, 0);
        middle := ReadWrittenShort(view, shorts, shortCount / 2 - 1);
        last := ReadWrittenShort(view, shorts, shortCount - 1);
        view.Close();
        closed := view.Size();
    }
  }

  /** A slice owns its bytes: once the view it was cut from is closed, the
      slice still reads the bytes the view held. */
  method SliceOutlivesView(view: BufferView, startIndex: int, endIndex: int, i: int) returns (r: Result<Byte, Error>)
    requires view.Valid() && view.IsOpen()
    requires CheckBounds(|view.Content()|, startIndex, endIndex) && 0 <= i < endIndex - startIndex
    modifies view, view.buffer
    ensures view.Valid() && !view.IsOpen()
    ensures r == Ok(old(view.Content())[startIndex + i])
  {
    var slice := view.Slice(startIndex, endIndex);
    view.Close();
    match slice {
      case Err(e) =>
        r := Err(e);
      case Ok(s) =>
        r := s.GetByte(i);
    }
  }
}
