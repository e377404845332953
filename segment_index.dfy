/**
 * kotlinx-io's `SegmentIndex`: the list of (offset, segment) pairs of a
 * buffer's chain, built once when a view captures the buffer and then
 * searched by binary search to find the segment holding an absolute offset.
 */
module Index {
  import opened Wrappers
  import opened Buffers

  /** `SegmentIndexElement`: a segment together with the absolute offset of
      its first byte. */
  datatype Element = Element(offset: int, segment: Segment) {

    /** One past the absolute offset of the segment's last byte. */
    function End(): int {
      offset + segment.Size()
    }

    /** The element's right-open range `[offset, End())` holds `index`. */
    predicate Contains(index: int) {
      offset <= index < End()
    }

    /** `compareToIndex`: 1 when the element lies after `index`, -1 when it
        lies before it, 0 when it holds it. */
    function CompareToIndex(index: int): (c: int)
      ensures c == 1 <==> index < offset
      ensures c == -1 <==> offset <= index && End() <= index
      ensures c == 0 <==> Contains(index)
    {
      var end := offset + segment.Size();
      if index < offset then 1
      else if index >= end then -1
      else 0
    }
  }

  /** Why `SegmentIndex.get` fails: the search reported insertion point 0,
      which `get` rejects itself, or another miss, whose negative result then
      indexes the list out of range. */
  datatype IndexError = IllegalArgument | IndexOutOfRange

  /** The ranges of the elements are well formed and ascending. */
  ghost predicate Ordered(elements: seq<Element>) {
    (forall i :: 0 <= i < |elements| ==> elements[i].segment.Valid())
    && (forall i, j :: 0 <= i < j < |elements| ==> elements[i].End() <= elements[j].offset)
  }

  /** `elements` is what `build` makes of the chain `segments`: one element
      per segment in chain order, the first at offset 0, each next one where
      the previous one ends. */
  ghost predicate IndexesChain(elements: seq<Element>, segments: seq<Segment>) {
    |elements| == |segments|
    && (forall i :: 0 <= i < |elements| ==> elements[i].segment == segments[i])
    && (|elements| > 0 ==> elements[0].offset == 0)
    && (forall i :: 0 <= i < |elements| - 1 ==> elements[i + 1].offset == elements[i].End())
  }

  /** Each element's offset is the number of bytes held by the segments
      before it. */
  lemma {:induction false} ChainOffsets(elements: seq<Element>, segments: seq<Segment>, k: int)
    requires IndexesChain(elements, segments)
    requires 0 <= k < |elements|
    ensures elements[k].offset == TotalSize(segments[..k])
    ensures elements[k].End() == TotalSize(segments[..k + 1])
  {
    if k > 0 {
      ChainOffsets(elements, segments, k - 1);
    }
    assert segments[..k + 1] == segments[..k] + [segments[k]];
    TotalSizeAppend(segments[..k], segments[k]);
  }

  /** The last element ends where the chain's bytes end. */
  lemma ChainEnd(elements: seq<Element>, segments: seq<Segment>)
    requires IndexesChain(elements, segments)
    requires elements != []
    ensures elements[|elements| - 1].End() == TotalSize(segments)
  {
    ChainOffsets(elements, segments, |elements| - 1);
    assert segments[..|elements|] == segments;
  }

  lemma {:induction false} ChainMonotone(elements: seq<Element>, segments: seq<Segment>, i: int, j: int)
    requires IndexesChain(elements, segments) && AllValid(segments)
    requires 0 <= i <= j < |elements|
    ensures elements[i].offset <= elements[j].offset
    decreases j - i
  {
    if i < j {
      assert segments[i].Valid();
      ChainMonotone(elements, segments, i + 1, j);
    }
  }

  /** The index of a chain of valid segments is ordered, so its ranges tile
      `[0, TotalSize(segments))` without overlap. */
  lemma ChainOrdered(elements: seq<Element>, segments: seq<Segment>)
    requires IndexesChain(elements, segments) && AllValid(segments)
    ensures Ordered(elements)
  {
    forall i, j | 0 <= i < j < |elements|
      ensures elements[i].End() <= elements[j].offset
    {
      ChainMonotone(elements, segments, i + 1, j);
    }
  }

  /** Walking up from element k, whose offset is at most p, reaches the
      element holding p. */
  lemma {:induction false} Locate(elements: seq<Element>, segments: seq<Segment>, p: int, k: int) returns (j: int)
    requires IndexesChain(elements, segments) && AllValid(segments)
    requires 0 <= k < |elements| && elements[k].offset <= p < TotalSize(segments)
    ensures k <= j < |elements| && elements[j].Contains(p)
    decreases |elements| - k
  {
    if p < elements[k].End() {
      j := k;
    } else {
      if k == |elements| - 1 {
        ChainEnd(elements, segments);
      }
      j := Locate(elements, segments, p, k + 1);
    }
  }

  /** Some element of a chain's index holds p exactly when p is one of the
      chain's byte positions. */
  lemma ChainContains(elements: seq<Element>, segments: seq<Segment>, p: int)
    requires IndexesChain(elements, segments) && AllValid(segments)
    ensures (exists i :: 0 <= i < |elements| && elements[i].Contains(p)) <==> 0 <= p < TotalSize(segments)
  {
    if 0 <= p < TotalSize(segments) && elements != [] {
      var j := Locate(elements, segments, p, 0);
    }
    if i :| 0 <= i < |elements| && elements[i].Contains(p) {
      ChainMonotone(elements, segments, 0, i);
      ChainOrdered(elements, segments);
      ChainEnd(elements, segments);
    }
  }

  /** An offset equal to a segment's end belongs to the next segment, not to
      the one that ends there. */
  lemma ChainBoundary(elements: seq<Element>, segments: seq<Segment>, i: int)
    requires IndexesChain(elements, segments)
    requires 0 <= i < |elements| - 1 && segments[i + 1].Size() > 0
    ensures !elements[i].Contains(elements[i].End())
    ensures elements[i + 1].Contains(elements[i].End())
  {
  }

  /** The byte an element's segment holds at position p - offset is byte p
      of the chain. */
  lemma ElementByte(elements: seq<Element>, segments: seq<Segment>, e: Element, p: int)
    requires IndexesChain(elements, segments) && AllValid(segments)
    requires e in elements && e.Contains(p)
    ensures e.segment.Valid()
    ensures 0 <= p < |Concat(segments)|
    ensures e.segment.Get(p - e.offset) == Concat(segments)[p]
  {
    var k :| 0 <= k < |elements| && elements[k] == e;
    ChainOffsets(elements, segments, k);
    SegmentAt(segments, k, p - e.offset);
  }

  /** `List.binarySearch` with `compareToIndex` as the comparison: the
      position of the element holding `index`, or else minus one minus the
      insertion point. */
  method BinarySearch(elements: seq<Element>, index: int) returns (r: int)
    requires Ordered(elements)
    ensures 0 <= r ==> r < |elements| && elements[r].CompareToIndex(index) == 0
    ensures r < 0 ==> 0 <= -(r + 1) <= |elements|
    ensures r < 0 ==> forall i :: 0 <= i < -(r + 1) ==> elements[i].CompareToIndex(index) < 0
    ensures r < 0 ==> forall i :: -(r + 1) <= i < |elements| ==> elements[i].CompareToIndex(index) > 0
  {
    var low, high := 0, |elements| - 1;
    while low <= high
      invariant 0 <= low <= high + 1 <= |elements|
      invariant forall i :: 0 <= i < low ==> elements[i].CompareToIndex(index) < 0
      invariant forall i :: high < i < |elements| ==> elements[i].CompareToIndex(index) > 0
    {
      var mid := (low + high) / 2;
      var cmp := elements[mid].CompareToIndex(index);
      if cmp < 0 {
        low := mid + 1;
      } else if cmp > 0 {
        high := mid - 1;
      } else {
        return mid;
      }
    }
    return -(low + 1);
  }

  /** `SegmentIndex`: the elements of a buffer's chain, fixed once built. */
  datatype SegmentIndex = SegmentIndex(indexes: seq<Element>) {

    ghost predicate Valid() {
      Ordered(indexes)
    }

    /** `SegmentIndex.build`: walks the chain from the head until it comes
        back to the head, emitting one element per segment. */
    static method Build(buffer: Buffer) returns (index: SegmentIndex)
      requires buffer.Valid()
      ensures IndexesChain(index.indexes, buffer.segments)
      ensures buffer.segments == [] ==> index.indexes == []
    {
      if buffer.segments == [] {
        return SegmentIndex([]);
      }
      var indexes: seq<Element> := [];
      var offset := 0;
      var curr := 0;
      while true
        invariant 0 <= curr < |buffer.segments| && |indexes| == curr
        invariant IndexesChain(indexes, buffer.segments[..curr])
        invariant offset == if curr == 0 then 0 else indexes[curr - 1].End()
        decreases |buffer.segments| - curr
      {
        indexes := indexes + [Element(offset, buffer.segments[curr])];
        offset := offset + buffer.segments[curr].Size();
        var next := buffer.Next(curr);
        if next == 0 {
          break;
        }
        curr := next;
      }
      assert buffer.segments[..|indexes|] == buffer.segments;
      index := SegmentIndex(indexes);
    }

    /** `SegmentIndex.get`: the element whose range holds `index`. */
    method Get(index: int) returns (r: Result<Element, IndexError>)
      requires Valid()
      ensures r.Ok? <==> exists i :: 0 <= i < |indexes| && indexes[i].Contains(index)
      ensures r.Ok? ==> r.value in indexes && r.value.Contains(index)
      ensures r.Ok? ==> forall i :: 0 <= i < |indexes| && indexes[i].Contains(index) ==> indexes[i] == r.value
      ensures r.Err? ==> (r.error == IllegalArgument <==> indexes == [] || index < indexes[0].offset)
    {
      var i := BinarySearch(indexes, index);
      if i == -1 {
        return Err(IllegalArgument);
      }
      if i < 0 {
        return Err(IndexOutOfRange);
      }
      return Ok(indexes[i]);
    }
  }
}
