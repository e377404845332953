/**
 * The parts of kotlinx-io's `Segment` and `Buffer` that the random-access
 * view relies on. A segment is a window `[pos, limit)` of a byte array; a
 * buffer is its chain of segments, in chain order, and holds the
 * concatenation of their windows. The chain is circular: the segment after
 * the last one is the head again.
 */
module Buffers {
  import opened ByteOps

  /** `Segment.SIZE`, the capacity of a segment. */
  const SegmentSize: nat := 8192

  datatype Segment = Segment(data: seq<Byte>, pos: nat, limit: nat) {

    ghost predicate Valid() {
      pos <= limit <= |data|
    }

    function Size(): int {
      limit - pos
    }

    /** The bytes a segment holds. */
    ghost function Content(): seq<Byte>
      requires Valid()
    {
      data[pos..limit]
    }

    /** `Segment.get` (core/common/src/BufferView.kt): the index-th byte held. */
    function Get(index: int): (b: Byte)
      requires Valid()
      requires 0 <= index < Size()
      ensures b == Content()[index]
    {
      data[pos + index]
    }
  }

  ghost predicate AllValid(segments: seq<Segment>) {
    forall i :: 0 <= i < |segments| ==> segments[i].Valid()
  }

  /** The number of bytes held by a chain of segments. */
  function TotalSize(segments: seq<Segment>): int {
    if segments == [] then 0 else segments[0].Size() + TotalSize(segments[1..])
  }

  /** The bytes held by a chain of segments, in chain order. */
  ghost function Concat(segments: seq<Segment>): seq<Byte>
    requires AllValid(segments)
  {
    if segments == [] then [] else segments[0].Content() + Concat(segments[1..])
  }

  lemma {:induction false} ConcatLength(segments: seq<Segment>)
    requires AllValid(segments)
    ensures |Concat(segments)| == TotalSize(segments)
  {
    if segments != [] {
      ConcatLength(segments[1..]);
    }
  }

  lemma {:induction false} ConcatAppend(a: seq<Segment>, b: seq<Segment>)
    requires AllValid(a) && AllValid(b)
    ensures AllValid(a + b)
    ensures Concat(a + b) == Concat(a) + Concat(b)
  {
    if a == [] {
      assert a + b == b;
    } else {
      assert (a + b)[1..] == a[1..] + b;
      ConcatAppend(a[1..], b);
    }
  }

  lemma {:induction false} TotalSizeAppend(segments: seq<Segment>, s: Segment)
    ensures TotalSize(segments + [s]) == TotalSize(segments) + s.Size()
  {
    if segments == [] {
      assert [] + [s] == [s];
      assert [s][1..] == [];
    } else {
      assert (segments + [s])[1..] == segments[1..] + [s];
      TotalSizeAppend(segments[1..], s);
    }
  }

  /** Byte j of segment k sits at the number of bytes before segment k, plus j. */
  lemma SegmentAt(segments: seq<Segment>, k: int, j: int)
    requires AllValid(segments)
    requires 0 <= k < |segments|
    requires 0 <= j < segments[k].Size()
    ensures 0 <= TotalSize(segments[..k]) + j < |Concat(segments)|
    ensures Concat(segments)[TotalSize(segments[..k]) + j] == segments[k].Content()[j]
  {
    var before, after := segments[..k], segments[k + 1..];
    assert segments == before + ([segments[k]] + after);
    ConcatAppend([segments[k]], after);
    ConcatAppend(before, [segments[k]] + after);
    assert Concat([segments[k]]) == segments[k].Content() by {
      assert [segments[k]][1..] == [];
    }
    ConcatLength(before);
    ConcatLength(segments);
  }

  /** Cutting a byte sequence into segments of at most `SegmentSize` bytes,
      as writing it into an empty buffer does. */
  function Chunks(bytes: seq<Byte>): (segments: seq<Segment>)
    ensures AllValid(segments)
    ensures Concat(segments) == bytes
    ensures forall i :: 0 <= i < |segments| ==> 0 < segments[i].Size() <= SegmentSize
    decreases |bytes|
  {
    if bytes == [] then []
    else
      var n := if |bytes| < SegmentSize then |bytes| else SegmentSize;
      var head := Segment(bytes[..n], 0, n);
      var tail := Chunks(bytes[n..]);
      assert Concat([head] + tail) == Concat([head]) + Concat(tail) by {
        ConcatAppend([head], tail);
      }
      assert Concat([head]) == bytes[..n] by {
        assert [head][1..] == [];
      }
      [head] + tail
  }

  /** A segment's window narrowed to `[from, to)` of the bytes it holds. */
  function Trim(s: Segment, from: int, to: int): (t: Segment)
    requires s.Valid()
    requires 0 <= from <= to <= s.Size()
    ensures t.Valid() && t.Size() == to - from
    ensures t.Content() == s.Content()[from..to]
  {
    var t := Segment(s.data, s.pos + from, s.pos + to);
    assert forall i :: 0 <= i < to - from ==> t.Content()[i] == s.Content()[from..to][i];
    t
  }

  /** The segments that `Buffer.copyTo` gives its destination for the range
      `[start, end)`: windows onto the same data, trimmed to the range. */
  function CopyRange(segments: seq<Segment>, start: int, end: int): (copy: seq<Segment>)
    requires AllValid(segments)
    requires 0 <= start <= end <= TotalSize(segments)
    ensures AllValid(copy)
    decreases |segments|
  {
    if start == end then []
    else
      var s := segments[0];
      if start >= s.Size() then
        CopyRange(segments[1..], start - s.Size(), end - s.Size())
      else
        var take := if end < s.Size() then end else s.Size();
        ConcatLength(segments[1..]);
        [Trim(s, start, take)] + CopyRange(segments[1..], 0, end - take)
  }

  /** A slice of `a + b` that starts inside `a`. */
  lemma SliceAcross(a: seq<Byte>, b: seq<Byte>, start: int, take: int, end: int)
    requires 0 <= start <= take <= |a| && take <= end <= |a| + |b|
    requires take == |a| || take == end
    ensures (a + b)[start..end] == a[start..take] + b[..end - take]
  {
    assert forall i :: 0 <= i < end - start ==> (a + b)[start..end][i] == (a[start..take] + b[..end - take])[i];
  }

  /** A slice of `a + b` that starts after `a`. */
  lemma SliceAfter(a: seq<Byte>, b: seq<Byte>, start: int, end: int)
    requires |a| <= start <= end <= |a| + |b|
    ensures (a + b)[start..end] == b[start - |a|..end - |a|]
  {
    assert forall i :: 0 <= i < end - start ==> (a + b)[start..end][i] == b[start - |a|..end - |a|][i];
  }

  lemma {:induction false} CopyRangeContent(segments: seq<Segment>, start: int, end: int)
    requires AllValid(segments)
    requires 0 <= start <= end <= TotalSize(segments)
    ensures |Concat(segments)| == TotalSize(segments)
    ensures Concat(CopyRange(segments, start, end)) == Concat(segments)[start..end]
    decreases |segments|, 1
  {
    ConcatLength(segments);
    if start < end {
      if start >= segments[0].Size() {
        CopyRangeSkipped(segments, start, end);
      } else {
        CopyRangeTrimmed(segments, start, end);
      }
    }
  }

  /** The step of CopyRangeContent that skips the head segment. */
  lemma {:induction false} CopyRangeSkipped(segments: seq<Segment>, start: int, end: int)
    requires AllValid(segments) && segments != []
    requires segments[0].Size() <= start < end <= TotalSize(segments)
    ensures |Concat(segments)| == TotalSize(segments)
    ensures Concat(CopyRange(segments, start, end)) == Concat(segments)[start..end]
    decreases |segments|, 0
  {
    ConcatLength(segments);
    var s, rest := segments[0], segments[1..];
    CopyRangeContent(rest, start - s.Size(), end - s.Size());
    assert CopyRange(segments, start, end) == CopyRange(rest, start - s.Size(), end - s.Size());
    assert Concat(segments) == s.Content() + Concat(rest);
    SliceAfter(s.Content(), Concat(rest), start, end);
  }

  /** The step of CopyRangeContent that trims the head segment. */
  lemma {:induction false} CopyRangeTrimmed(segments: seq<Segment>, start: int, end: int)
    requires AllValid(segments) && segments != []
    requires 0 <= start < segments[0].Size() && start < end <= TotalSize(segments)
    ensures |Concat(segments)| == TotalSize(segments)
    ensures Concat(CopyRange(segments, start, end)) == Concat(segments)[start..end]
    decreases |segments|, 0
  {
    ConcatLength(segments);
    var s, rest := segments[0], segments[1..];
    var take := if end < s.Size() then end else s.Size();
    CopyRangeContent(rest, 0, end - take);
    var head, tail := Trim(s, start, take), CopyRange(rest, 0, end - take);
    assert CopyRange(segments, start, end) == [head] + tail;
    ConcatAppend([head], tail);
    assert Concat([head]) == head.Content() by {
      assert [head][1..] == [];
    }
    assert Concat(segments) == s.Content() + Concat(rest);
    SliceAcross(s.Content(), Concat(rest), start, take, end);
  }

  class Buffer {
    /** The segment chain, head first. */
    var segments: seq<Segment>

    ghost predicate Valid()
      reads this
    {
      AllValid(segments)
    }

    ghost function Content(): seq<Byte>
      reads this
      requires Valid()
    {
      Concat(segments)
    }

    /** `Buffer.size`. */
    function Size(): (n: int)
      reads this
      requires Valid()
      ensures n == |Content()|
    {
      ConcatLength(segments);
      TotalSize(segments)
    }

    /** The index of `segments[i].next`: the chain closes at the head. */
    function Next(i: int): (j: int)
      reads this
      requires 0 <= i < |segments|
      ensures 0 <= j < |segments|
      ensures j == 0 <==> i == |segments| - 1
      ensures j != 0 ==> j == i + 1
    {
      (i + 1) % |segments|
    }

    constructor ()
      ensures Valid() && segments == []
    {
      segments := [];
    }

    /** `Buffer.clear`: releases every segment. */
    method Clear()
      modifies this
      ensures Valid() && segments == []
    {
      segments := [];
    }

    /** `Buffer.write(source, byteCount)` for a source holding the bytes
        `source`: moves `byteCount` of them into the buffer, or, when the
        source runs dry first, moves all it has and reports end of input. */
    method Write(source: seq<Byte>, byteCount: nat) returns (rest: seq<Byte>, ok: bool)
      requires Valid()
      modifies this
      ensures Valid()
      ensures ok <==> byteCount <= |source|
      ensures ok ==> Content() == old(Content()) + source[..byteCount] && rest == source[byteCount..]
      ensures !ok ==> Content() == old(Content()) + source && rest == []
    {
      var moved;
      if byteCount <= |source| {
        moved, rest, ok := source[..byteCount], source[byteCount..], true;
      } else {
        moved, rest, ok := source, [], false;
      }
      ConcatAppend(segments, Chunks(moved));
      segments := segments + Chunks(moved);
    }

    /** `Buffer.copyTo(out, startIndex, endIndex)`: appends the bytes in
        `[startIndex, endIndex)` to `out` and leaves this buffer as it was. */
    method CopyTo(out: Buffer, startIndex: int, endIndex: int) returns (ok: bool)
      requires Valid() && out.Valid()
      requires out != this
      modifies out
      ensures out.Valid()
      ensures ok <==> 0 <= startIndex <= endIndex <= Size()
      ensures ok ==> out.Content() == old(out.Content()) + Content()[startIndex..endIndex]
      ensures !ok ==> out.segments == old(out.segments)
    {
      ok := 0 <= startIndex <= endIndex <= Size();
      if ok {
        var copy := CopyRange(segments, startIndex, endIndex);
        CopyRangeContent(segments, startIndex, endIndex);
        ConcatAppend(out.segments, copy);
        out.segments := out.segments + copy;
      }
    }
  }
}
