/** Binary data in one node, or split over a sequence of chunk nodes. */
module Blob {
  import opened Options
  import opened DirectAccess
  import P = PackedArray

  const MAX_BINARY_SIZE := 0xff_fff0

  datatype Blob = Leaf(bytes: seq<Byte>) | Chunked(chunks: seq<seq<Byte>>)

  function Joined(chunks: seq<seq<Byte>>): (r: seq<Byte>) {
    if chunks == [] then [] else Joined(chunks[..|chunks| - 1]) + chunks[|chunks| - 1]
  }

  lemma {:induction false} JoinedFirst(chunks: seq<seq<Byte>>, n: nat)
    requires n <= |chunks|
    ensures Joined(chunks) == Joined(chunks[..n]) + Joined(chunks[n..])
  {
    if n == |chunks| {
      assert chunks[..n] == chunks;
    } else {
      var front := chunks[..|chunks| - 1];
      JoinedFirst(front, n);
      assert front[..n] == chunks[..n] && front[n..] == chunks[n..][..|chunks| - n - 1];
      assert Joined(chunks[n..]) == Joined(front[n..]) + chunks[|chunks| - 1];
    }
  }

  function Content(b: Blob): (r: seq<Byte>) {
    match b
    case Leaf(bytes) => bytes
    case Chunked(chunks) => Joined(chunks)
  }

  /** At least one chunk; all of them full but the last, which is not empty. */
  ghost predicate Full(chunks: seq<seq<Byte>>) {
    && |chunks| > 0
    && (forall i :: 0 <= i < |chunks| - 1 ==> |chunks[i]| == MAX_BINARY_SIZE)
    && 0 < |chunks[|chunks| - 1]| <= MAX_BINARY_SIZE
  }

  ghost predicate Proper(b: Blob) {
    match b
    case Leaf(bytes) => |bytes| <= MAX_BINARY_SIZE
    case Chunked(chunks) => Full(chunks)
  }

  // ----- writing -----

  function Min(a: nat, b: nat): (r: nat) {
    if a < b then a else b
  }

  /** The room left in the last chunk. */
  function SpaceLeft(chunks: seq<seq<Byte>>): (r: int)
    requires |chunks| > 0
  {
    MAX_BINARY_SIZE - |chunks[|chunks| - 1]|
  }

  /** What is left to write after the first copy, as a 64-bit number: the room is subtracted even
      when the data is shorter. */
  function Remaining(size: nat, space: nat): (r: nat) {
    (size - space) % WORD64
  }

  /** The subtraction is right exactly when the data fills the room. */
  lemma RemainingExact(size: nat, space: nat)
    requires size < WORD64 && space <= MAX_BINARY_SIZE
    ensures Remaining(size, space) == size - Min(space, size) <==> space <= size
    ensures size < space ==> Remaining(size, space) > size
  {
  }

  lemma ChunkAdded(r: seq<seq<Byte>>, before: seq<Byte>, data: seq<Byte>, at: nat, n: nat)
    requires Full(r) && |r[|r| - 1]| == MAX_BINARY_SIZE && 0 < n <= MAX_BINARY_SIZE && at + n <= |data|
    requires Joined(r) == before + data[..at]
    ensures Full(r + [data[at..at + n]]) && Joined(r + [data[at..at + n]]) == before + data[..at + n]
  {
    FullNext(r, data[at..at + n]);
    hide Joined, Full;
    JoinedNext(r, data[at..at + n]);
    SliceNext(before, data, at, n);
  }

  lemma SliceNext(before: seq<Byte>, data: seq<Byte>, at: nat, n: nat)
    requires at + n <= |data|
    ensures before + data[..at] + data[at..at + n] == before + data[..at + n]
  {
  }

  lemma FullNext(r: seq<seq<Byte>>, chunk: seq<Byte>)
    requires Full(r) && |r[|r| - 1]| == MAX_BINARY_SIZE && 0 < |chunk| <= MAX_BINARY_SIZE
    ensures Full(r + [chunk])
  {
  }

  lemma JoinedNext(r: seq<seq<Byte>>, chunk: seq<Byte>)
    ensures Joined(r + [chunk]) == Joined(r) + chunk
  {
    assert (r + [chunk])[..|r|] == r;
  }

  /** Appending to the chunks: fill the last one, then make new ones.  There is no result when the
      data ends before the room: the source then reads on past the data. */
  method Append(chunks: seq<seq<Byte>>, data: seq<Byte>) returns (res: Option<seq<seq<Byte>>>)
    requires |chunks| > 0 && (forall i :: 0 <= i < |chunks| - 1 ==> |chunks[i]| == MAX_BINARY_SIZE)
    requires |chunks[|chunks| - 1]| <= MAX_BINARY_SIZE && |data| < WORD64
    ensures res.Some? <==> SpaceLeft(chunks) <= |data|
    ensures res.Some? ==> Joined(res.value) == Joined(chunks) + data && Full(res.value)
  {
    var last := |chunks| - 1;
    var space := SpaceLeft(chunks);
    var n := Min(space, |data|);
    var r := chunks[last := chunks[last] + data[..n]];
    assert r[..last] == chunks[..last];
    RemainingExact(|data|, space);
    var left, at := Remaining(|data|, space), space;
    if at > |data| {
      return None;
    }
    while left != 0
      invariant left == |data| - at && space <= at <= |data|
      invariant Joined(r) == Joined(chunks) + data[..at] && Full(r)
      invariant left == 0 || |r[|r| - 1]| == MAX_BINARY_SIZE
    {
      n := Min(MAX_BINARY_SIZE, left);
      ChunkAdded(r, Joined(chunks), data, at, n);
      r := r + [data[at..at + n]];
      left, at := left - n, at + n;
    }
    assert data[..at] == data;
    res := Some(r);
  }

  /** Whether the bytes no longer fit one node. */
  predicate TooLarge(size: nat, begin: nat, end: nat, data: nat, zeroTerm: bool)
    requires begin <= end <= size
  {
    size - (end - begin) + data + (if zeroTerm then 1 else 0) > MAX_BINARY_SIZE
  }

  function Terminator(zeroTerm: bool): (r: seq<Byte>)
    ensures |r| == if zeroTerm then 1 else 0
  {
    if zeroTerm then [0] else []
  }

  /** Moves bytes `end` to `size` to start at `begin + add`. */
  method MoveTail(a: array<Byte>, begin: nat, end: nat, size: nat, add: nat)
    requires begin <= end <= size <= a.Length && begin + add + (size - end) <= a.Length
    modifies a
    ensures a[..begin] == old(a[..begin])
    ensures a[begin + add..begin + add + (size - end)] == old(a[end..size])
  {
    hide P.Moved;
    ghost var t := a[..];
    P.MovedSlices(t, end, size, begin + add, 0, begin);
    P.MovedSlices(t, end, size, begin + add, end, size - end);
    if end - begin < add {
      P.CopyBackward(a, end, size, begin + add - end);
    } else if add < end - begin {
      P.CopyForward(a, end, size, begin + add);
    }
    assert a[..begin] == a[..][0..begin] && t[0..begin] == old(a[..begin]);
    assert a[begin + add..begin + add + (size - end)] == a[..][begin + add..begin + add + (size - end)];
  }

  /** A blob held in one node. */
  class ArrayBlob {
    var data: array<Byte>
    var size: nat

    ghost predicate Valid()
      reads this, data
    {
      size <= data.Length && size <= MAX_BINARY_SIZE
    }

    ghost function Bytes(): (r: seq<Byte>)
      requires Valid()
      reads this, data
    {
      data[..size]
    }

    constructor ()
      ensures Valid() && Bytes() == [] && fresh(data)
    {
      data := new Byte[120];
      size := 0;
    }

    constructor Of(bytes: seq<Byte>)
      requires |bytes| <= MAX_BINARY_SIZE
      ensures Valid() && Bytes() == bytes && fresh(data)
    {
      data := new Byte[|bytes|];
      size := |bytes|;
      new;
      P.Overwrite(data, 0, bytes);
      assert data[..size] == data[..] == bytes;
    }

    /** Makes room in the node and moves the bytes after the gap. */
    method OpenGap(begin: nat, end: nat, add: nat)
      requires Valid() && begin <= end <= size && size - (end - begin) + add <= MAX_BINARY_SIZE
      modifies this, data
      ensures size == old(size) - (end - begin) + add <= data.Length
      ensures data == old(data) || fresh(data)
      ensures data[..begin] == old(data[..begin])
      ensures data[begin + add..size] == old(data[end..size])
    {
      var oldSize, newSize := size, size - (end - begin) + add;
      ghost var s := data[..];
      if data.Length < newSize {
        data := P.Copied(data, P.NewCapacity(P.HEADER + data.Length, P.HEADER + newSize) - P.HEADER);
      }
      assert data[..begin] == s[..begin] && data[end..oldSize] == s[end..oldSize];
      size := newSize;
      MoveTail(data, begin, end, oldSize, add);
    }

    /** Replaces bytes `begin` to `end`. Bytes that no longer fit are split over chunks of a new root. */
    method Replace(begin: nat, end: nat, bytes: seq<Byte>, zeroTerm: bool) returns (root: Option<seq<seq<Byte>>>)
      requires Valid() && begin <= end <= size && |bytes| + 1 < WORD64
      requires TooLarge(size, begin, end, |bytes|, zeroTerm) ==> (begin == 0 || begin == size) && end == size
      modifies this, data
      ensures root.Some? <==> old(TooLarge(size, begin, end, |bytes|, zeroTerm))
      ensures root.None? ==>
              Valid() && Bytes() == old(Bytes())[..begin] + bytes + Terminator(zeroTerm) + old(Bytes())[end..]
      ensures root.Some? ==> Full(root.value) && Joined(root.value) == old(Bytes())[..begin] + bytes
      ensures data == old(data) || fresh(data)
      decreases size, 1
    {
      var newSize := size - (end - begin) + |bytes| + (if zeroTerm then 1 else 0);
      if newSize > MAX_BINARY_SIZE {
        assert Joined([data[..size]]) == data[..size] by { assert [data[..size]][..0] == []; }
        var b := BlobReplace([data[..size]], begin, end, bytes, zeroTerm);
        root := Some(b.value.chunks);
      } else {
        ReplaceInPlace(begin, end, bytes + Terminator(zeroTerm));
        ghost var s := old(Bytes());
        assert s[..begin] + (bytes + Terminator(zeroTerm)) + s[end..] ==
               s[..begin] + bytes + Terminator(zeroTerm) + s[end..];
        root := None;
      }
    }

    method ReplaceInPlace(begin: nat, end: nat, bytes: seq<Byte>)
      requires Valid() && begin <= end <= size && size - (end - begin) + |bytes| <= MAX_BINARY_SIZE
      modifies this, data
      ensures Valid() && Bytes() == old(Bytes())[..begin] + bytes + old(Bytes())[end..]
      ensures data == old(data) || fresh(data)
    {
      ghost var s := data[..size];
      assert data[..begin] == s[..begin] && data[end..size] == s[end..];
      OpenGap(begin, end, |bytes|);
      ghost var t := data[..];
      assert t[..begin] == s[..begin] && t[begin + |bytes|..size] == s[end..];
      P.Overwrite(data, begin, bytes);
      FilledIs(t, begin, size, bytes);
      assert data[..size] == data[..][..size];
    }
  }

  lemma FilledIs(t: seq<Byte>, begin: nat, size: nat, all: seq<Byte>)
    requires begin + |all| <= size <= |t|
    ensures (t[..begin] + all + t[begin + |all|..])[..size] == t[..begin] + all + t[begin + |all|..size]
  {
  }

  /** Replacing all, or appending to, a blob that is split; the terminator is lost when data is appended. */
  method BlobReplace(chunks: seq<seq<Byte>>, begin: nat, end: nat, data: seq<Byte>, zeroTerm: bool)
    returns (b: Option<Blob>)
    requires |chunks| > 0 && (forall i :: 0 <= i < |chunks| - 1 ==> |chunks[i]| == MAX_BINARY_SIZE)
    requires |chunks[|chunks| - 1]| <= MAX_BINARY_SIZE && |data| + 1 < WORD64
    requires (begin == 0 || begin == |Joined(chunks)|) && end == |Joined(chunks)|
    ensures b.Some? <==> (begin == end ==> SpaceLeft(chunks) <= |data|)
    ensures b.Some? ==> Proper(b.value)
    ensures b.Some? && begin == end ==> b.value.Chunked? && Content(b.value) == Joined(chunks) + data
    ensures begin < end ==>
              && (b.value.Chunked? <==> |data| + (if zeroTerm then 1 else 0) > MAX_BINARY_SIZE)
              && Content(b.value) == data + (if b.value.Leaf? then Terminator(zeroTerm) else [])
    decreases |Joined(chunks)|, 0
  {
    if begin == end {
      var r := Append(chunks, data);
      b := if r.Some? then Some(Chunked(r.value)) else None;
    } else {
      var blob := new ArrayBlob();
      var root := blob.Replace(0, 0, data, zeroTerm);
      b := Some(if root.Some? then Chunked(root.value) else Leaf(blob.data[..blob.size]));
      assert [] + data == data;
    }
  }

  // ----- reading -----

  /** One piece from position `pos` on, and the position of the next one, 0 after the last. */
  method GetAt(b: Blob, pos: nat) returns (piece: seq<Byte>, pos': nat)
    requires Proper(b)
    ensures pos < |Content(b)| ==>
            pos + |piece| <= |Content(b)| && piece == Content(b)[pos..pos + |piece|] && |piece| > 0
    ensures pos >= |Content(b)| ==> piece == [] && pos' == 0
    ensures pos < |Content(b)| ==> pos' == if pos + |piece| == |Content(b)| then 0 else pos + |piece|
  {
    match b {
      case Leaf(bytes) =>
        pos' := 0;
        piece := if pos < |bytes| then bytes[pos..] else [];
      case Chunked(chunks) =>
        var offset: nat, ndx := pos, 0;
        while offset >= |chunks[ndx]|
          invariant 0 <= ndx < |chunks|
          invariant pos == |Joined(chunks[..ndx])| + offset
          decreases |chunks| - ndx
        {
          Upto(chunks, ndx);
          if ndx + 1 >= |chunks| {
            assert chunks[..ndx + 1] == chunks;
            return [], 0;
          }
          offset := offset - |chunks[ndx]|;
          ndx := ndx + 1;
        }
        Upto(chunks, ndx);
        piece := chunks[ndx][offset..];
        JoinedFirst(chunks, ndx + 1);
        assert chunks[..ndx + 1] == chunks ==> ndx + 1 == |chunks|;
        LaterChunks(chunks, ndx + 1);
        pos' := if ndx + 1 >= |chunks| then 0 else pos + |piece|;
        assert Joined(chunks[..ndx + 1])[pos..] == piece;
    }
  }

  lemma Upto(chunks: seq<seq<Byte>>, n: nat)
    requires n < |chunks|
    ensures Joined(chunks[..n + 1]) == Joined(chunks[..n]) + chunks[n]
  {
    assert chunks[..n + 1][..n] == chunks[..n];
  }

  lemma LaterChunks(chunks: seq<seq<Byte>>, n: nat)
    requires Full(chunks) && n <= |chunks|
    ensures Joined(chunks[n..]) == [] <==> n == |chunks|
  {
    if n < |chunks| {
      var rest := chunks[n..];
      assert rest[|rest| - 1] == chunks[|chunks| - 1];
    }
  }

  /** Reading piece by piece until the position is 0 again gives the whole content. */
  method ReadAll(b: Blob) returns (bytes: seq<Byte>)
    requires Proper(b)
    ensures bytes == Content(b)
  {
    var piece, pos := GetAt(b, 0);
    bytes := piece;
    while pos != 0
      invariant pos == 0 ==> bytes == Content(b)
      invariant pos != 0 ==> pos < |Content(b)| && bytes == Content(b)[..pos]
      decreases if pos == 0 then 0 else |Content(b)| - pos
    {
      ghost var at := pos;
      piece, pos := GetAt(b, pos);
      assert Content(b)[..at] + Content(b)[at..at + |piece|] == Content(b)[..at + |piece|];
      bytes := bytes + piece;
    }
  }

  /** Data of any size added without a terminator is read back. */
  method AddAndRead(data: seq<Byte>) returns (b: Blob, bytes: seq<Byte>)
    requires |data| + 1 < WORD64
    ensures Proper(b) && (b.Chunked? <==> |data| > MAX_BINARY_SIZE)
    ensures Content(b) == data && bytes == data
  {
    var blob := new ArrayBlob();
    var root := blob.Replace(0, 0, data, false);
    b := if root.Some? then Chunked(root.value) else Leaf(blob.data[..blob.size]);
    assert [] + data + [] + [] == data && [] + data == data;
    bytes := ReadAll(b);
  }

  /** There is only one way to split bytes into chunks that are full but the last. */
  lemma {:induction false} ChunksUnique(c: seq<seq<Byte>>, c': seq<seq<Byte>>)
    requires Full(c) && Full(c') && Joined(c) == Joined(c')
    ensures c == c'
    decreases |c|
  {
    FirstChunk(c);
    FirstChunk(c');
    if |c| > 1 && |c'| > 1 {
      assert c[0] == Joined(c)[..MAX_BINARY_SIZE] == c'[0];
      assert Joined(c[1..]) == Joined(c)[MAX_BINARY_SIZE..] == Joined(c'[1..]);
      ChunksUnique(c[1..], c'[1..]);
    }
  }

  lemma FirstChunk(c: seq<seq<Byte>>)
    requires Full(c)
    ensures Joined(c) == c[0] + Joined(c[1..])
    ensures |c| == 1 ==> Joined(c) == c[0]
    ensures |c| > 1 ==> |c[0]| == MAX_BINARY_SIZE && Full(c[1..]) && Joined(c[1..]) != []
  {
    JoinedFirst(c, 1);
    assert Joined(c[..1]) == c[0] by { assert c[..1][..0] == []; }
    LaterChunks(c, 1);
  }
}
