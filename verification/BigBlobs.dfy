/** Byte strings in blobs of their own; an element without a blob is null. */
module BigBlobs {
  import opened Options
  import opened DirectAccess
  import opened StringData
  import opened Blob

  /** What is read of an element: only a blob that is not split can be read in one piece. */
  function Read(b: Option<Blob>): (v: Str) {
    if b.Some? && b.value.Leaf? then Some(b.value.bytes) else None
  }

  ghost function Reads(blobs: seq<Option<Blob>>): (r: seq<Str>)
    ensures |r| == |blobs|
  {
    seq(|blobs|, i requires 0 <= i < |blobs| => Read(blobs[i]))
  }

  /** Whether a value is small enough for one node. */
  predicate Whole(v: Str, zeroTerm: bool) {
    v.Some? ==> |v.value| + (if zeroTerm then 1 else 0) <= MAX_BINARY_SIZE
  }

  function Kept(v: Str, zeroTerm: bool): (r: Str) {
    if v.Some? then Some(v.value + Terminator(zeroTerm)) else None
  }

  /** A stored value, and when it is read back: if and only if it fits one node. */
  ghost predicate StoredAs(b: Option<Blob>, v: Str, zeroTerm: bool) {
    && (b.None? <==> v.None?)
    && (b.Some? ==> Proper(b.value) && (b.value.Leaf? <==> Whole(v, zeroTerm)))
    && (b.Some? && b.value.Leaf? ==> b.value.bytes == v.value + Terminator(zeroTerm))
    && (b.Some? && b.value.Chunked? ==> Content(b.value) == v.value)
  }

  lemma ReadBackIff(b: Option<Blob>, v: Str, zeroTerm: bool)
    requires StoredAs(b, v, zeroTerm)
    ensures Read(b) == Kept(v, zeroTerm) <==> Whole(v, zeroTerm)
  {
  }

  class ArrayBigBlobs {
    var blobs: seq<Option<Blob>>

    ghost predicate Valid()
      reads this
    {
      forall i :: 0 <= i < |blobs| && blobs[i].Some? ==> Proper(blobs[i].value)
    }

    constructor ()
      ensures Valid() && blobs == []
    {
      blobs := [];
    }

    method Get(ndx: nat) returns (v: Str)
      requires ndx < |blobs|
      ensures v == Reads(blobs)[ndx]
    {
      v := Read(blobs[ndx]);
    }

    /** The blob made for a value. */
    static method Make(v: Str, zeroTerm: bool) returns (b: Option<Blob>)
      requires v.Some? ==> |v.value| + 1 < WORD64
      ensures StoredAs(b, v, zeroTerm)
    {
      if v.None? {
        return None;
      }
      var blob := new ArrayBlob();
      var root := blob.Replace(0, 0, v.value, zeroTerm);
      b := Some(if root.Some? then Chunked(root.value) else Leaf(blob.data[..blob.size]));
      assert [] + v.value + Terminator(zeroTerm) + [] == v.value + Terminator(zeroTerm) && [] + v.value == v.value;
    }

    method Insert(ndx: nat, v: Str, zeroTerm: bool)
      requires Valid() && ndx <= |blobs| && (v.Some? ==> |v.value| + 1 < WORD64)
      modifies this
      ensures Valid() && |blobs| == |old(blobs)| + 1 && StoredAs(blobs[ndx], v, zeroTerm)
      ensures blobs == old(blobs)[..ndx] + [blobs[ndx]] + old(blobs)[ndx..]
    {
      var b := Make(v, zeroTerm);
      blobs := blobs[..ndx] + [b] + blobs[ndx..];
    }

    method Add(v: Str, zeroTerm: bool)
      requires Valid() && (v.Some? ==> |v.value| + 1 < WORD64)
      modifies this
      ensures Valid() && |blobs| == |old(blobs)| + 1 && StoredAs(blobs[|old(blobs)|], v, zeroTerm)
      ensures blobs == old(blobs) + [blobs[|old(blobs)|]]
    {
      var b := Make(v, zeroTerm);
      blobs := blobs + [b];
    }

    /** Replacing an element reuses its blob when it has one. */
    method Set(ndx: nat, v: Str, zeroTerm: bool)
      requires Valid() && ndx < |blobs| && (v.Some? ==> |v.value| + 1 < WORD64)
      modifies this
      ensures Valid() && |blobs| == |old(blobs)| && StoredAs(blobs[ndx], v, zeroTerm)
      ensures blobs == old(blobs)[ndx := blobs[ndx]]
    {
      var b := blobs[ndx];
      if b.None? && v.None? {
        return;
      } else if b.None? {
        var made := Make(v, zeroTerm);
        blobs := blobs[ndx := made];
      } else if v.Some? {
        var made: Blob;
        if b.value.Chunked? {
          NotEmpty(b.value.chunks);
          var replaced := BlobReplace(b.value.chunks, 0, |Joined(b.value.chunks)|, v.value, zeroTerm);
          made := replaced.value;
        } else {
          var bytes := b.value.bytes;
          var blob := new ArrayBlob.Of(bytes);
          var root := blob.Replace(0, blob.size, v.value, zeroTerm);
          made := if root.Some? then Chunked(root.value) else Leaf(blob.data[..blob.size]);
          assert bytes[..0] + v.value + Terminator(zeroTerm) + bytes[|bytes|..] == v.value + Terminator(zeroTerm);
          assert bytes[..0] + v.value == v.value;
        }
        blobs := blobs[ndx := Some(made)];
      } else {
        blobs := blobs[ndx := None];
      }
    }

    method Erase(ndx: nat)
      requires Valid() && ndx < |blobs|
      modifies this
      ensures Valid() && blobs == old(blobs)[..ndx] + old(blobs)[ndx + 1..]
    {
      blobs := blobs[..ndx] + blobs[ndx + 1..];
    }
  }

  lemma NotEmpty(chunks: seq<seq<Byte>>)
    requires Full(chunks)
    ensures Joined(chunks) != []
  {
    LaterChunks(chunks, 0);
    assert chunks[0..] == chunks;
  }
}
