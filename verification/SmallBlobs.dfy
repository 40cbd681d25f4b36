/** Byte strings one after the other in a blob, with the offset of the end of each, and null flags. */
module SmallBlobs {
  import opened Options
  import opened DirectAccess
  import opened StringData
  import opened Blob

  // ----- offsets -----

  lemma {:induction false} JoinedAppend(a: seq<seq<Byte>>, b: seq<seq<Byte>>)
    ensures Joined(a + b) == Joined(a) + Joined(b)
  {
    JoinedFirst(a + b, |a|);
    assert (a + b)[..|a|] == a && (a + b)[|a|..] == b;
  }

  lemma JoinedOne(x: seq<Byte>)
    ensures Joined([x]) == x
  {
    assert [x][..0] == [];
  }

  /** Where piece `i` begins. */
  function Begin(offsets: seq<int>, i: nat): (r: int)
    requires i <= |offsets|
  {
    if i == 0 then 0 else offsets[i - 1]
  }

  /** Every offset is the sum of the lengths up to there. */
  ghost predicate EndsOf(offsets: seq<int>, pieces: seq<seq<Byte>>) {
    && |offsets| == |pieces|
    && forall i :: 0 <= i < |pieces| ==> offsets[i] == Begin(offsets, i) + |pieces[i]|
  }

  lemma {:induction false} BeginIs(offsets: seq<int>, pieces: seq<seq<Byte>>, i: nat)
    requires EndsOf(offsets, pieces) && i <= |pieces|
    ensures Begin(offsets, i) == |Joined(pieces[..i])| <= |Joined(pieces)|
  {
    assert pieces[..0] == [] && Joined([]) == [];
    hide Joined;
    JoinedFirst(pieces, i);
    if i > 0 {
      BeginIs(offsets, pieces, i - 1);
      Upto(pieces, i - 1);
    }
  }

  /** The bytes between two offsets are the piece. */
  lemma PieceAt(offsets: seq<int>, pieces: seq<seq<Byte>>, i: nat)
    requires EndsOf(offsets, pieces) && i < |pieces|
    ensures 0 <= Begin(offsets, i) <= offsets[i] <= |Joined(pieces)|
    ensures Joined(pieces)[Begin(offsets, i)..offsets[i]] == pieces[i]
    ensures Joined(pieces)[..Begin(offsets, i)] == Joined(pieces[..i])
    ensures Joined(pieces)[offsets[i]..] == Joined(pieces[i + 1..])
  {
    BeginIs(offsets, pieces, i);
    BeginIs(offsets, pieces, i + 1);
    Upto(pieces, i);
    JoinedFirst(pieces, i + 1);
    hide Joined;
    var a, x, c := Joined(pieces[..i]), pieces[i], Joined(pieces[i + 1..]);
    assert Joined(pieces) == a + x + c;
  }

  /** The offsets with `diff` added from `begin` on. */
  ghost function Adjusted(offsets: seq<int>, begin: nat, diff: int): (r: seq<int>)
    requires begin <= |offsets|
    ensures |r| == |offsets|
  {
    seq(|offsets|, i requires 0 <= i < |offsets| => if i < begin then offsets[i] else offsets[i] + diff)
  }

  lemma Joined3(a: seq<seq<Byte>>, p: seq<Byte>, c: seq<seq<Byte>>)
    ensures Joined(a + [p] + c) == Joined(a) + p + Joined(c)
  {
    hide Joined;
    JoinedAppend(a + [p], c);
    JoinedAppend(a, [p]);
    JoinedOne(p);
  }

  lemma InsertedBytes(offsets: seq<int>, pieces: seq<seq<Byte>>, x: nat, p: seq<Byte>)
    requires EndsOf(offsets, pieces) && x <= |pieces|
    ensures 0 <= Begin(offsets, x) <= |Joined(pieces)|
    ensures Joined(pieces[..x] + [p] + pieces[x..]) ==
            Joined(pieces)[..Begin(offsets, x)] + p + Joined(pieces)[Begin(offsets, x)..]
  {
    hide Joined, EndsOf;
    BeginIs(offsets, pieces, x);
    JoinedFirst(pieces, x);
    Joined3(pieces[..x], p, pieces[x..]);
  }

  lemma InsertedEnds(offsets: seq<int>, pieces: seq<seq<Byte>>, x: nat, p: seq<Byte>)
    requires EndsOf(offsets, pieces) && x <= |pieces|
    ensures EndsOf(Adjusted(offsets[..x] + [Begin(offsets, x) + |p|] + offsets[x..], x + 1, |p|),
                   pieces[..x] + [p] + pieces[x..])
  {
    var t, q := offsets[..x] + [Begin(offsets, x) + |p|] + offsets[x..], pieces[..x] + [p] + pieces[x..];
    var r := Adjusted(t, x + 1, |p|);
    forall i | 0 <= i < |q| ensures r[i] == Begin(r, i) + |q[i]| {
      if i > x {
        assert offsets[i - 1] == Begin(offsets, i - 1) + |pieces[i - 1]|;
        assert q[i] == pieces[i - 1];
      } else if i < x {
        assert q[i] == pieces[i];
      }
    }
  }

  lemma ReplacedBytes(offsets: seq<int>, pieces: seq<seq<Byte>>, x: nat, p: seq<Byte>)
    requires EndsOf(offsets, pieces) && x < |pieces|
    ensures 0 <= Begin(offsets, x) <= offsets[x] <= |Joined(pieces)|
    ensures Joined(pieces[x := p]) == Joined(pieces)[..Begin(offsets, x)] + p + Joined(pieces)[offsets[x]..]
  {
    hide Joined, EndsOf;
    PieceAt(offsets, pieces, x);
    Joined3(pieces[..x], p, pieces[x + 1..]);
    assert pieces[..x] + [p] + pieces[x + 1..] == pieces[x := p];
  }

  lemma ReplacedEnds(offsets: seq<int>, pieces: seq<seq<Byte>>, x: nat, p: seq<Byte>)
    requires EndsOf(offsets, pieces) && x < |pieces|
    ensures EndsOf(Adjusted(offsets, x, Begin(offsets, x) + |p| - offsets[x]), pieces[x := p])
  {
    var r := Adjusted(offsets, x, Begin(offsets, x) + |p| - offsets[x]);
    forall i | 0 <= i < |pieces| ensures r[i] == Begin(r, i) + |pieces[x := p][i]| {
      assert offsets[i] == Begin(offsets, i) + |pieces[i]|;
    }
  }

  lemma RemovedBytes(offsets: seq<int>, pieces: seq<seq<Byte>>, x: nat)
    requires EndsOf(offsets, pieces) && x < |pieces|
    ensures 0 <= Begin(offsets, x) <= offsets[x] <= |Joined(pieces)|
    ensures Joined(pieces[..x] + pieces[x + 1..]) == Joined(pieces)[..Begin(offsets, x)] + Joined(pieces)[offsets[x]..]
  {
    hide Joined, EndsOf;
    PieceAt(offsets, pieces, x);
    JoinedAppend(pieces[..x], pieces[x + 1..]);
  }

  lemma RemovedEnds(offsets: seq<int>, pieces: seq<seq<Byte>>, x: nat)
    requires EndsOf(offsets, pieces) && x < |pieces|
    ensures EndsOf(Adjusted(offsets[..x] + offsets[x + 1..], x, Begin(offsets, x) - offsets[x]),
            pieces[..x] + pieces[x + 1..])
  {
    var t, q := offsets[..x] + offsets[x + 1..], pieces[..x] + pieces[x + 1..];
    var r := Adjusted(t, x, Begin(offsets, x) - offsets[x]);
    forall i | 0 <= i < |q| ensures r[i] == Begin(r, i) + |q[i]| {
      if i >= x {
        assert offsets[i + 1] == Begin(offsets, i + 1) + |pieces[i + 1]|;
        assert q[i] == pieces[i + 1];
      } else {
        assert q[i] == pieces[i];
      }
    }
  }

  // ----- the array -----

  /** What is stored for a value: its bytes, with a zero byte after them if asked for. */
  function Stored(v: Str, zeroTerm: bool): (r: seq<Byte>) {
    (if v.Some? then v.value else []) + Terminator(zeroTerm)
  }

  ghost function Flagged(pieces: seq<seq<Byte>>, nulls: seq<bool>): (r: seq<Str>)
    requires |nulls| == |pieces|
    ensures |r| == |pieces|
  {
    seq(|pieces|, i requires 0 <= i < |pieces| => if nulls[i] then None else Some(pieces[i]))
  }

  /** A value is read back as its bytes, with a terminator if it was stored with one, or as null. */
  lemma ReadBack(pieces: seq<seq<Byte>>, nulls: seq<bool>, x: nat, v: Str, zeroTerm: bool)
    requires |nulls| == |pieces| && x < |pieces| && pieces[x] == Stored(v, zeroTerm) && nulls[x] == v.None?
    ensures !zeroTerm ==> Flagged(pieces, nulls)[x] == v
    ensures zeroTerm ==> Flagged(pieces, nulls)[x] == if v.Some? then Some(v.value + [0]) else None
  {
    assert v.Some? && !zeroTerm ==> v.value + Terminator(zeroTerm) == v.value;
  }

  class ArraySmallBlobs {
    var offsets: seq<int>
    var blob: seq<Byte>
    var nulls: seq<bool>
    /** The stored bytes of every element. */
    ghost var pieces: seq<seq<Byte>>

    ghost predicate Valid()
      reads this
    {
      blob == Joined(pieces) && EndsOf(offsets, pieces) && |nulls| == |pieces| && |blob| <= MAX_BINARY_SIZE
    }

    /** The offsets follow the elements, and the blob holds all their bytes, or too few. */
    ghost predicate Steady()
      reads this
    {
      && EndsOf(offsets, pieces) && |nulls| == |pieces| && |blob| <= MAX_BINARY_SIZE
      && (blob == Joined(pieces) || |blob| < |Joined(pieces)|)
    }

    /** The elements, null where flagged. */
    ghost function Contents(): (r: seq<Str>)
      requires Valid()
      reads this
      ensures |r| == |pieces|
    {
      Flagged(pieces, nulls)
    }

    constructor ()
      ensures Valid() && pieces == [] && blob == []
    {
      offsets, blob, nulls, pieces := [], [], [], [];
    }

    method Get(ndx: nat) returns (v: Str)
      requires Valid() && ndx < |offsets|
      ensures v == Contents()[ndx]
    {
      if nulls[ndx] {
        return None;
      }
      PieceAt(offsets, pieces, ndx);
      var begin := if ndx > 0 then offsets[ndx - 1] else 0;
      v := Some(blob[begin..offsets[ndx]]);
    }

    /** Adds `diff` to the offsets from `begin` on, one by one. */
    method Adjust(begin: nat, diff: int)
      requires begin <= |offsets|
      modifies this`offsets
      ensures offsets == Adjusted(old(offsets), begin, diff)
    {
      var i := begin;
      while i != |offsets|
        invariant begin <= i <= |offsets| == |old(offsets)|
        invariant forall j :: 0 <= j < |offsets| ==>
                    offsets[j] == if begin <= j < i then old(offsets)[j] + diff else old(offsets)[j]
      {
        offsets := offsets[i := offsets[i] + diff];
        i := i + 1;
      }
    }

    /** Replaces bytes of the blob. When the result does not fit one node, the source makes a new root
        with the blob as its only chunk. Where bytes are added at the end, it fills that chunk through
        another accessor, which may move it, adds chunks for the rest, and drops the new root's ref;
        elsewhere an assertion fails. Either way this accessor sees the blob as it was. */
    method ReplaceBytes(begin: nat, end: nat, p: seq<Byte>)
      requires begin <= end <= |blob|
      modifies this`blob
      ensures blob == if |old(blob)| - (end - begin) + |p| > MAX_BINARY_SIZE then old(blob)
                      else old(blob)[..begin] + p + old(blob)[end..]
      ensures |old(blob)| - (end - begin) + |p| <= MAX_BINARY_SIZE ==> |blob| == |old(blob)| - (end - begin) + |p|
    {
      if |blob| - (end - begin) + |p| <= MAX_BINARY_SIZE {
        blob := blob[..begin] + p + blob[end..];
      }
    }

    method AddBytes(p: seq<Byte>)
      modifies this`blob
      ensures blob == if |old(blob)| + |p| > MAX_BINARY_SIZE then old(blob) else old(blob) + p
    {
      AtEnd(blob, p);
      ReplaceBytes(|blob|, |blob|, p);
    }

    /** The offsets and flags follow; the elements survive exactly when the bytes fit one node. The
        source asserts that the place is in the blob, and goes no further where bytes are missing. */
    method Insert(ndx: nat, v: Str, zeroTerm: bool)
      requires Steady() && ndx <= |offsets|
      modifies this
      ensures Steady()
      ensures Valid() <==> old(Valid()) && |old(blob)| + |Stored(v, zeroTerm)| <= MAX_BINARY_SIZE
      ensures old(Valid()) ==> pieces == old(pieces)[..ndx] + [Stored(v, zeroTerm)] + old(pieces)[ndx..]
      ensures old(Valid()) ==> nulls == old(nulls)[..ndx] + [v.None?] + old(nulls)[ndx..]
    {
      hide Joined, EndsOf, Adjusted;
      var p := Stored(v, zeroTerm);
      SameLength(offsets, pieces);
      InsertedBytes(offsets, pieces, ndx, p);
      InsertedEnds(offsets, pieces, ndx, p);
      var pos := if ndx > 0 then offsets[ndx - 1] else 0;
      if pos > |blob| {
        return;
      }
      ReplaceBytes(pos, pos, p);
      offsets := offsets[..ndx] + [pos + |p|] + offsets[ndx..];
      Adjust(ndx + 1, |p|);
      nulls := nulls[..ndx] + [v.None?] + nulls[ndx..];
      pieces := pieces[..ndx] + [p] + pieces[ndx..];
    }

    method Add(v: Str, zeroTerm: bool)
      requires Steady()
      modifies this
      ensures Steady()
      ensures Valid() <==> old(Valid()) && |old(blob)| + |Stored(v, zeroTerm)| <= MAX_BINARY_SIZE
      ensures pieces == old(pieces) + [Stored(v, zeroTerm)] && nulls == old(nulls) + [v.None?]
      ensures Valid() ==> |blob| == |old(blob)| + |Stored(v, zeroTerm)|
    {
      hide Joined, EndsOf, Adjusted;
      var p := Stored(v, zeroTerm);
      AddedEnds(offsets, pieces, p);
      AddedBytes(pieces, p);
      AddBytes(p);
      var end := |p| + if offsets != [] then offsets[|offsets| - 1] else 0;
      offsets := offsets + [end];
      nulls := nulls + [v.None?];
      pieces := pieces + [p];
    }

    method Set(ndx: nat, v: Str, zeroTerm: bool)
      requires Steady() && ndx < |offsets|
      modifies this
      ensures Steady()
      ensures Valid() <==>
              old(Valid()) && |old(blob)| - |old(pieces)[ndx]| + |Stored(v, zeroTerm)| <= MAX_BINARY_SIZE
      ensures old(Valid()) ==> pieces == old(pieces)[ndx := Stored(v, zeroTerm)] && nulls == old(nulls)[ndx := v.None?]
    {
      hide Joined, EndsOf, Adjusted;
      var p := Stored(v, zeroTerm);
      SameLength(offsets, pieces);
      ReplacedBytes(offsets, pieces, ndx, p);
      ReplacedEnds(offsets, pieces, ndx, p);
      var start := if ndx > 0 then offsets[ndx - 1] else 0;
      var end := offsets[ndx];
      PieceAt(offsets, pieces, ndx);
      if end > |blob| {
        return;
      }
      ReplaceBytes(start, end, p);
      Adjust(ndx, start + |p| - end);
      nulls := nulls[ndx := v.None?];
      pieces := pieces[ndx := p];
    }

    method Erase(ndx: nat)
      requires Valid() && ndx < |offsets|
      modifies this
      ensures Valid() && pieces == old(pieces)[..ndx] + old(pieces)[ndx + 1..]
      ensures nulls == old(nulls)[..ndx] + old(nulls)[ndx + 1..]
    {
      hide Joined, EndsOf, Adjusted;
      SameLength(offsets, pieces);
      RemovedBytes(offsets, pieces, ndx);
      RemovedEnds(offsets, pieces, ndx);
      var start := if ndx > 0 then offsets[ndx - 1] else 0;
      var end := offsets[ndx];
      blob := blob[..start] + blob[end..];
      offsets := offsets[..ndx] + offsets[ndx + 1..];
      Adjust(ndx, start - end);
      nulls := nulls[..ndx] + nulls[ndx + 1..];
      pieces := pieces[..ndx] + pieces[ndx + 1..];
    }
  }

  lemma SameLength(offsets: seq<int>, pieces: seq<seq<Byte>>)
    requires EndsOf(offsets, pieces)
    ensures |offsets| == |pieces|
  {
  }

  lemma AddedBytes(pieces: seq<seq<Byte>>, p: seq<Byte>)
    ensures Joined(pieces + [p]) == Joined(pieces) + p
  {
    hide Joined;
    JoinedAppend(pieces, [p]);
    JoinedOne(p);
  }

  lemma AtEnd(b: seq<Byte>, p: seq<Byte>)
    ensures b[..|b|] + p + b[|b|..] == b + p
  {
  }

  lemma AddedEnds(offsets: seq<int>, pieces: seq<seq<Byte>>, p: seq<Byte>)
    requires EndsOf(offsets, pieces)
    ensures EndsOf(offsets + [Begin(offsets, |offsets|) + |p|], pieces + [p])
  {
  }

  /** One byte too many: an element that fills a node, and an element of one byte. */
  method LosesBytes(full: seq<Byte>) returns (a: ArraySmallBlobs)
    requires |full| == MAX_BINARY_SIZE
    ensures fresh(a) && !a.Valid() && a.pieces == [full, [0]] && a.nulls == [false, false]
  {
    hide Joined, EndsOf, Adjusted;
    a := new ArraySmallBlobs();
    a.Add(Some(full), false);
    assert Stored(Some(full), false) == full && Stored(Some([0]), false) == [0];
    a.Add(Some([0]), false);
  }
}
