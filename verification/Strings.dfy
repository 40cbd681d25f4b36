/** A leaf of optional strings that changes its representation as longer strings come in. */
module Strings {
  import opened Options
  import opened DirectAccess
  import opened StringData
  import opened Blob
  import S = ShortStrings
  import M = SmallBlobs
  import B = BigBlobs

  const SMALL_MAX := 15
  const MEDIUM_MAX := 63

  /** A string leaf is kept in one of four ways. */
  datatype Kind = Small | Medium | Big | Enum

  /** The strings that can be stored and read back: with their terminator they fit one blob. */
  predicate Storable(v: Str) {
    Length(v) + 1 <= MAX_BINARY_SIZE
  }

  // ----- reading strings stored with a terminator -----

  ghost predicate Terminated(p: seq<Byte>) {
    |p| > 0 && p[|p| - 1] == 0
  }

  function Stripped(v: Str): (r: Str)
    requires v.Some? ==> |v.value| > 0
  {
    if v.Some? then Some(v.value[..|v.value| - 1]) else None
  }

  /** Pieces of a medium leaf: terminated, and short. */
  ghost predicate MediumOk(pieces: seq<seq<Byte>>) {
    forall i :: 0 <= i < |pieces| ==> Terminated(pieces[i]) && |pieces[i]| <= MEDIUM_MAX + 1
  }

  ghost function MediumStrings(pieces: seq<seq<Byte>>, nulls: seq<bool>): (r: seq<Str>)
    requires |nulls| == |pieces| && MediumOk(pieces)
    ensures |r| == |pieces|
  {
    seq(|pieces|, i requires 0 <= i < |pieces| => if nulls[i] then None else Some(pieces[i][..|pieces[i]| - 1]))
  }

  /** The bytes that strings take up in a medium leaf, with their terminators. */
  function Total(c: seq<Str>): (n: nat) {
    if c == [] then 0 else Total(c[..|c| - 1]) + Length(c[|c| - 1]) + 1
  }

  lemma TotalNext(c: seq<Str>, i: nat)
    requires i < |c|
    ensures Total(c[..i + 1]) == Total(c[..i]) + Length(c[i]) + 1
  {
    assert c[..i + 1][..i] == c[..i];
  }

  lemma {:induction false} TotalSame(v: Str, n: nat)
    ensures Total(seq(n, _ => v)) == n * (Length(v) + 1)
  {
    var c := seq(n, _ => v);
    if n > 0 {
      TotalSame(v, n - 1);
      assert c[..n - 1] == seq(n - 1, _ => v);
    }
  }

  /** 2^20 strings that each fit a small leaf do not fit a medium leaf together, and neither do 2^18
      strings that each fit a medium leaf. */
  lemma TooManyStrings(v: Str, w: Str)
    requires Length(v) == SMALL_MAX && Length(w) == MEDIUM_MAX
    ensures 0x10_0000 <= S.P.MAX_ARRAY_SIZE
    ensures Total(seq(0x10_0000, _ => v)) > MAX_BINARY_SIZE && Total(seq(0x4_0000, _ => w)) > MAX_BINARY_SIZE
  {
    TotalSame(v, 0x10_0000);
    TotalSame(w, 0x4_0000);
  }

  /** Blobs of a big leaf: in one piece, and terminated. */
  ghost predicate BigOk(blobs: seq<Option<Blob>>) {
    forall i :: 0 <= i < |blobs| && blobs[i].Some? ==> BigBlobOk(blobs[i].value)
  }

  ghost predicate BigBlobOk(b: Blob) {
    Proper(b) && b.Leaf? && Terminated(b.bytes)
  }

  ghost function BigStrings(blobs: seq<Option<Blob>>): (r: seq<Str>)
    requires BigOk(blobs)
    ensures |r| == |blobs|
  {
    seq(|blobs|, i requires 0 <= i < |blobs| => Stripped(B.Read(blobs[i])))
  }

  lemma StoredString(v: Str)
    ensures Terminated(M.Stored(v, true)) && |M.Stored(v, true)| == Length(v) + 1
    ensures v.Some? ==> M.Stored(v, true)[..|M.Stored(v, true)| - 1] == v.value
  {
    if v.Some? {
      assert (v.value + [0])[..|v.value|] == v.value;
    }
  }

  lemma StoredBlob(b: Option<Blob>, v: Str)
    requires B.StoredAs(b, v, true)
    ensures (b.Some? ==> BigBlobOk(b.value)) <==> Storable(v)
    ensures Storable(v) ==> Stripped(B.Read(b)) == v
  {
    if v.Some? {
      assert (v.value + [0])[..|v.value|] == v.value;
    }
  }

  // ----- the leaf -----

  class ArrayString {
    const nullable: bool
    var kind: Kind
    var small: S.ArrayStringShort
    var medium: M.ArraySmallBlobs
    var big: B.ArrayBigBlobs
    /** An enumerated leaf: an index into the distinct strings for each element. */
    var indices: seq<nat>
    var keys: seq<Str>

    ghost function Repr(): (r: set<object>)
      reads this, small
    {
      {this, small, small.data, medium, big}
    }

    ghost predicate Valid()
      reads this, small, small.data, medium, big
    {
      && small.nullable == nullable
      && match kind
         case Small => small.Valid()
         case Medium => medium.Valid() && MediumOk(medium.pieces)
         case Big => big.Valid() && BigOk(big.blobs)
         case Enum => forall i :: 0 <= i < |indices| ==> indices[i] < |keys|
    }

    ghost function Contents(): (r: seq<Str>)
      requires Valid()
      reads this, small, small.data, medium, big
    {
      match kind
      case Small => small.Contents()
      case Medium => MediumStrings(medium.pieces, medium.nulls)
      case Big => BigStrings(big.blobs)
      case Enum => Looked(indices, keys)
    }

    /** The bytes that the strings take up, or would take up, in a medium leaf. */
    ghost function Used(): (n: nat)
      requires Valid()
      reads this, small, small.data, medium, big
    {
      if kind == Medium then |medium.blob| else Total(Contents())
    }

    ghost function UsedBy(ndx: nat): (n: nat)
      requires Valid() && ndx < |Contents()|
      reads this, small, small.data, medium, big
    {
      if kind == Medium then |medium.pieces[ndx]| else Length(Contents()[ndx]) + 1
    }

    /** Whether a string of `n` bytes is stored in a medium leaf. */
    ghost predicate GoesMedium(n: nat)
      reads this
    {
      n <= MEDIUM_MAX && (kind == Medium || (kind == Small && n > SMALL_MAX))
    }

    /** A medium leaf that may have lost bytes. */
    ghost predicate MediumSteady()
      reads this, small, medium
    {
      small.nullable == nullable && medium.Steady() && MediumOk(medium.pieces)
    }

    /** How a value is seen: only a small leaf without nulls shows null as the empty string. */
    function Seen(v: Str): (r: Str)
      reads this
    {
      Shown(nullable || kind != Small, v)
    }

    constructor (nullable: bool)
      ensures Valid() && Contents() == [] && kind == Small && this.nullable == nullable && fresh(Repr())
    {
      this.nullable := nullable;
      kind := Small;
      small := new S.ArrayStringShort(nullable);
      medium := new M.ArraySmallBlobs();
      big := new B.ArrayBigBlobs();
      indices, keys := [], [];
    }

    /** Attaches to an enumerated leaf. */
    constructor Enumerated(nullable: bool, indices: seq<nat>, keys: seq<Str>)
      requires forall i :: 0 <= i < |indices| ==> indices[i] < |keys|
      ensures Valid() && kind == Enum && this.keys == keys && fresh(Repr()) && |Contents()| == |indices|
      ensures forall i :: 0 <= i < |indices| ==> Contents()[i] == keys[indices[i]]
    {
      this.nullable := nullable;
      kind := Enum;
      small := new S.ArrayStringShort(nullable);
      medium := new M.ArraySmallBlobs();
      big := new B.ArrayBigBlobs();
      this.indices, this.keys := indices, keys;
    }

    method Size() returns (n: nat)
      requires Valid()
      ensures n == |Contents()|
    {
      if kind == Small {
        n := small.size;
      } else if kind == Medium {
        SameSize();
        n := |medium.offsets|;
      } else if kind == Big {
        n := |big.blobs|;
      } else {
        n := |indices|;
      }
    }

    lemma SameSize()
      requires Valid() && kind == Medium
      ensures |medium.offsets| == |medium.pieces|
    {
    }

    method Get(ndx: nat) returns (v: Str)
      requires Valid() && ndx < |Contents()|
      ensures v == Contents()[ndx]
    {
      if kind == Small {
        v := small.Get(ndx);
      } else if kind == Medium {
        SameSize();
        v := medium.Get(ndx);
        v := Stripped(v);
      } else if kind == Big {
        v := big.Get(ndx);
        v := Stripped(v);
      } else {
        v := keys[indices[ndx]];
      }
    }

    /** Copies all strings to a new medium leaf, which holds them exactly when they fit one node. */
    method ToMedium() returns (m: M.ArraySmallBlobs)
      requires Valid() && kind == Small
      requires forall i :: 0 <= i < |Contents()| ==> Length(Contents()[i]) <= MEDIUM_MAX
      ensures fresh(m) && m.Steady() && (m.Valid() <==> Total(Contents()) <= MAX_BINARY_SIZE)
      ensures MediumOk(m.pieces) && MediumStrings(m.pieces, m.nulls) == Contents()
      ensures m.Valid() ==> |m.blob| == Total(Contents())
      ensures forall i :: 0 <= i < |Contents()| ==> |m.pieces[i]| == Length(Contents()[i]) + 1
    {
      hide MediumOk, MediumStrings, M.Stored, Joined, M.EndsOf, BigOk, BigStrings, Looked, Total, S.Good, S.Values;
      ghost var all := Contents();
      m := new M.ArraySmallBlobs();
      NoPieces();
      assert all[..0] == [];
      var i, n := 0, small.size;
      while i < n
        invariant 0 <= i <= n == |all| && fresh(m) && m.Steady() && MediumOk(m.pieces)
        invariant Valid() && Contents() == all
        invariant MediumStrings(m.pieces, m.nulls) == all[..i]
        invariant m.Valid() <==> Total(all[..i]) <= MAX_BINARY_SIZE
        invariant m.Valid() ==> |m.blob| == Total(all[..i])
        invariant forall j :: 0 <= j < i ==> |m.pieces[j]| == Length(all[j]) + 1
      {
        var v := small.Get(i);
        StoredString(v);
        TotalNext(all, i);
        MediumAdded(m.pieces, m.nulls, v);
        m.Add(v, true);
        i := i + 1;
      }
      assert all[..i] == all;
    }

    /** Copies all strings to a new big leaf. */
    method ToBig() returns (b: B.ArrayBigBlobs)
      requires Valid() && (kind == Small || kind == Medium) && forall i :: 0 <= i < |Contents()| ==>
               Storable(Contents()[i])
      ensures fresh(b) && b.Valid() && BigOk(b.blobs) && BigStrings(b.blobs) == Contents()
    {
      hide MediumOk, MediumStrings, BigOk, BigStrings, Looked, B.StoredAs, S.Good, S.Values, M.EndsOf, Joined;
      ghost var all := Contents();
      b := new B.ArrayBigBlobs();
      NoBlobs();
      var n := Size();
      var i := 0;
      while i < n
        invariant 0 <= i <= n == |all| && fresh(b) && b.Valid() && BigOk(b.blobs)
        invariant Valid() && Contents() == all && |b.blobs| == i
        invariant BigStrings(b.blobs) == all[..i]
      {
        var v := Get(i);
        ghost var blobs := b.blobs;
        b.Add(v, true);
        BigAdded(blobs, b.blobs[i], v);
        i := i + 1;
      }
    }

    lemma ShortEnough()
      requires Valid() && (kind == Small || kind == Medium)
      ensures forall i :: 0 <= i < |Contents()| ==> Length(Contents()[i]) <= MEDIUM_MAX && Storable(Contents()[i])
    {
      if kind == Small {
        forall i | 0 <= i < |Contents()| ensures Length(Contents()[i]) < S.MAX_WIDTH {
          S.ShortValue(small.data[..], small.width, small.size, i, nullable);
        }
      }
    }

    /** Changes the representation when a string of `n` bytes needs it. No string changes, unless the
        strings of a small leaf do not fit the medium one. */
    method UpgradeLeaf(n: nat)
      requires Valid()
      modifies this`kind, this`medium, this`big
      ensures Valid() <==> old(GoesMedium(n) ==> Used() <= MAX_BINARY_SIZE)
      ensures Valid() ==> Contents() == old(Contents())
      ensures fresh(Repr() - old(Repr()))
      ensures kind == Medium <==> old(GoesMedium(n))
      ensures kind == Medium ==> MediumSteady() && |medium.pieces| == |old(Contents())|
      ensures kind == Small <==> old(kind) == Small && n <= SMALL_MAX
      ensures kind == Medium && Valid() ==>
                Used() == old(Used()) && forall i :: 0 <= i < |Contents()| ==> UsedBy(i) == old(UsedBy(i))
      ensures kind == Small ==> n <= SMALL_MAX
      ensures kind == Medium ==> n <= MEDIUM_MAX
      ensures old(kind) == Enum <==> kind == Enum
    {
      if kind == Big || kind == Enum {
        return;
      }
      if kind == Medium {
        if n > MEDIUM_MAX {
          ShortEnough();
          big := ToBig();
          kind := Big;
        }
        return;
      }
      if n <= SMALL_MAX {
        return;
      }
      ShortEnough();
      if n <= MEDIUM_MAX {
        medium := ToMedium();
        kind := Medium;
      } else {
        big := ToBig();
        kind := Big;
      }
    }

    /** The index of a key, added at the end when it is new. */
    method KeyIndex(v: Str) returns (k: nat)
      modifies this`keys
      ensures old(keys) <= keys && k < |keys| && keys[k] == v
      ensures v in old(keys) ==> keys == old(keys)
    {
      k := 0;
      while k < |keys|
        invariant 0 <= k <= |keys| && v !in keys[..k]
      {
        if keys[k] == v {
          return;
        }
        k := k + 1;
      }
      keys := keys + [v];
    }

    method SetMedium(ndx: nat, v: Str)
      requires MediumSteady() && kind == Medium && ndx < |medium.pieces| && Length(v) <= MEDIUM_MAX
      modifies medium
      ensures Valid() <==>
              old(Valid()) && |old(medium.blob)| - |old(medium.pieces)[ndx]| + Length(v) + 1 <= MAX_BINARY_SIZE
      ensures Valid() ==> Contents() == old(Contents())[ndx := v]
    {
      hide MediumOk, MediumStrings, M.Stored, Joined, M.EndsOf;
      M.SameLength(medium.offsets, medium.pieces);
      StoredString(v);
      MediumSet(medium.pieces, medium.nulls, ndx, v);
      medium.Set(ndx, v, true);
    }

    method InsertMedium(ndx: nat, v: Str)
      requires MediumSteady() && kind == Medium && ndx <= |medium.pieces| && Length(v) <= MEDIUM_MAX
      modifies medium
      ensures Valid() <==> old(Valid()) && |old(medium.blob)| + Length(v) + 1 <= MAX_BINARY_SIZE
      ensures Valid() ==> Contents() == old(Contents())[..ndx] + [v] + old(Contents())[ndx..]
    {
      hide MediumOk, MediumStrings, M.Stored, Joined, M.EndsOf;
      M.SameLength(medium.offsets, medium.pieces);
      StoredString(v);
      MediumInserted(medium.pieces, medium.nulls, ndx, v);
      medium.Insert(ndx, v, true);
    }

    method SetBig(ndx: nat, v: Str)
      requires Valid() && kind == Big && ndx < |Contents()| && Length(v) + 1 < WORD64
      modifies big
      ensures Valid() <==> Storable(v)
      ensures Valid() ==> Contents() == old(Contents())[ndx := v]
    {
      hide BigOk, BigStrings, B.StoredAs;
      ghost var blobs := big.blobs;
      big.Set(ndx, v, true);
      BigSet(blobs, ndx, big.blobs[ndx], v);
    }

    method InsertBig(ndx: nat, v: Str)
      requires Valid() && kind == Big && ndx <= |Contents()| && Length(v) + 1 < WORD64
      modifies big
      ensures Valid() <==> Storable(v)
      ensures Valid() ==> Contents() == old(Contents())[..ndx] + [v] + old(Contents())[ndx..]
    {
      hide BigOk, BigStrings, B.StoredAs;
      ghost var blobs := big.blobs;
      big.Insert(ndx, v, true);
      BigInserted(blobs, ndx, big.blobs[ndx], v);
    }

    method SetEnum(ndx: nat, v: Str)
      requires Valid() && kind == Enum && ndx < |Contents()|
      modifies this`keys, this`indices
      ensures Valid() && Contents() == old(Contents())[ndx := v]
    {
      var k := KeyIndex(v);
      indices := indices[ndx := k];
    }

    method InsertEnum(ndx: nat, v: Str)
      requires Valid() && kind == Enum && ndx <= |Contents()|
      modifies this`keys, this`indices
      ensures Valid() && Contents() == old(Contents())[..ndx] + [v] + old(Contents())[ndx..]
    {
      hide Looked;
      ghost var was, old' := indices, keys;
      indices := indices[..ndx] + [0] + indices[ndx..];
      var k := KeyIndex(v);
      indices := indices[ndx := k];
      assert indices == was[..ndx] + [k] + was[ndx..];
      LookedInserted(was, old', keys, ndx, k);
    }

    /** The strings survive exactly when those of a medium leaf fit one node, both when they are copied
        from a small leaf and after the change, and a long one fits a node of its own. */
    method Set(ndx: nat, v: Str)
      requires Valid() && ndx < |Contents()| && Length(v) + 1 < WORD64
      modifies this`kind, this`medium, this`big, this`keys, this`indices, small, small.data, medium, big
      ensures Valid() <==>
              && (old(kind) == Enum || Storable(v))
              && old(GoesMedium(Length(v)) ==>
                   Used() <= MAX_BINARY_SIZE && Used() - UsedBy(ndx) + Length(v) + 1 <= MAX_BINARY_SIZE)
      ensures Valid() ==> Contents() == old(Contents())[ndx := Seen(v)]
      ensures fresh(Repr() - old(Repr()))
    {
      hide MediumOk, MediumStrings, BigOk, BigStrings, Looked, Total;
      UpgradeLeaf(Length(v));
      if kind == Small {
        small.Set(ndx, v);
      } else if kind == Medium {
        SetMedium(ndx, v);
      } else if kind == Big {
        SetBig(ndx, v);
      } else {
        SetEnum(ndx, v);
      }
    }

    method Insert(ndx: nat, v: Str)
      requires Valid() && ndx <= |Contents()| && Length(v) + 1 < WORD64
      requires kind == Small ==> small.size < S.P.MAX_ARRAY_SIZE
      modifies this`kind, this`medium, this`big, this`keys, this`indices, small, small.data, medium, big
      ensures Valid() <==>
              && (old(kind) == Enum || Storable(v))
              && old(GoesMedium(Length(v)) ==> Used() + Length(v) + 1 <= MAX_BINARY_SIZE)
      ensures Valid() ==> Contents() == old(Contents())[..ndx] + [Seen(v)] + old(Contents())[ndx..]
      ensures fresh(Repr() - old(Repr()))
    {
      hide MediumOk, MediumStrings, BigOk, BigStrings, Looked, Total;
      UpgradeLeaf(Length(v));
      if kind == Small {
        small.Insert(ndx, v);
      } else if kind == Medium {
        InsertMedium(ndx, v);
      } else if kind == Big {
        InsertBig(ndx, v);
      } else {
        InsertEnum(ndx, v);
      }
    }

    /** Adding asserts that a leaf without nulls is given none. */
    method Add(v: Str)
      requires Valid() && Length(v) + 1 < WORD64 && (v.None? ==> nullable)
      requires kind == Small ==> small.size < S.P.MAX_ARRAY_SIZE
      modifies this`kind, this`medium, this`big, this`keys, this`indices, small, small.data, medium, big
      ensures Valid() <==>
              && (old(kind) == Enum || Storable(v))
              && old(GoesMedium(Length(v)) ==> Used() + Length(v) + 1 <= MAX_BINARY_SIZE)
      ensures Valid() ==> Contents() == old(Contents()) + [v]
      ensures fresh(Repr() - old(Repr()))
    {
      hide Total;
      var n := Size();
      Insert(n, v);
    }

    method Erase(ndx: nat)
      requires Valid() && ndx < |Contents()|
      modifies this, small, small.data, medium, big
      ensures Valid() && Contents() == old(Contents())[..ndx] + old(Contents())[ndx + 1..] && Repr() == old(Repr())
    {
      hide MediumOk, MediumStrings, BigOk, BigStrings, Looked;
      if kind == Small {
        small.Erase(ndx);
      } else if kind == Medium {
        SameSize();
        MediumErased(medium.pieces, medium.nulls, ndx);
        medium.Erase(ndx);
      } else if kind == Big {
        BigErased(big.blobs, ndx);
        big.Erase(ndx);
      } else {
        Unlooked(indices, keys, ndx);
        indices := indices[..ndx] + indices[ndx + 1..];
      }
    }
  }

  // ----- what each change does to the strings -----

  lemma NoPieces()
    ensures MediumOk([]) && MediumStrings([], []) == [] && Total([]) == 0
  {
  }

  lemma NoBlobs()
    ensures BigOk([]) && BigStrings([]) == []
  {
  }

  lemma MediumAdded(pieces: seq<seq<Byte>>, nulls: seq<bool>, v: Str)
    requires |nulls| == |pieces| && MediumOk(pieces) && Length(v) <= MEDIUM_MAX
    ensures MediumOk(pieces + [M.Stored(v, true)])
    ensures MediumStrings(pieces + [M.Stored(v, true)], nulls + [v.None?]) == MediumStrings(pieces, nulls) + [v]
  {
    hide MediumOk, MediumStrings, M.Stored;
    var p, n := M.Stored(v, true), |pieces|;
    MediumInserted(pieces, nulls, n, v);
    assert pieces[..n] + [p] + pieces[n..] == pieces + [p];
    assert nulls[..n] + [v.None?] + nulls[n..] == nulls + [v.None?];
  }

  lemma MediumSet(pieces: seq<seq<Byte>>, nulls: seq<bool>, x: nat, v: Str)
    requires |nulls| == |pieces| && MediumOk(pieces) && x < |pieces| && Length(v) <= MEDIUM_MAX
    ensures MediumOk(pieces[x := M.Stored(v, true)])
    ensures MediumStrings(pieces[x := M.Stored(v, true)], nulls[x := v.None?]) == MediumStrings(pieces, nulls)[x := v]
  {
    StoredString(v);
    hide M.Stored;
  }

  lemma MediumInserted(pieces: seq<seq<Byte>>, nulls: seq<bool>, x: nat, v: Str)
    requires |nulls| == |pieces| && MediumOk(pieces) && x <= |pieces| && Length(v) <= MEDIUM_MAX
    ensures MediumOk(pieces[..x] + [M.Stored(v, true)] + pieces[x..])
    ensures MediumStrings(pieces[..x] + [M.Stored(v, true)] + pieces[x..], nulls[..x] + [v.None?] + nulls[x..]) ==
            MediumStrings(pieces, nulls)[..x] + [v] + MediumStrings(pieces, nulls)[x..]
  {
    StoredString(v);
    hide M.Stored;
    var q, m := pieces[..x] + [M.Stored(v, true)] + pieces[x..], nulls[..x] + [v.None?] + nulls[x..];
    var r := MediumStrings(pieces, nulls)[..x] + [v] + MediumStrings(pieces, nulls)[x..];
    forall i | 0 <= i < |q| ensures Terminated(q[i]) && |q[i]| <= MEDIUM_MAX + 1 {
      if i != x {
        assert q[i] == pieces[if i < x then i else i - 1];
      }
    }
    forall i | 0 <= i < |q| ensures MediumStrings(q, m)[i] == r[i] {
      if i != x {
        assert q[i] == pieces[if i < x then i else i - 1] && m[i] == nulls[if i < x then i else i - 1];
      }
    }
  }

  lemma MediumErased(pieces: seq<seq<Byte>>, nulls: seq<bool>, x: nat)
    requires |nulls| == |pieces| && MediumOk(pieces) && x < |pieces|
    ensures MediumOk(pieces[..x] + pieces[x + 1..])
    ensures MediumStrings(pieces[..x] + pieces[x + 1..], nulls[..x] + nulls[x + 1..]) ==
            MediumStrings(pieces, nulls)[..x] + MediumStrings(pieces, nulls)[x + 1..]
  {
  }

  lemma BigSet(blobs: seq<Option<Blob>>, x: nat, b: Option<Blob>, v: Str)
    requires BigOk(blobs) && x < |blobs| && B.StoredAs(b, v, true)
    ensures BigOk(blobs[x := b]) <==> Storable(v)
    ensures Storable(v) ==> BigStrings(blobs[x := b]) == BigStrings(blobs)[x := v]
  {
    StoredBlob(b, v);
    hide B.StoredAs;
    assert blobs[x := b][x] == b;
  }

  lemma BigInserted(blobs: seq<Option<Blob>>, x: nat, b: Option<Blob>, v: Str)
    requires BigOk(blobs) && x <= |blobs| && B.StoredAs(b, v, true)
    ensures BigOk(blobs[..x] + [b] + blobs[x..]) <==> Storable(v)
    ensures Storable(v) ==>
              BigStrings(blobs[..x] + [b] + blobs[x..]) == BigStrings(blobs)[..x] + [v] + BigStrings(blobs)[x..]
  {
    StoredBlob(b, v);
    hide B.StoredAs;
    assert (blobs[..x] + [b] + blobs[x..])[x] == b;
  }

  lemma BigAdded(blobs: seq<Option<Blob>>, b: Option<Blob>, v: Str)
    requires BigOk(blobs) && B.StoredAs(b, v, true) && Storable(v)
    ensures BigOk(blobs + [b]) && BigStrings(blobs + [b]) == BigStrings(blobs) + [v]
  {
    hide BigOk, BigStrings, B.StoredAs;
    var n := |blobs|;
    BigInserted(blobs, n, b, v);
    assert blobs[..n] + [b] + blobs[n..] == blobs + [b];
  }

  lemma BigErased(blobs: seq<Option<Blob>>, x: nat)
    requires BigOk(blobs) && x < |blobs|
    ensures BigOk(blobs[..x] + blobs[x + 1..])
    ensures BigStrings(blobs[..x] + blobs[x + 1..]) == BigStrings(blobs)[..x] + BigStrings(blobs)[x + 1..]
  {
  }

  lemma LookedInserted(indices: seq<nat>, keys: seq<Str>, keys': seq<Str>, x: nat, k: nat)
    requires (forall i :: 0 <= i < |indices| ==> indices[i] < |keys|) && x <= |indices| && keys <= keys' && k < |keys'|
    ensures var r := indices[..x] + [k] + indices[x..];
            (forall i :: 0 <= i < |r| ==> r[i] < |keys'|) &&
            Looked(r, keys') == Looked(indices, keys)[..x] + [keys'[k]] + Looked(indices, keys)[x..]
  {
    var r := indices[..x] + [k] + indices[x..];
    forall i | 0 <= i < |r| ensures r[i] < |keys'| {
      assert r[i] == if i < x then indices[i] else if i == x then k else indices[i - 1];
    }
  }

  lemma Unlooked(indices: seq<nat>, keys: seq<Str>, x: nat)
    requires (forall i :: 0 <= i < |indices| ==> indices[i] < |keys|) && x < |indices|
    ensures var r := indices[..x] + indices[x + 1..];
            (forall i :: 0 <= i < |r| ==> r[i] < |keys|) &&
            Looked(r, keys) == Looked(indices, keys)[..x] + Looked(indices, keys)[x + 1..]
  {
  }

  ghost function Looked(indices: seq<nat>, keys: seq<Str>): (r: seq<Str>)
    requires forall i :: 0 <= i < |indices| ==> indices[i] < |keys|
    ensures |r| == |indices|
  {
    seq(|indices|, i requires 0 <= i < |indices| => keys[indices[i]])
  }
}
