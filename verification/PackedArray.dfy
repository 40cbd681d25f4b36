/** An array of integers stored at the least width that holds them all.

    Values are widened inside one byte buffer: elements still at the old width
    are read while elements already at the new width are written, from the top
    down. The class proves every operation against the plain sequence.
 */
module PackedArray {
  import opened Bits
  import opened DirectAccess

  const MAX_ARRAY_SIZE := 0xff_ffff
  const MAX_PAYLOAD := 0x7ff_ffc0
  const HEADER := 8

  // ----- what a buffer holds, on values -----

  /** Element `i` at width `w` lies inside the buffer and is `v`. */
  ghost predicate Reads(s: seq<Byte>, w: Width, i: nat, v: int) {
    InBounds(s, i * w, w) && Get(s, w, i) == v
  }

  /** Elements `lo` to `hi` at width `w` are those of `t`. */
  ghost predicate Stored(s: seq<Byte>, w: Width, t: seq<int>, lo: nat, hi: nat) {
    hi <= |t| && forall j :: lo <= j < hi ==> Reads(s, w, j, t[j])
  }

  lemma StoredElements(s: seq<Byte>, w: Width, t: seq<int>)
    requires Holds(s, w, |t|)
    ensures Elements(s, w, |t|) == t <==> Stored(s, w, t, 0, |t|)
  {
    hide Get;
    forall j | 0 <= j < |t|
      ensures InBounds(s, j * w, w)
      ensures Elements(s, w, |t|)[j] == Get(s, w, j)
    {
      HoldsElement(s, w, |t|, j);
    }
    if Stored(s, w, t, 0, |t|) {
      forall j | 0 <= j < |t| ensures Elements(s, w, |t|)[j] == t[j] {
        assert Reads(s, w, j, t[j]);
      }
    }
  }

  /** A longer buffer with the same first bytes holds the same elements. */
  lemma LongerReads(s: seq<Byte>, s': seq<Byte>, w: Width, i: nat, v: int)
    requires Reads(s, w, i, v) && s <= s'
    ensures Reads(s', w, i, v)
  {
    Place(w, i);
    var p := i * w;
    hide Field, LittleEndian, Signed;
    if w >= 8 {
      assert 8 * (w / 8) == w;
      LittleEndianFrame(s, s', p / 8, w / 8);
    }
  }

  lemma LongerStored(s: seq<Byte>, s': seq<Byte>, w: Width, t: seq<int>, lo: nat, hi: nat)
    requires Stored(s, w, t, lo, hi) && s <= s'
    ensures Stored(s', w, t, lo, hi)
  {
    forall j | lo <= j < hi ensures Reads(s', w, j, t[j]) {
      LongerReads(s, s', w, j, t[j]);
    }
  }

  /** The buffer after element `k` was set to `v` at width `w`. */
  ghost function Written(s: seq<Byte>, w: Width, k: nat, v: int): (r: seq<Byte>)
    requires InBounds(s, k * w, w) && Fits(w, v)
    ensures |r| == |s|
  {
    Place(w, k);
    SetRaw(s, k * w, w, Unsigned(w, v))
  }

  lemma WrittenReads(s: seq<Byte>, w': Width, k: nat, x: int, w: Width, j: nat, v: int)
    requires InBounds(s, k * w', w') && Fits(w', x)
    requires (w < w' && j < k) || w == w'
    requires if w == w' && j == k then v == x else Reads(s, w, j, v)
    ensures Reads(Written(s, w', k, x), w, j, v)
  {
    SetGet(s, w', k, x, w, j);
  }

  /** One step of widening: the lower elements stay readable at the old width
      and one more of the upper elements is in place at the new width. */
  lemma WriteStep(s: seq<Byte>, w: Width, old': seq<int>, i: nat, w': Width, t: seq<int>, k: nat)
    requires w <= w' && i <= k < |t| && Fits(w', t[k]) && InBounds(s, k * w', w')
    requires Stored(s, w, old', 0, i) && Stored(s, w', t, k + 1, |t|)
    ensures Stored(Written(s, w', k, t[k]), w, old', 0, i)
    ensures Stored(Written(s, w', k, t[k]), w', t, k, |t|)
  {
    hide Written;
    forall j | 0 <= j < i ensures Reads(Written(s, w', k, t[k]), w, j, old'[j]) {
      WrittenReads(s, w', k, t[k], w, j, old'[j]);
    }
    forall j | k <= j < |t| ensures Reads(Written(s, w', k, t[k]), w', j, t[j]) {
      WrittenReads(s, w', k, t[k], w', j, t[j]);
    }
  }

  /** Overwriting one element of a stored sequence. */
  lemma WriteOne(s: seq<Byte>, w: Width, t: seq<int>, k: nat, v: int)
    requires k < |t| && Fits(w, v) && Stored(s, w, t, 0, |t|) && InBounds(s, k * w, w)
    ensures Stored(Written(s, w, k, v), w, t[k := v], 0, |t|)
  {
    hide Written;
    var t' := t[k := v];
    forall j | 0 <= j < |t| ensures Reads(Written(s, w, k, v), w, j, t'[j]) {
      WrittenReads(s, w, k, v, w, j, t'[j]);
    }
  }

  /** Storing the next element of a sequence that is stored up to there. */
  lemma WriteNext(s: seq<Byte>, w: Width, t: seq<int>, k: nat)
    requires k < |t| && Fits(w, t[k]) && Stored(s, w, t, 0, k) && InBounds(s, k * w, w)
    ensures Stored(Written(s, w, k, t[k]), w, t, 0, k + 1)
  {
    hide Written;
    forall j | 0 <= j <= k ensures Reads(Written(s, w, k, t[k]), w, j, t[j]) {
      WrittenReads(s, w, k, t[k], w, j, t[j]);
    }
  }

  lemma ReadsValue(s: seq<Byte>, w: Width, i: nat, v: int)
    requires Reads(s, w, i, v)
    ensures InBounds(s, i * w, w) && Get(s, w, i) == v
  {
  }

  ghost predicate AllFit(w: Width, t: seq<int>) {
    forall j :: 0 <= j < |t| ==> Fits(w, t[j])
  }

  lemma ElementsFit(s: seq<Byte>, w: Width, size: nat)
    requires Holds(s, w, size)
    ensures AllFit(w, Elements(s, w, size))
  {
    hide Get;
    forall j | 0 <= j < size ensures Fits(w, Elements(s, w, size)[j]) {
      HoldsElement(s, w, size, j);
    }
  }

  lemma WiderAllFit(w: Width, w': Width, t: seq<int>)
    requires w <= w' && AllFit(w, t)
    ensures AllFit(w', t)
  {
    forall j | 0 <= j < |t| ensures Fits(w', t[j]) {
      WiderFits(w, w', t[j]);
    }
  }

  /** Every sequence of values that fit a width is held by some buffer. */
  lemma Encoded(w: Width, t: seq<int>) returns (s: seq<Byte>)
    requires AllFit(w, t)
    ensures Holds(s, w, |t|) && Elements(s, w, |t|) == t
  {
    hide Written, Fits, Reads;
    s := seq(|t| * w, i => 0);
    assert Holds(s, w, |t|);
    var k := 0;
    while k < |t|
      invariant 0 <= k <= |t| && Holds(s, w, |t|) && Stored(s, w, t, 0, k)
    {
      HoldsElement(s, w, |t|, k);
      WriteNext(s, w, t, k);
      s := Written(s, w, k, t[k]);
      k := k + 1;
    }
    StoredElements(s, w, t);
  }

  /** `t` after its elements `begin` to `end` were copied to `dest`. */
  ghost function Moved<T>(t: seq<T>, begin: nat, end: nat, dest: nat): (r: seq<T>)
    requires begin <= end <= |t| && dest + (end - begin) <= |t|
    ensures |r| == |t|
  {
    t[..dest] + t[begin..end] + t[dest + (end - begin)..]
  }

  lemma MovedNext<T>(t: seq<T>, begin: nat, i: nat, end: nat, dest: nat)
    requires begin <= i < end <= |t| && dest + (end - begin) <= |t| && (dest <= begin || end <= dest)
    ensures Moved(t, begin, i, dest)[i] == t[i]
    ensures Moved(t, begin, i, dest)[dest + (i - begin) := t[i]] == Moved(t, begin, i + 1, dest)
  {
  }

  lemma MovedElement<T>(t: seq<T>, begin: nat, end: nat, dest: nat, j: nat)
    requires begin <= end <= |t| && dest + (end - begin) <= |t| && j < |t|
    ensures Moved(t, begin, end, dest)[j] == if dest <= j < dest + (end - begin) then t[begin + (j - dest)] else t[j]
  {
  }

  lemma MovedSlices<T>(t: seq<T>, begin: nat, end: nat, dest: nat, p: nat, b: nat)
    requires begin <= end <= |t| && dest + (end - begin) <= |t| && p + b <= |t|
    ensures begin <= p && p + b <= end ==>
              Moved(t, begin, end, dest)[dest + (p - begin)..dest + (p - begin) + b] == t[p..p + b]
    ensures p + b <= dest || dest + (end - begin) <= p ==> Moved(t, begin, end, dest)[p..p + b] == t[p..p + b]
  {
    hide Moved;
    var m := Moved(t, begin, end, dest);
    if begin <= p && p + b <= end {
      var q := dest + (p - begin);
      var x, y := m[q..q + b], t[p..p + b];
      forall k | 0 <= k < b ensures x[k] == y[k] {
        MovedElement(t, begin, end, dest, q + k);
      }
    }
    if p + b <= dest || dest + (end - begin) <= p {
      var x, y := m[p..p + b], t[p..p + b];
      forall k | 0 <= k < b ensures x[k] == y[k] {
        MovedElement(t, begin, end, dest, p + k);
      }
    }
  }

  /** Element `i` of `b` bytes starts at byte `p`. */
  ghost predicate At(b: nat, i: nat, p: nat) {
    p == i * b
  }

  /** An element of `b` whole bytes, by the position of its first byte. */
  lemma ByteReads(s: seq<Byte>, w: Width, b: nat, i: nat, p: nat)
    requires w == 8 * b && b > 0 && p == i * b
    ensures InBounds(s, i * w, w) <==> p + b <= |s|
    ensures p + b <= |s| ==> Get(s, w, i) == Signed(w, LittleEndian(s, p, b))
  {
    Assoc(i, 8, b);
    Assoc(8, i, b);
    assert i * w == 8 * p;
    Place(w, i);
    hide LittleEndian, Signed, Pow2;
  }

  /** An element is what its bytes say, wherever they are. */
  lemma SameBytes(s: seq<Byte>, i: nat, p: nat, s': seq<Byte>, i': nat, p': nat, w: Width, b: nat, v: int)
    requires w == 8 * b && b > 0 && Reads(s, w, i, v) && p == i * b && p' == i' * b
    requires p + b <= |s| && p' + b <= |s'| && s[p..p + b] == s'[p'..p' + b]
    ensures Reads(s', w, i', v)
  {
    ByteReads(s, w, b, i, p);
    ByteReads(s', w, b, i', p');
    LittleEndianSame(s, p, s', p', b);
  }

  /** The byte positions of two elements are apart by the bytes between. */
  lemma BytePositions(b: nat, i: nat, j: nat)
    requires i <= j
    ensures 0 <= i * b && i * b + (j - i) * b == j * b && 0 <= (j - i) * b
    ensures i < j ==> i * b + b <= j * b
  {
    Distrib(b, i, j - i);
    if i < j {
      MulLe(b, 1, j - i);
    }
  }

  /** Copying the bytes of elements copies the elements. */
  lemma MovedReads(s: seq<Byte>, w: Width, b: nat, begin: nat, from: nat, end: nat, to: nat, dest: nat, at: nat,
                   j: nat, v: int)
    requires w == 8 * b && b > 0 && begin <= j < end && Reads(s, w, j, v)
    requires At(b, begin, from) && At(b, end, to) && At(b, dest, at)
    requires from <= to <= |s| && at + (to - from) <= |s|
    ensures Reads(Moved(s, from, to, at), w, dest + (j - begin), v)
  {
    BytePositions(b, begin, j);
    BytePositions(b, j, end);
    BytePositions(b, dest, dest + (j - begin));
    MovedAt(s, w, b, from, to, at, j, j * b, dest + (j - begin), (dest + (j - begin)) * b, v);
  }

  lemma MovedAt(s: seq<Byte>, w: Width, b: nat, from: nat, to: nat, at: nat, j: nat, p: nat, j': nat, p': nat, v: int)
    requires w == 8 * b && b > 0 && Reads(s, w, j, v) && p == j * b && p' == j' * b
    requires from <= to <= |s| && at + (to - from) <= |s|
    requires from <= p && p + b <= to && p' == at + (p - from)
    ensures Reads(Moved(s, from, to, at), w, j', v)
  {
    MovedSlices(s, from, to, at, p, b);
    SameBytes(s, j, p, Moved(s, from, to, at), j', p', w, b, v);
  }

  /** The elements outside the destination stay. */
  lemma MovedKeeps(s: seq<Byte>, w: Width, b: nat, begin: nat, from: nat, end: nat, to: nat, dest: nat, at: nat,
                   j: nat, v: int)
    requires w == 8 * b && b > 0 && begin <= end && Reads(s, w, j, v)
    requires At(b, begin, from) && At(b, end, to) && At(b, dest, at)
    requires from <= to <= |s| && at + (to - from) <= |s|
    requires j < dest || dest + (end - begin) <= j
    ensures Reads(Moved(s, from, to, at), w, j, v)
  {
    var p := j * b;
    ByteReads(s, w, b, j, p);
    assert At(b, j, p);
    hide At;
    AtPlus(b, begin, from, end, to, dest, at);
    AtOrder(b, j, p, dest, at);
    AtOrder(b, dest + (end - begin), at + (to - from), j, p);
    KeptAt(s, w, b, from, to, at, j, p, v);
  }

  lemma KeptAt(s: seq<Byte>, w: Width, b: nat, from: nat, to: nat, at: nat, j: nat, p: nat, v: int)
    requires w == 8 * b && b > 0 && Reads(s, w, j, v) && p == j * b && p + b <= |s|
    requires from <= to <= |s| && at + (to - from) <= |s|
    requires p + b <= at || at + (to - from) <= p
    ensures Reads(Moved(s, from, to, at), w, j, v)
  {
    MovedSlices(s, from, to, at, p, b);
    SameBytes(s, j, p, Moved(s, from, to, at), j, p, w, b, v);
  }

  lemma ShiftRoom(s: seq<Byte>, w: Width, b: nat, end: nat, ndx: nat, from: nat, to: nat)
    requires w == 8 * b && b > 0 && Holds(s, w, end + 1) && ndx <= end && At(b, ndx, from) && At(b, end, to)
    ensures from <= to && to + b <= |s| && At(b, ndx + 1, from + b)
  {
    hide Holds, InBounds, Get, Signed, LittleEndian;
    HoldsElement(s, w, end + 1, end);
    ByteReads(s, w, b, end, to);
    hide At;
    AtOrder(b, ndx, from, end, to);
    AtNext(b, ndx, from);
  }

  lemma AtNext(b: nat, i: nat, p: nat)
    requires At(b, i, p)
    ensures At(b, i + 1, p + b)
  {
    Distrib(b, i, 1);
  }

  lemma AtOrder(b: nat, i: nat, p: nat, j: nat, q: nat)
    requires At(b, i, p) && At(b, j, q)
    ensures i <= j ==> p <= q
    ensures i < j ==> p + b <= q
  {
    if i <= j {
      BytePositions(b, i, j);
    }
  }

  lemma AtPlus(b: nat, i: nat, p: nat, j: nat, q: nat, k: nat, r: nat)
    requires At(b, i, p) && At(b, j, q) && At(b, k, r) && i <= j
    ensures p <= q && At(b, k + (j - i), r + (q - p))
  {
    BytePositions(b, i, j);
    Distrib(b, k, j - i);
  }

  /** Copying the bytes of the elements from `ndx` on one element up. */
  lemma BytesShifted(s: seq<Byte>, w: Width, b: nat, t: seq<int>, t': seq<int>, ndx: nat, from: nat, to: nat)
    requires w == 8 * b && b > 0 && Holds(s, w, |t| + 1) && |t'| == |t| + 1 && ndx <= |t|
    requires Stored(s, w, t, 0, |t|) && At(b, ndx, from) && At(b, |t|, to)
    requires forall j :: ndx <= j < |t| ==> t'[j + 1] == t[j]
    ensures from <= to && to + b <= |s|
    ensures Stored(Moved(s, from, to, from + b), w, t, 0, ndx)
    ensures Stored(Moved(s, from, to, from + b), w, t', ndx + 1, |t'|)
  {
    var end := |t|;
    hide Moved, Holds, Reads, At;
    ShiftRoom(s, w, b, end, ndx, from, to);
    forall j | 0 <= j < ndx ensures Reads(Moved(s, from, to, from + b), w, j, t[j]) {
      MovedKeeps(s, w, b, ndx, from, end, to, ndx + 1, from + b, j, t[j]);
    }
    forall j | ndx + 1 <= j < |t'| ensures Reads(Moved(s, from, to, from + b), w, j, t'[j]) {
      assert t'[(j - 1) + 1] == t[j - 1];
      MovedReads(s, w, b, ndx, from, end, to, ndx + 1, from + b, j - 1, t[j - 1]);
    }
  }

  /** Copying the bytes of elements `begin` to `end` to `dest`. */
  lemma BytesMoved(s: seq<Byte>, w: Width, b: nat, t: seq<int>,
                   begin: nat, from: nat, end: nat, to: nat, dest: nat, at: nat)
    requires w == 8 * b && b > 0 && Holds(s, w, |t|) && Stored(s, w, t, 0, |t|)
    requires begin <= end <= |t| && dest + (end - begin) <= |t|
    requires At(b, begin, from) && At(b, end, to) && At(b, dest, at)
    ensures from <= to <= |s| && at + (to - from) <= |s|
    ensures dest <= begin ==> at <= from
    ensures end <= dest ==> to <= at
    ensures Stored(Moved(s, from, to, at), w, Moved(t, begin, end, dest), 0, |t|)
  {
    MoveRoom(s, w, b, |t|, begin, from, end, to, dest, at);
    var t' := Moved(t, begin, end, dest);
    hide Holds, Reads, At, Moved;
    forall j | 0 <= j < |t| ensures Reads(Moved(s, from, to, at), w, j, t'[j]) {
      MovedElement(t, begin, end, dest, j);
      if dest <= j < dest + (end - begin) {
        MovedReads(s, w, b, begin, from, end, to, dest, at, begin + (j - dest), t[begin + (j - dest)]);
      } else {
        MovedKeeps(s, w, b, begin, from, end, to, dest, at, j, t[j]);
      }
    }
  }

  lemma MoveRoom(s: seq<Byte>, w: Width, b: nat, n: nat,
                 begin: nat, from: nat, end: nat, to: nat, dest: nat, at: nat)
    requires w == 8 * b && b > 0 && Holds(s, w, n)
    requires begin <= end <= n && dest + (end - begin) <= n
    requires At(b, begin, from) && At(b, end, to) && At(b, dest, at)
    ensures from <= to <= |s| && at + (to - from) <= |s|
    ensures dest <= begin ==> at <= from
    ensures end <= dest ==> to <= at
  {
    assert n * w == 8 * (n * b) by { Assoc(n, 8, b); Assoc(8, n, b); }
    BytePositions(b, begin, end);
    BytePositions(b, end, n);
    BytePositions(b, dest, dest + (end - begin));
    BytePositions(b, dest + (end - begin), n);
    if dest <= begin {
      BytePositions(b, dest, begin);
    } else if end <= dest {
      BytePositions(b, end, dest);
    }
  }

  /** The width an array of width `w` has once `v` is stored in it. */
  function Widened(w: Width, v: int): (r: Width)
    requires Int64(v)
    ensures w <= r && Fits(r, v)
    ensures r == if Fits(w, v) then w else BitWidth(v)
  {
    BitWidthLeast(v, w);
    BitWidthLeast(v, BitWidth(v));
    if Fits(w, v) then w else BitWidth(v)
  }

  /** Copying one more element. */
  lemma MoveStep(s: seq<Byte>, w: Width, t: seq<int>, begin: nat, i: nat, end: nat, dest: nat, to: nat)
    requires begin <= i < end <= |t| && dest + (end - begin) <= |t| && (dest < begin || end <= dest) && AllFit(w, t)
    requires to == dest + (i - begin) && Holds(s, w, |t|) && Stored(s, w, Moved(t, begin, i, dest), 0, |t|)
    ensures Reads(s, w, i, t[i]) && Fits(w, t[i])
    ensures InBounds(s, to * w, w) && Stored(Written(s, w, to, t[i]), w, Moved(t, begin, i + 1, dest), 0, |t|)
  {
    hide Reads, Fits, Moved, Holds;
    var m := Moved(t, begin, i, dest);
    MovedNext(t, begin, i, end, dest);
    assert Reads(s, w, i, m[i]);
    HoldsElement(s, w, |t|, to);
    WriteOne(s, w, m, to, t[i]);
  }

  /** The upper bound of a width needs exactly that width. */
  lemma UpperBoundWidth(w: Width, w': Width)
    ensures Int64(UpperBound(w)) && BitWidth(UpperBound(w)) == w
    ensures Fits(w', UpperBound(w)) <==> w <= w'
  {
    Powers();
    assert Int64(UpperBound(w));
    assert BitWidth(UpperBound(w)) == w by { hide Pow2; }
    BitWidthLeast(UpperBound(w), w');
  }

  /** Bytes needed for the header and `size` elements. */
  function ByteLen(size: nat, w: Width): (r: nat)
    ensures size * w <= 8 * (r - HEADER) < size * w + 8
  {
    var bits := size * w;
    HEADER + (bits + 7) / 8
  }

  /** The capacity chosen when the present one is too small. */
  function NewCapacity(capacity: nat, needed: nat): (r: nat)
    ensures r >= needed
    ensures r == needed || r % 8 == 0 || r == 2 * capacity
    ensures r < needed + 8 || r <= 2 * capacity
    ensures r >= 2 * capacity || r >= MAX_PAYLOAD
  {
    var doubled := if 2 * capacity > MAX_PAYLOAD then MAX_PAYLOAD else 2 * capacity;
    if doubled < needed then
      var rest := (7 - needed % 8) + 1;
      if rest < 8 then needed + rest else needed
    else doubled
  }

  // ----- the array -----

  /** A new buffer of `n` bytes that starts with the bytes of `a`. */
  method Copied(a: array<Byte>, n: nat) returns (r: array<Byte>)
    requires a.Length <= n
    ensures fresh(r) && r.Length == n && a[..] <= r[..]
  {
    r := new Byte[n];
    var i := 0;
    while i < a.Length
      invariant 0 <= i <= a.Length
      invariant forall k :: 0 <= k < i ==> r[k] == a[k]
    {
      r[i] := a[i];
      i := i + 1;
    }
  }

  /** Copies bytes `from` to `to` up to end at `to + n`, from the top down. */
  method CopyBackward(a: array<Byte>, from: nat, to: nat, n: nat)
    requires from <= to && to + n <= a.Length
    modifies a
    ensures a[..] == Moved(old(a[..]), from, to, from + n)
  {
    ghost var s := a[..];
    var i := to;
    while i != from
      invariant from <= i <= to
      invariant forall k :: i + n <= k < to + n ==> a[k] == s[k - n]
      invariant forall k :: 0 <= k < a.Length && !(i + n <= k < to + n) ==> a[k] == s[k]
    {
      i := i - 1;
      a[i + n] := a[i];
    }
    assert a[..] == Moved(s, from, to, from + n);
  }

  /** Copies bytes `from` to `to` to `dest`, from the bottom up. */
  method CopyForward(a: array<Byte>, from: nat, to: nat, dest: nat)
    requires from <= to <= a.Length && dest + (to - from) <= a.Length
    requires dest <= from || to <= dest
    modifies a
    ensures a[..] == Moved(old(a[..]), from, to, dest)
  {
    ghost var s := a[..];
    var i, n := 0, to - from;
    while i != n
      invariant 0 <= i <= n
      invariant forall k :: dest <= k < dest + i ==> a[k] == s[from + (k - dest)]
      invariant forall k :: 0 <= k < a.Length && !(dest <= k < dest + i) ==> a[k] == s[k]
    {
      a[dest + i] := a[from + i];
      i := i + 1;
    }
    assert a[..] == Moved(s, from, to, dest);
  }

  /** Writes bytes over those from `at` on. */
  method Overwrite(a: array<Byte>, at: nat, bytes: seq<Byte>)
    requires at + |bytes| <= a.Length
    modifies a
    ensures a[..] == old(a[..])[..at] + bytes + old(a[..])[at + |bytes|..]
  {
    ghost var s := a[..];
    var i := 0;
    while i < |bytes|
      invariant 0 <= i <= |bytes|
      invariant forall k :: at <= k < at + i ==> a[k] == bytes[k - at]
      invariant forall k :: 0 <= k < a.Length && !(at <= k < at + i) ==> a[k] == s[k]
    {
      a[at + i] := bytes[i];
      i := i + 1;
    }
    assert a[..] == s[..at] + bytes + s[at + |bytes|..];
  }

  class Array {
    var data: array<Byte>
    var width: Width
    var size: nat

    ghost predicate Valid()
      reads this, data
    {
      Holds(data[..], width, size) && size <= MAX_ARRAY_SIZE
    }

    ghost function Contents(): (r: seq<int>)
      requires Valid()
      reads this, data
      ensures |r| == size && AllFit(width, r)
    {
      ElementsFit(data[..], width, size);
      Elements(data[..], width, size)
    }

    /** An empty array with the initial capacity. */
    constructor ()
      ensures Valid() && Contents() == [] && width == 0 && fresh(data)
    {
      data := new Byte[120];
      width, size := 0, 0;
    }

    /** The element is read back from the bits of the buffer. */
    method GetAt(i: nat) returns (v: int)
      requires Valid() && i < size
      ensures v == Contents()[i]
    {
      HoldsElement(data[..], width, size, i);
      v := Get(data[..], width, i);
    }

    /** Stores the low bytes of `x` at byte `k`. */
    method StoreBytes(k: nat, n: nat, x: nat)
      requires k + n <= data.Length
      modifies data
      ensures data[..] == old(data[..])[..k] + Bytes(x, n) + old(data[..])[k + n..]
    {
      var rest := x;
      var j := 0;
      ghost var s := data[..];
      while j < n
        invariant 0 <= j <= n
        invariant data[..] == s[..k] + Bytes(x, n)[..j] + s[k + j..]
        invariant Bytes(x, n)[j..] == Bytes(rest, n - j)
      {
        data[k + j] := rest % 256;
        assert Bytes(x, n)[j] == Bytes(x, n)[j..][0] == rest % 256;
        assert Bytes(x, n)[j + 1..] == Bytes(x, n)[j..][1..];
        rest := rest / 256;
        j := j + 1;
      }
    }

    /** Writes one element; the size need not cover it yet. */
    method SetDirect(k: nat, v: int)
      requires InBounds(data[..], k * width, width) && Fits(width, v)
      modifies data
      ensures data[..] == Written(old(data[..]), width, k, v)
    {
      hide Pow2, Fits, Unsigned;
      Place(width, k);
      var p, x := k * width, Unsigned(width, v);
      if width == 0 {
      } else if width < 8 {
        SetBits(p, x);
      } else {
        assert 8 * (width / 8) == width && 8 * (p / 8) == p;
        StoreBytes(p / 8, width / 8, x);
      }
    }

    /** Writes an element that shares its byte with others. */
    method SetBits(p: nat, x: nat)
      requires 0 < width < 8 && InBounds(data[..], p, width) && Placeable(p, width) && x < Pow2(width)
      modifies data
      ensures data[..] == SetRaw(old(data[..]), p, width, x)
    {
      Powers();
      hide Pow2, SetField, Field;
      var k, m := p / 8, p % 8;
      SetFieldAt(8, data[k], m, width, x, m, width);
      data[k] := SetField(8, data[k], m, width, x);
    }

    /** Makes room for `n` elements of width `w`. The bytes already there stay
        where they are; the elements are not yet converted. */
    method Alloc(n: nat, w: Width)
      requires n <= MAX_ARRAY_SIZE
      modifies this
      ensures size == n && width == w
      ensures Holds(data[..], w, n) && old(data[..]) <= data[..]
      ensures data == old(data) || fresh(data)
    {
      var needed := ByteLen(n, w);
      if HEADER + data.Length < needed {
        data := Copied(data, NewCapacity(HEADER + data.Length, needed) - HEADER);
      }
      width, size := w, n;
    }

    /** Converts elements `0` to `n` from width `w` to the present width, top down. */
    method Widen(w: Width, n: nat, ghost t: seq<int>)
      requires Valid() && |t| == size && n <= size && w <= width && AllFit(width, t)
      requires Stored(data[..], w, t, 0, n) && Stored(data[..], width, t, n, size)
      modifies data
      ensures Valid() && Contents() == t
    {
      var i := n;
      while i != 0
        invariant 0 <= i <= n && Valid()
        invariant Stored(data[..], w, t, 0, i) && Stored(data[..], width, t, i, size)
      {
        i := i - 1;
        assert Reads(data[..], w, i, t[i]);
        var v := Get(data[..], w, i);
        HoldsElement(data[..], width, size, i);
        WriteStep(data[..], w, t, i, width, t, i);
        SetDirect(i, v);
      }
      StoredElements(data[..], width, t);
    }

    /** Widens the array when the value does not fit. */
    method EnsureMinimumWidth(value: int)
      requires Valid() && Int64(value)
      modifies this, data
      ensures Valid() && Contents() == old(Contents())
      ensures width == Widened(old(width), value)
      ensures data == old(data) || fresh(data)
    {
      if !Fits(width, value) {
        ghost var t := Contents();
        var w := width;
        StoredElements(data[..], w, t);
        ghost var s := data[..];
        WiderAllFit(w, Widened(w, value), t);
        Alloc(size, BitWidth(value));
        LongerStored(s, data[..], w, t, 0, size);
        Widen(w, size, t);
      }
    }

    method Set(ndx: nat, value: int)
      requires Valid() && ndx < size && Int64(value)
      modifies this, data
      ensures Valid() && Contents() == old(Contents())[ndx := value]
      ensures width == Widened(old(width), value)
      ensures data == old(data) || fresh(data)
    {
      var v := GetAt(ndx);
      if v != value {
        EnsureMinimumWidth(value);
        ghost var t := Contents();
        StoredElements(data[..], width, t);
        HoldsElement(data[..], width, size, ndx);
        WriteOne(data[..], width, t, ndx, value);
        SetDirect(ndx, value);
        StoredElements(data[..], width, t[ndx := value]);
      }
    }

    /** Shifts the elements from `ndx` on up by one, to the present width. */
    method ShiftUp(w: Width, ndx: nat, ghost t: seq<int>, ghost t': seq<int>)
      requires Valid() && w <= width && |t| + 1 == size == |t'| && ndx < size && AllFit(width, t)
      requires forall j :: ndx <= j < |t| ==> t'[j + 1] == t[j]
      requires Stored(data[..], w, t, 0, |t|)
      modifies data
      ensures Valid() && Stored(data[..], w, t, 0, ndx) && Stored(data[..], width, t', ndx + 1, size)
    {
      var i := size - 1;
      while i > ndx
        invariant ndx <= i < size && Valid()
        invariant Stored(data[..], w, t, 0, i) && Stored(data[..], width, t', i + 1, size)
      {
        i := i - 1;
        assert Reads(data[..], w, i, t[i]);
        var v := Get(data[..], w, i);
        HoldsElement(data[..], width, size, i + 1);
        WriteStep(data[..], w, t, i, width, t', i + 1);
        SetDirect(i + 1, v);
      }
    }

    /** The same for whole bytes and an unchanged width, as one copy. */
    method ShiftBytesUp(ndx: nat, ghost t: seq<int>, ghost t': seq<int>)
      requires Valid() && width >= 8 && |t| + 1 == size == |t'| && ndx < size
      requires forall j :: ndx <= j < |t| ==> t'[j + 1] == t[j]
      requires Stored(data[..], width, t, 0, |t|)
      modifies data
      ensures Valid() && Stored(data[..], width, t, 0, ndx) && Stored(data[..], width, t', ndx + 1, size)
    {
      var b, end := width / 8, size - 1;
      ghost var s := data[..];
      assert width == 8 * b;
      var from, to := ndx * b, end * b;
      BytesShifted(s, width, b, t, t', ndx, from, to);
      CopyBackward(data, from, to, b);
    }

    method Insert(ndx: nat, value: int)
      requires Valid() && ndx <= size < MAX_ARRAY_SIZE && Int64(value)
      modifies this, data
      ensures Valid() && Contents() == old(Contents())[..ndx] + [value] + old(Contents())[ndx..]
      ensures width == Widened(old(width), value)
      ensures data == old(data) || fresh(data)
    {
      hide Reads, Fits, BitWidth;
      ghost var t := Contents();
      ghost var t' := t[..ndx] + [value] + t[ndx..];
      ghost var s := data[..];
      StoredElements(s, width, t);
      var w, n := width, size;
      var expand := !Fits(w, value);
      WiderAllFit(w, Widened(w, value), t);
      if expand {
        Alloc(n + 1, BitWidth(value));
      } else {
        Alloc(n + 1, w);
      }
      LongerStored(s, data[..], w, t, 0, n);
      OpenSlot(w, ndx, expand, t, t');
      FillSlot(w, ndx, expand, value, t, t');
    }

    /** Makes room at `ndx`, element by element or as one copy. */
    method OpenSlot(w: Width, ndx: nat, expand: bool, ghost t: seq<int>, ghost t': seq<int>)
      requires Valid() && w <= width && (!expand ==> w == width)
      requires |t| + 1 == size == |t'| && ndx < size && AllFit(width, t)
      requires forall j :: ndx <= j < |t| ==> t'[j + 1] == t[j]
      requires Stored(data[..], w, t, 0, |t|)
      modifies data
      ensures Valid() && Stored(data[..], w, t, 0, ndx) && Stored(data[..], width, t', ndx + 1, size)
    {
      hide Reads, Fits;
      if expand || w < 8 {
        ShiftUp(w, ndx, t, t');
      } else if ndx != size - 1 {
        ShiftBytesUp(ndx, t, t');
      }
    }

    /** Writes the element at `ndx` and widens those before it. */
    method FillSlot(w: Width, ndx: nat, expand: bool, value: int, ghost t: seq<int>, ghost t': seq<int>)
      requires Valid() && w <= width && (!expand ==> w == width)
      requires |t| + 1 == size == |t'| && ndx < size && AllFit(width, t') && t'[..ndx] == t[..ndx] && t'[ndx] == value
      requires Stored(data[..], w, t, 0, ndx) && Stored(data[..], width, t', ndx + 1, size)
      modifies data
      ensures Valid() && Contents() == t'
    {
      hide Reads, Fits;
      HoldsElement(data[..], width, size, ndx);
      WriteStep(data[..], w, t, ndx, width, t', ndx);
      SetDirect(ndx, value);
      assert forall j :: 0 <= j < ndx ==> t'[j] == t'[..ndx][j] == t[j];
      if expand {
        Widen(w, ndx, t');
      } else {
        StoredElements(data[..], width, t');
      }
    }

    method Add(value: int)
      requires Valid() && size < MAX_ARRAY_SIZE && Int64(value)
      modifies this, data
      ensures Valid() && Contents() == old(Contents()) + [value]
      ensures width == Widened(old(width), value)
      ensures data == old(data) || fresh(data)
    {
      Insert(size, value);
    }

    method Truncate(n: nat)
      requires Valid() && n <= size
      modifies this
      ensures Valid() && Contents() == old(Contents())[..n] && data == old(data)
      ensures width == if n == 0 && old(size) > 0 then 0 else old(width)
    {
      if n < size {
        MulLe(width, n, size);
        size := n;
        if n == 0 {
          width := 0;
        }
      }
    }

    /** Copies elements `begin` to `end` to `dest`; the ranges may overlap only
        when the copy goes down. */
    method Move(begin: nat, end: nat, dest: nat)
      requires Valid() && begin <= end <= size && dest + (end - begin) <= size
      requires dest < begin || end <= dest
      modifies data
      ensures Valid() && Contents() == Moved(old(Contents()), begin, end, dest)
    {
      hide Reads, Fits;
      ghost var t := Contents();
      ghost var t' := Moved(t, begin, end, dest);
      StoredElements(data[..], width, t);
      if width < 8 {
        MoveEach(begin, end, dest, t);
      } else {
        var b := width / 8;
        assert width == 8 * b;
        var from, to, at := begin * b, end * b, dest * b;
        BytesMoved(data[..], width, b, t, begin, from, end, to, dest, at);
        CopyForward(data, from, to, at);
      }
      StoredElements(data[..], width, t');
    }

    method MoveEach(begin: nat, end: nat, dest: nat, ghost t: seq<int>)
      requires Valid() && begin <= end <= size == |t| && dest + (end - begin) <= size
      requires dest < begin || end <= dest
      requires Stored(data[..], width, t, 0, size) && AllFit(width, t)
      modifies data
      ensures Valid() && Stored(data[..], width, Moved(t, begin, end, dest), 0, size)
    {
      hide Reads, Fits;
      var i, to := begin, dest;
      assert Moved(t, begin, begin, dest) == t;
      hide Moved;
      while i != end
        invariant begin <= i <= end && to == dest + (i - begin) && Valid()
        invariant Stored(data[..], width, Moved(t, begin, i, dest), 0, size)
      {
        MoveStep(data[..], width, t, begin, i, end, dest, to);
        ReadsValue(data[..], width, i, t[i]);
        SetDirect(to, Get(data[..], width, i));
        i, to := i + 1, to + 1;
      }
    }

    /** Removes elements `begin` to `end`. */
    method EraseRange(begin: nat, end: nat)
      requires Valid() && begin <= end <= size
      modifies this, data
      ensures Valid() && Contents() == old(Contents())[..begin] + old(Contents())[end..]
      ensures width == old(width) && data == old(data)
    {
      if begin != end {
        Move(end, size, begin);
        ghost var t := Contents();
        StoredElements(data[..], width, t);
        MulLe(width, size - (end - begin), size);
        size := size - (end - begin);
        StoredElements(data[..], width, t[..size]);
      }
    }

    method Erase(ndx: nat)
      requires Valid() && ndx < size
      modifies this, data
      ensures Valid() && Contents() == old(Contents())[..ndx] + old(Contents())[ndx + 1..]
      ensures width == old(width) && data == old(data)
    {
      EraseRange(ndx, ndx + 1);
    }

    /** Adds `diff` to one element. */
    method Adjust(ndx: nat, diff: int)
      requires Valid() && ndx < size && Int64(Contents()[ndx] + diff)
      modifies this, data
      ensures Valid() && Contents() == old(Contents())[ndx := old(Contents())[ndx] + diff]
      ensures data == old(data) || fresh(data)
    {
      if diff != 0 {
        var v := GetAt(ndx);
        Set(ndx, v + diff);
      }
    }

    /** Moves the elements from `ndx` on to the end of another array. */
    method MoveTo(dst: Array, ndx: nat)
      requires Valid() && dst.Valid() && dst != this && dst.data != data && ndx <= size
      requires dst.size + (size - ndx) <= MAX_ARRAY_SIZE
      modifies this, dst, dst.data
      ensures Valid() && dst.Valid()
      ensures Contents() == old(Contents())[..ndx]
      ensures dst.Contents() == old(dst.Contents()) + old(Contents())[ndx..]
    {
      hide Reads, Fits, BitWidth;
      ghost var t, t' := Contents(), dst.Contents() + Contents()[ndx..];
      var n := dst.size;
      UpperBoundWidth(width, dst.width);
      UpperBoundWidth(width, Widened(dst.width, UpperBound(width)));
      dst.EnsureMinimumWidth(UpperBound(width));
      WiderAllFit(width, dst.width, t);
      ghost var s := dst.data[..];
      StoredElements(s, dst.width, dst.Contents());
      dst.Alloc(n + (size - ndx), dst.width);
      LongerStored(s, dst.data[..], dst.width, t'[..n], 0, n);
      dst.CopyTail(this, ndx, n, t');
      Truncate(ndx);
    }

    /** Writes the elements of `src` from `ndx` on to the places from `n` on. */
    method CopyTail(src: Array, ndx: nat, n: nat, ghost t: seq<int>)
      requires Valid() && src.Valid() && src.data != data && ndx <= src.size
      requires size == |t| == n + (src.size - ndx) && AllFit(width, t) && Stored(data[..], width, t, 0, n)
      requires forall i :: ndx <= i < src.size ==> t[n + (i - ndx)] == src.Contents()[i]
      modifies data
      ensures Valid() && Contents() == t
    {
      hide Reads, Fits;
      var i := ndx;
      while i < src.size
        invariant ndx <= i <= src.size && Valid() && src.Valid() && src.Contents() == old(src.Contents())
        invariant Stored(data[..], width, t, 0, n + (i - ndx))
      {
        var v := src.GetAt(i);
        var k := n + (i - ndx);
        HoldsElement(data[..], width, size, k);
        WriteNext(data[..], width, t, k);
        SetDirect(k, v);
        i := i + 1;
      }
      StoredElements(data[..], width, t);
    }
  }
}
