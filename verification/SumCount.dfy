/** Sums and counts over a packed array, a word at a time. */
module SumCount {
  import opened Options
  import opened Bits
  import opened Lanes
  import opened LaneSums
  import opened DirectAccess
  import opened Find
  import opened WordCount
  import PackedArray

  // ----- sums -----

  function SumOf(s: seq<int>, lo: nat, hi: nat): (r: int)
    requires lo <= hi <= |s|
  {
    if lo == hi then 0 else SumOf(s, lo, hi - 1) + s[hi - 1]
  }

  lemma {:induction false} SumSplit(s: seq<int>, lo: nat, mid: nat, hi: nat)
    requires lo <= mid <= hi <= |s|
    ensures SumOf(s, lo, hi) == SumOf(s, lo, mid) + SumOf(s, mid, hi)
  {
    if mid < hi {
      SumSplit(s, lo, mid, hi - 1);
    }
  }

  /** The sum of every prefix is an int64_t. */
  ghost predicate PrefixesFit(s: seq<int>, lo: nat, hi: nat)
    requires lo <= hi <= |s|
  {
    forall j :: lo <= j <= hi ==> Int64(SumOf(s, lo, j))
  }

  /** What adding the elements one by one to an int64_t gives; nothing once an addition overflows. */
  ghost function Accumulated(s: seq<int>, lo: nat, hi: nat): (r: Option<int>)
    requires lo <= hi <= |s|
  {
    if PrefixesFit(s, lo, hi) then Some(SumOf(s, lo, hi)) else None
  }

  function Plus(s: Option<int>, v: int): (r: Option<int>) {
    if s.Some? && Int64(s.value + v) then Some(s.value + v) else None
  }

  lemma AccumulateNext(s: seq<int>, lo: nat, hi: nat)
    requires lo <= hi < |s|
    ensures Accumulated(s, lo, hi + 1) == Plus(Accumulated(s, lo, hi), s[hi])
    ensures Accumulated(s, lo, lo) == Some(0)
  {
    assert SumOf(s, lo, hi + 1) == SumOf(s, lo, hi) + s[hi];
    assert PrefixesFit(s, lo, hi + 1) ==> PrefixesFit(s, lo, hi) && Int64(SumOf(s, lo, hi + 1));
  }

  /** No sum of elements below width 64 overflows. */
  lemma NarrowSumsFit(data: seq<Byte>, w: Width, size: nat, lo: nat, hi: nat)
    requires Holds(data, w, size) && w < 64 && lo <= hi <= size <= PackedArray.MAX_ARRAY_SIZE
    ensures PrefixesFit(Elements(data, w, size), lo, hi)
    ensures Accumulated(Elements(data, w, size), lo, hi) == Some(SumOf(Elements(data, w, size), lo, hi))
  {
    hide Elements, Holds, SumOf;
    forall j | lo <= j <= hi ensures Int64(SumOf(Elements(data, w, size), lo, j)) {
      NarrowSum(data, w, size, lo, j);
    }
  }

  lemma {:induction false} NarrowSum(data: seq<Byte>, w: Width, size: nat, lo: nat, hi: nat)
    requires Holds(data, w, size) && w < 64 && lo <= hi <= size
    ensures var s := SumOf(Elements(data, w, size), lo, hi);
            -0x8000_0000 * (hi - lo) <= s <= 0x7fff_ffff * (hi - lo)
  {
    hide Elements, Holds, Get;
    if lo < hi {
      NarrowSum(data, w, size, lo, hi - 1);
      ElementAt(data, w, size, hi - 1);
      NarrowElement(data, w, size, hi - 1);
    }
  }

  lemma NarrowElement(data: seq<Byte>, w: Width, size: nat, i: nat)
    requires Holds(data, w, size) && w < 64 && i < size
    ensures -0x8000_0000 <= Elements(data, w, size)[i] <= 0x7fff_ffff
  {
    Powers();
    hide Pow2, Get, InBounds;
    ElementAt(data, w, size, i);
    assert Fits(w, Elements(data, w, size)[i]);
  }

  /** At width 64 a sum can overflow. */
  lemma WideSumOverflows()
    ensures var s := [0x7fff_ffff_ffff_ffff, 1];
            && Fits(64, s[0]) && Fits(64, s[1])
            && !PrefixesFit(s, 0, 2) && Accumulated(s, 0, 2) == None
  {
    Powers();
    hide Pow2;
    var s := [0x7fff_ffff_ffff_ffff, 1];
    assert SumOf(s, 0, 1) == 0x7fff_ffff_ffff_ffff;
    assert SumOf(s, 0, 2) == 0x8000_0000_0000_0000;
  }

  lemma {:induction false} WordSum(data: seq<Byte>, w: Width, size: nat, k: nat, pos: nat, m: nat)
    requires (w == 1 || w == 2 || w == 4) && Holds(data, w, size) && pos + 8 <= |data|
    requires 8 * pos == k * w && m <= PerWord(w) && k + m <= size
    ensures LaneSum(LittleEndian(data, pos, 8), w, m) == SumOf(Elements(data, w, size), k, k + m)
  {
    hide LittleEndian, Lane, Elements, Holds, Pow2;
    if m > 0 {
      WordSum(data, w, size, k, pos, m - 1);
      ElementLane(data, w, size, k, pos, m - 1);
    }
  }

  /** Element by element, from `lo` on; the elements from `start` were added already. */
  method SumEach(data: seq<Byte>, w: Width, size: nat, start: nat, lo: nat, hi: nat, s0: Option<int>)
    returns (s: Option<int>)
    requires Holds(data, w, size) && start <= lo <= hi <= size
    requires s0 == Accumulated(Elements(data, w, size), start, lo)
    ensures s == Accumulated(Elements(data, w, size), start, hi)
  {
    hide Elements, Holds, Get, InBounds, Accumulated;
    s := s0;
    var i := lo;
    while i < hi
      invariant lo <= i <= hi && s == Accumulated(Elements(data, w, size), start, i)
    {
      ElementAt(data, w, size, i);
      AccumulateNext(Elements(data, w, size), start, i);
      s := Plus(s, Get(data, w, i));
      i := i + 1;
    }
  }

  /** Element `i` starts on a whole byte. */
  ghost predicate OnByte(w: nat, i: nat) {
    i * w % 8 == 0
  }

  /** Element `k` starts at byte `pos`. */
  ghost predicate StartsAt(w: nat, k: nat, pos: nat) {
    8 * pos == k * w
  }

  /** `k` is reached from `lo` in `t` steps of `n`. */
  ghost predicate Reach(n: nat, lo: nat, t: nat, k: nat) {
    k == lo + n * t
  }

  lemma ReachNext(n: nat, lo: nat, t: nat, k: nat, chunks: nat, end: nat)
    requires Reach(n, lo, t, k) && Reach(n, lo, chunks, end)
    ensures t < chunks ==> Reach(n, lo, t + 1, k + n) && k + n <= end
    ensures t == chunks ==> k == end
  {
    Distrib(n, t, 1);
    if t < chunks {
      MulLe(n, t + 1, chunks);
    }
  }

  lemma StartsNext(w: nat, n: nat, k: nat, pos: nat)
    requires w * n == 64 && StartsAt(w, k, pos)
    ensures StartsAt(w, k + n, pos + 8)
  {
    Distrib(w, k, n);
  }

  /** The elements before the first 16-byte boundary; `address` is where the data start. */
  method AlignedFrom(address: nat, w: Width, start: nat, end: nat) returns (i: nat)
    requires start <= end
    ensures start <= i <= end
    ensures i < end ==> OnByte(w, i)
  {
    i := start;
    while i < end && (address % 16 * 8 + i * w) % 128 != 0
      invariant start <= i <= end
    {
      i := i + 1;
    }
    if i < end {
      ByteAligned(address % 16, i * w);
    }
  }

  lemma ByteAligned(a: nat, b: nat)
    requires (a * 8 + b) % 128 == 0
    ensures b % 8 == 0
  {
    var q := (a * 8 + b) / 128;
    assert b == 8 * (16 * q - a);
  }

  /** The elements of whole words, from `lo`, which starts at byte `pos`, to `end`; the elements
      from `start` were added already. */
  method SumWords(data: seq<Byte>, w: Width, size: nat, start: nat, lo: nat, pos: nat, chunks: nat, s0: Option<int>,
                  ghost end: nat)
    returns (s: Option<int>)
    requires (w == 1 || w == 2 || w == 4) && Holds(data, w, size) && StartsAt(w, lo, pos)
    requires start <= lo <= end <= size <= PackedArray.MAX_ARRAY_SIZE && Reach(PerWord(w), lo, chunks, end)
    requires pos + 8 * chunks <= |data|
    requires s0 == Accumulated(Elements(data, w, size), start, lo)
    ensures s == Accumulated(Elements(data, w, size), start, end)
  {
    hide Elements, Holds, LittleEndian, SumWord, PerWord, Pow2, SumOf, Accumulated, PrefixesFit, Plus, StartsAt;
    ghost var n, k: nat := PerWord(w), lo;
    s := s0;
    var t: nat := 0;
    assert Reach(n, lo, 0, lo);
    hide Reach;
    while t < chunks
      invariant t <= chunks && start <= k <= end && Reach(n, lo, t, k) && StartsAt(w, k, pos + 8 * t)
      invariant s == Accumulated(Elements(data, w, size), start, k)
    {
      ReachNext(n, lo, t, k, chunks, end);
      AccumulateWord(data, w, size, start, k, pos + 8 * t);
      StartsNext(w, n, k, pos + 8 * t);
      s := Plus(s, SumWord(w, LittleEndian(data, pos + 8 * t, 8)));
      t, k := t + 1, k + n;
    }
    ReachNext(n, lo, t, k, chunks, end);
  }

  lemma AccumulateWord(data: seq<Byte>, w: Width, size: nat, start: nat, k: nat, pos: nat)
    requires (w == 1 || w == 2 || w == 4) && Holds(data, w, size) && pos + 8 <= |data|
    requires StartsAt(w, k, pos) && start <= k && k + PerWord(w) <= size <= PackedArray.MAX_ARRAY_SIZE
    ensures Accumulated(Elements(data, w, size), start, k + PerWord(w)) ==
            Plus(Accumulated(Elements(data, w, size), start, k), SumWord(w, LittleEndian(data, pos, 8)))
  {
    hide Elements, Holds, LittleEndian, SumWord, PerWord, Pow2, SumOf, Accumulated, PrefixesFit;
    var n := PerWord(w);
    SumWordExact(w, LittleEndian(data, pos, 8));
    WordSum(data, w, size, k, pos, n);
    SumSplit(Elements(data, w, size), start, k, k + n);
    NarrowSumsFit(data, w, size, start, k);
    NarrowSumsFit(data, w, size, start, k + n);
    LastFits(Elements(data, w, size), start, k + n);
  }

  lemma LastFits(s: seq<int>, lo: nat, hi: nat)
    requires lo <= hi <= |s| && PrefixesFit(s, lo, hi)
    ensures Int64(SumOf(s, lo, hi))
  {
  }

  /** The sum of a range.  An overflow of the int64_t sum, which the source leaves undefined, is
      reported as None; it needs width 64. */
  method Sum(address: nat, data: seq<Byte>, w: Width, size: nat, start: nat, end': nat) returns (s: Option<int>)
    requires Holds(data, w, size) && size <= PackedArray.MAX_ARRAY_SIZE
    requires start <= size && (end' <= size || end' == NPOS) && start <= end'
    ensures var end := if end' == NPOS then size else end';
            && (s.Some? ==> s.value == SumOf(Elements(data, w, size), start, end))
            && (s.Some? <==> PrefixesFit(Elements(data, w, size), start, end))
    ensures w < 64 ==> s.Some?
  {
    hide Elements, Holds, PerWord, SumOf, Pow2, PrefixesFit, Accumulated, OnByte, StartsAt, Reach;
    var end := if end' == NPOS then size else end';
    Outcome(Elements(data, w, size), start, end);
    if w < 64 {
      NarrowSumsFit(data, w, size, start, end);
    }
    NothingAdded(Elements(data, w, size), start);
    if w == 0 || start == end {
      SumZeros(data, w, size, start, end);
      return Some(0);
    }
    var i := AlignedFrom(address, w, start, end);
    s := SumEach(data, w, size, start, start, i, Some(0));
    if (w == 1 || w == 2 || w == 4) && i < end {
      var pos, chunks, next := Chunks(data, w, size, i, end);
      s := SumWords(data, w, size, start, i, pos, chunks, s, next);
      i := next;
    }
    s := SumEach(data, w, size, start, i, end, s);
  }

  lemma NothingAdded(s: seq<int>, lo: nat)
    requires lo <= |s|
    ensures Accumulated(s, lo, lo) == Some(0)
  {
  }

  /** The whole words from element `i` on: where they start, how many there are, and the element after them. */
  method Chunks(data: seq<Byte>, w: Width, size: nat, i: nat, end: nat) returns (pos: nat, chunks: nat, next: nat)
    requires (w == 1 || w == 2 || w == 4) && Holds(data, w, size) && i <= end <= size && OnByte(w, i)
    ensures StartsAt(w, i, pos) && Reach(PerWord(w), i, chunks, next)
    ensures i <= next <= end && pos + 8 * chunks <= |data|
  {
    pos, chunks := i * w / 8, (end - i) * w / 8 / 8;
    next := i + PerWord(w) * chunks;
    ChunksFit(data, w, size, i, end, chunks);
  }

  lemma Outcome(s: seq<int>, lo: nat, hi: nat)
    requires lo <= hi <= |s|
    ensures Accumulated(s, lo, hi).Some? <==> PrefixesFit(s, lo, hi)
    ensures Accumulated(s, lo, hi).Some? ==> Accumulated(s, lo, hi).value == SumOf(s, lo, hi)
  {
  }

  lemma {:induction false} SumZeros(data: seq<Byte>, w: Width, size: nat, lo: nat, hi: nat)
    requires Holds(data, w, size) && lo <= hi <= size && (w == 0 || lo == hi)
    ensures SumOf(Elements(data, w, size), lo, hi) == 0
  {
    if lo < hi {
      ElementAt(data, w, size, hi - 1);
      SumZeros(data, w, size, lo, hi - 1);
    }
  }

  lemma ChunksFit(data: seq<Byte>, w: Width, size: nat, i: nat, end: nat, chunks: nat)
    requires Packed(w) && Holds(data, w, size) && i <= end <= size && i * w % 8 == 0
    requires chunks == (end - i) * w / 8 / 8
    ensures i + PerWord(w) * chunks <= end && i * w / 8 + 8 * chunks <= |data|
  {
    var n := PerWord(w);
    Distrib(w, end, i);
    MulLe(w, end, size);
    var p, q := i * w, end * w;
    assert 64 * chunks <= q - p;
    Assoc(w, n, chunks);
    var x := n * chunks;
    if x > end - i {
      MulLe(w, end - i + 1, x);
      Distrib(w, end - i, 1);
    }
  }

  // ----- counts -----

  function Occurrences(s: seq<int>, value: int, lo: nat, hi: nat): (r: nat)
    requires lo <= hi <= |s|
  {
    if lo == hi then 0 else Occurrences(s, value, lo, hi - 1) + (if s[hi - 1] == value then 1 else 0)
  }

  lemma {:induction false} OccurrencesSplit(s: seq<int>, value: int, lo: nat, mid: nat, hi: nat)
    requires lo <= mid <= hi <= |s|
    ensures Occurrences(s, value, lo, hi) == Occurrences(s, value, lo, mid) + Occurrences(s, value, mid, hi)
  {
    if mid < hi {
      OccurrencesSplit(s, value, lo, mid, hi - 1);
    }
  }

  /** Whether `count` looks at the elements at all. */
  predicate Countable(w: Width, value: int) {
    if w == 32 || w == 64 then true else Fits(w, value)
  }

  /** The value the elements are compared with: at width 32 it is cut to 32 bits. */
  function Compared(w: Width, value: int): (r: int)
    requires Int64(value)
  {
    if w == 32 then
      Powers();
      hide Low, Pow2;
      Signed(32, Low(Unsigned(64, value), 32))
    else value
  }

  /** What the words from the start add. */
  function WordsCount(data: seq<Byte>, w: Width, value: int, k: nat): (r: nat)
    requires Packed(w) && 8 * k <= |data| && Fits(w, value)
  {
    if k == 0 then 0 else WordsCount(data, w, value, k - 1) + CountInWord(w, value, Word(data, k - 1))
  }

  function CountInWord(w: Width, value: int, a: nat): (r: nat)
    requires Packed(w) && a < Pow2(64) && Fits(w, value)
  {
    Powers();
    hide Pow2;
    CountWord(w, value, a)
  }

  function WholeWords(w: Width, size: nat): (r: nat)
    requires Packed(w)
    ensures r * PerWord(w) <= size < r * PerWord(w) + PerWord(w)
  {
    DivMod(size, PerWord(w));
    size / PerWord(w)
  }

  lemma WholeWordsHeld(data: seq<Byte>, w: Width, size: nat)
    requires Packed(w) && Holds(data, w, size)
    ensures 8 * WholeWords(w, size) <= |data|
  {
    hide WholeWords;
    var k, n := WholeWords(w, size), PerWord(w);
    MulLe(w, k * n, size);
    Assoc(w, n, k);
  }

  /** The result of `count` as the code computes it. */
  function Counted(data: seq<Byte>, w: Width, size: nat, value: int): (r: nat)
    requires Holds(data, w, size) && Int64(value)
  {
    if !Countable(w, value) then 0
    else if w == 0 then size
    else if w >= 32 then Occurrences(Elements(data, w, size), Compared(w, value), 0, size)
    else
      WholeWordsHeld(data, w, size);
      var k := WholeWords(w, size);
      WordsCount(data, w, value, k) + Occurrences(Elements(data, w, size), value, k * PerWord(w), size)
  }

  /** Element by element. */
  method CountEach(data: seq<Byte>, w: Width, size: nat, value: int, lo: nat) returns (count: nat)
    requires Holds(data, w, size) && lo <= size
    ensures count == Occurrences(Elements(data, w, size), value, lo, size)
  {
    hide Elements, Holds, Get, InBounds;
    count := 0;
    var i := lo;
    while i < size
      invariant lo <= i <= size && count == Occurrences(Elements(data, w, size), value, lo, i)
    {
      ElementAt(data, w, size, i);
      if Get(data, w, i) == value {
        count := count + 1;
      }
      i := i + 1;
    }
  }

  method Count(data: seq<Byte>, w: Width, size: nat, value: int) returns (count: nat)
    requires Holds(data, w, size) && Int64(value)
    ensures count == Counted(data, w, size, value)
    ensures CountExact(w, size, value) ==> count == Occurrences(Elements(data, w, size), value, 0, size)
  {
    hide Elements, Holds, Fits, Occurrences, CountInWord, LittleEndian, Pow2, Compared, CountExact;
    if CountExact(w, size, value) {
      CountRight(data, w, size, value);
    }
    if w == 0 {
      count := if Fits(0, value) then size else 0;
    } else if w >= 32 {
      count := CountEach(data, w, size, Compared(w, value), 0);
    } else if !Fits(w, value) {
      count := 0;
    } else {
      var n, i, k := PerWord(w), 0, 0;
      WholeWordsHeld(data, w, size);
      ghost var words := WholeWords(w, size);
      hide PerWord, WholeWords;
      count := 0;
      while i + n <= size
        invariant i == k * n <= size && 0 <= k <= words
        invariant count == WordsCount(data, w, value, k)
        decreases size - i
      {
        NextWord(n, k, words, size);
        count := count + CountInWord(w, value, Word(data, k));
        i, k := i + n, k + 1;
      }
      LastWord(n, k, words, size);
      var rest := CountEach(data, w, size, value, i);
      count := count + rest;
    }
  }

  lemma NextWord(n: nat, k: nat, words: nat, size: nat)
    requires words * n <= size < words * n + n && k <= words && k * n + n <= size
    ensures k < words && (k + 1) * n == k * n + n
  {
    Distrib(n, k, 1);
    if k >= words {
      MulLe(n, words, k);
    }
  }

  lemma LastWord(n: nat, k: nat, words: nat, size: nat)
    requires words * n <= size < words * n + n && k <= words && size < k * n + n
    ensures k == words
  {
    if k < words {
      MulLe(n, k + 1, words);
      Distrib(n, k, 1);
    }
  }

  /** When the count is right whatever the array holds: the value is not negative or too
      large at widths 8 and 16 unless fewer elements than fill a word are stored, and at
      width 32 it fits 32 bits unless nothing is stored. */
  predicate CountExact(w: Width, size: nat, value: int) {
    if w == 8 || w == 16 then value >= 0 || !Fits(w, value) || size < PerWord(w)
    else if w == 32 then Fits(32, value) || size == 0
    else true
  }

  lemma {:induction false} AgreeingOccurrences(data: seq<Byte>, w: Width, size: nat, value: int, v: nat, j: nat, k: nat,
      m: nat)
    requires Packed(w) && Holds(data, w, size) && 8 * j + 8 <= |data| && Fits(w, value)
    requires k == j * PerWord(w) && m <= PerWord(w) && k + m <= size
    requires forall i :: 0 <= i < m ==> Lane(v, w, i) == Unsigned(w, value)
    ensures Agreeing(Word(data, j), v, w, m) == Occurrences(Elements(data, w, size), value, k, k + m)
  {
    hide Lane, LittleEndian, Elements, Holds, Pow2, Unsigned, Signed, Fits, PerWord;
    if m > 0 {
      AgreeingOccurrences(data, w, size, value, v, j, k, m - 1);
      assert k * w == 8 * (8 * j) by { LanePosition(w, j, 0); }
      ElementLane(data, w, size, k, 8 * j, m - 1);
      SameValue(w, Lane(Word(data, j), w, m - 1), value);
    }
  }

  /** A word contributes exactly the elements equal to a value that is not negative. */
  lemma WordOccurrences(data: seq<Byte>, w: Width, size: nat, value: int, j: nat, k: nat)
    requires Packed(w) && Holds(data, w, size) && 8 * j + 8 <= |data| && Fits(w, value) && 0 <= value
    requires k == j * PerWord(w) && k + PerWord(w) <= size
    ensures CountInWord(w, value, Word(data, j)) ==
            Occurrences(Elements(data, w, size), value, k, k + PerWord(w))
  {
    hide Lane, LittleEndian, Elements, Holds, Pow2, Occurrences, Agreeing, CountWord, Pattern, Rep, PerWord, Fits,
        Unsigned;
    var a := Word(data, j);
    var v := if w == 1 then Rep(value, 1, 64) else Pattern(w, value);
    CountAgreeing(w, value, a);
    forall i | 0 <= i < PerWord(w) ensures Lane(v, w, i) == Unsigned(w, value) {
      RepeatedLane(w, value, i);
    }
    AgreeingOccurrences(data, w, size, value, v, j, k, PerWord(w));
  }

  lemma CountAgreeing(w: Width, value: int, a: nat)
    requires Packed(w) && a < Pow2(64) && Fits(w, value) && 0 <= value
    ensures CountInWord(w, value, a) ==
            Agreeing(a, if w == 1 then Rep(value, 1, 64) else Pattern(w, value), w, PerWord(w))
  {
    Powers();
    hide Pow2, Agreeing, CountWord, Pattern, Rep;
    if w == 1 {
      CountBits(value, a);
    } else {
      CountWordExact(w, value, a);
    }
  }

  lemma RepeatedLane(w: Width, value: int, i: nat)
    requires Packed(w) && i < PerWord(w) && Fits(w, value) && 0 <= value
    ensures Lane(if w == 1 then Rep(value, 1, 64) else Pattern(w, value), w, i) == Unsigned(w, value)
  {
    Powers();
    hide Pow2, Lane, Pattern, Rep;
    if w == 1 {
      RepLane(value, 1, 64, i);
    } else {
      PatternLane(w, value, i);
    }
  }

  lemma {:induction false} WordsOccurrences(data: seq<Byte>, w: Width, size: nat, value: int, k: nat)
    requires Packed(w) && Holds(data, w, size) && 8 * k <= |data| && Fits(w, value) && 0 <= value
    requires k * PerWord(w) <= size
    ensures WordsCount(data, w, value, k) == Occurrences(Elements(data, w, size), value, 0, k * PerWord(w))
  {
    hide LittleEndian, Elements, Holds, Pow2, CountInWord, PerWord, Fits;
    if k > 0 {
      var n := PerWord(w);
      Distrib(n, k, 1);
      WordsOccurrences(data, w, size, value, k - 1);
      WordOccurrences(data, w, size, value, k - 1, (k - 1) * n);
      OccurrencesSplit(Elements(data, w, size), value, 0, (k - 1) * n, k * n);
    }
  }

  lemma {:induction false} NoOccurrences(data: seq<Byte>, w: Width, size: nat, value: int, hi: nat)
    requires Holds(data, w, size) && !Fits(w, value) && hi <= size
    ensures Occurrences(Elements(data, w, size), value, 0, hi) == 0
  {
    hide Elements, Holds, Fits, Get;
    if hi > 0 {
      NoOccurrences(data, w, size, value, hi - 1);
      ElementAt(data, w, size, hi - 1);
    }
  }

  lemma {:induction false} AllOccurrences(s: seq<int>, value: int, lo: nat, hi: nat)
    requires lo <= hi <= |s| && forall i :: lo <= i < hi ==> s[i] == value
    ensures Occurrences(s, value, lo, hi) == hi - lo
  {
    if lo < hi {
      AllOccurrences(s, value, lo, hi - 1);
    }
  }

  lemma ComparedSame(w: Width, value: int)
    requires Int64(value) && Fits(w, value)
    ensures Compared(w, value) == value
  {
    if w == 32 {
      LowOfValue(w, value);
      SignedUnsigned(w, value);
    }
  }

  /** In these cases the word expressions count exactly the elements equal to the value. */
  lemma CountRight(data: seq<Byte>, w: Width, size: nat, value: int)
    requires Holds(data, w, size) && Int64(value) && CountExact(w, size, value)
    ensures Counted(data, w, size, value) == Occurrences(Elements(data, w, size), value, 0, size)
  {
    hide LittleEndian, Holds, Pow2, CountInWord, Get;
    if !Countable(w, value) {
      NoOccurrences(data, w, size, value, size);
    } else if w == 0 {
      forall i | 0 <= i < size ensures Elements(data, w, size)[i] == 0 {
        ElementAt(data, w, size, i);
        assert Get(data, 0, i) == 0 by { ZeroWidth(data, i); }
      }
      assert value == 0 by { Powers(); }
      AllOccurrences(Elements(data, w, size), value, 0, size);
    } else if w == 64 || size == 0 {
    } else if w == 32 {
      ComparedSame(w, value);
    } else {
      WholeWordsHeld(data, w, size);
      var k := WholeWords(w, size);
      if 0 <= value {
        WordsOccurrences(data, w, size, value, k);
      } else {
        assert k == 0 by { FewerThanAWord(w, size, k); }
      }
      OccurrencesSplit(Elements(data, w, size), value, 0, k * PerWord(w), size);
    }
  }

  lemma ZeroWidth(data: seq<Byte>, i: nat)
    requires InBounds(data, i * 0, 0)
    ensures Get(data, 0, i) == 0
  {
    Powers();
    assert Fits(0, Get(data, 0, i));
  }

  lemma FewerThanAWord(w: Width, size: nat, k: nat)
    requires Packed(w) && size < PerWord(w) && k * PerWord(w) <= size
    ensures k == 0
  {
    if k > 0 {
      MulLe(PerWord(w), 1, k);
    }
  }

  // ----- where the count goes wrong -----

  /** Against the pattern of a negative value, a word of elements all equal to it agrees in one lane only. */
  lemma {:induction false} OneAgrees(data: seq<Byte>, w: Width, size: nat, value: int, j: nat, k: nat, m: nat)
    requires (w == 8 || w == 16) && Holds(data, w, size) && 8 * j + 8 <= |data| && Fits(w, value) && value < 0
    requires k == j * PerWord(w) && m <= PerWord(w) && k + m <= size
    requires forall i :: 0 <= i < size ==> Elements(data, w, size)[i] == value
    ensures Agreeing(Word(data, j), Pattern(w, value), w, m) == if m == 0 then 0 else 1
  {
    hide Lane, LittleEndian, Elements, Holds, Pow2, Pattern, PerWord, Signed;
    if m > 0 {
      OneAgrees(data, w, size, value, j, k, m - 1);
      assert k * w == 8 * (8 * j) by { LanePosition(w, j, 0); }
      ElementLane(data, w, size, k, 8 * j, m - 1);
      SameValue(w, Lane(Word(data, j), w, m - 1), value);
      PatternLane(w, value, m - 1);
    }
  }

  lemma {:induction false} OnePerWord(data: seq<Byte>, w: Width, size: nat, value: int, k: nat)
    requires (w == 8 || w == 16) && Holds(data, w, size) && 8 * k <= |data| && Fits(w, value) && value < 0
    requires k * PerWord(w) <= size
    requires forall i :: 0 <= i < size ==> Elements(data, w, size)[i] == value
    ensures WordsCount(data, w, value, k) == k
  {
    hide LittleEndian, Elements, Holds, Pow2, CountWord, PerWord, Fits, Pattern, Agreeing;
    if k > 0 {
      var n := PerWord(w);
      Distrib(n, k, 1);
      OnePerWord(data, w, size, value, k - 1);
      CountWordExact(w, value, Word(data, k - 1));
      OneAgrees(data, w, size, value, k - 1, (k - 1) * n, n);
    }
  }

  /** In every other case some array of that width and size is counted wrongly. */
  lemma CountWrong(w: Width, size: nat, value: int) returns (data: seq<Byte>)
    requires Int64(value) && !CountExact(w, size, value)
    ensures Holds(data, w, size)
    ensures Counted(data, w, size, value) != Occurrences(Elements(data, w, size), value, 0, size)
  {
    hide LittleEndian, Holds, Pow2, CountInWord, Elements;
    var x := Compared(w, value);
    var t := seq(size, i => x);
    data := PackedArray.Encoded(w, t);
    AllOccurrences(t, x, 0, size);
    if w == 32 {
      NoOccurrences(data, w, size, value, size);
    } else {
      WholeWordsHeld(data, w, size);
      var k := WholeWords(w, size);
      OnePerWord(data, w, size, value, k);
      AllOccurrences(t, value, k * PerWord(w), size);
      MissedElements(PerWord(w), k, size);
    }
  }

  lemma MissedElements(n: nat, k: nat, size: nat)
    requires 1 < n <= size && k * n <= size < k * n + n
    ensures k + (size - k * n) < size
  {
    MulLe(k, 2, n);
    assert k == 0 ==> k * n == 0;
  }
}
