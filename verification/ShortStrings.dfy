/** Short strings in blocks of equal length.

    The last byte of a block counts the zero bytes that follow the string in the
    block; the length of the block there means null. Longer strings make all
    blocks longer, in the same buffer and from the last block to the first.
 */
module ShortStrings {
  import opened Options
  import opened Bits
  import opened DirectAccess
  import opened StringData
  import P = PackedArray
  import WordCount

  const MAX_WIDTH := 64

  // ----- block lengths -----

  /** The block length for `size` bytes. */
  function RoundUp(size: nat): (r: nat)
    requires size <= 256
  {
    if size <= 2 then size else WordCount.SpreadLane(8, size - 1, 1) + 1
  }

  lemma {:induction false} OnesBelow(y: nat, k: nat)
    requires forall p :: 0 <= p ==> (WordCount.Bit(y, p) <==> p < k)
    ensures y == Pow2(k) - 1
    decreases k
  {
    if k == 0 {
      NoBits(y);
    } else {
      assert WordCount.Bit(y, 0) && y % 2 == 1;
      forall p | 0 <= p ensures WordCount.Bit(y / 2, p) <==> p < k - 1 {
        assert WordCount.Bit(y, p + 1) <==> p + 1 < k;
      }
      OnesBelow(y / 2, k - 1);
    }
  }

  lemma {:induction false} NoBits(y: nat)
    requires forall p :: 0 <= p ==> !WordCount.Bit(y, p)
    ensures y == 0
    decreases y
  {
    assert !WordCount.Bit(y, 0) && y % 2 == 0;
    if y > 0 {
      forall p | 0 <= p ensures !WordCount.Bit(y / 2, p) {
        assert !WordCount.Bit(y, p + 1);
      }
      NoBits(y / 2);
    }
  }

  lemma {:induction false} SpreadAll(w: nat, y: nat, x: nat, s: nat) returns (t: nat)
    requires 0 < s && WordCount.Covers(y, x, s)
    ensures t >= w && WordCount.Covers(WordCount.SpreadLane(w, y, s), x, t)
    decreases w - s
  {
    hide WordCount.Covers;
    if s >= w {
      t := s;
    } else {
      WordCount.CoversStep(y, x, s);
      t := SpreadAll(w, Or(y, High(y, s)), x, 2 * s);
    }
  }

  lemma {:induction false} HighZero(x: nat, p: nat)
    ensures High(x, p) == 0 <==> x < Pow2(p)
  {
    LowHigh(x, p);
    if High(x, p) > 0 {
      MulLe(Pow2(p), 1, High(x, p));
    }
  }

  /** The block length is the least power of two that is large enough. */
  lemma RoundUpLeast(size: nat, k: nat)
    requires 2 < size <= 256 && 0 < k && Pow2(k - 1) < size <= Pow2(k)
    ensures RoundUp(size) == Pow2(k)
  {
    hide Pow2, WordCount.SpreadLane, WordCount.Bit, High, Low;
    Powers();
    var x := size - 1;
    WordCount.CoversSelf(x);
    var y := WordCount.SpreadLane(8, x, 1);
    var t := SpreadAll(8, x, x, 1);
    Pow2Mono(8, t);
    hide Field;
    forall p | 0 <= p ensures WordCount.Bit(y, p) <==> p < k {
      assert WordCount.Bit(y, p) <==> Field(x, p, t) != 0;
      SpreadBit(x, p, t, k);
    }
    OnesBelow(y, k);
  }

  lemma SpreadBit(x: nat, p: nat, t: nat, k: nat)
    requires x < Pow2(t) && 0 < k && Pow2(k - 1) <= x < Pow2(k)
    ensures Field(x, p, t) != 0 <==> p < k
  {
    hide Pow2, High, Low;
    LowSmall(High(x, p), t);
    HighZero(x, p);
    if p < k {
      Pow2Mono(p, k - 1);
    } else {
      Pow2Mono(k, p);
    }
  }

  lemma RoundUpEnough(size: nat)
    requires size <= MAX_WIDTH
    ensures size <= RoundUp(size) <= MAX_WIDTH && (size > 0 ==> RoundUp(size) > 0)
  {
    Powers();
    assert Pow2(5) == 32 && Pow2(6) == 64;
    hide Pow2, RoundUp;
    SmallSizes(size);
    if 2 < size <= 4 {
      RoundUpLeast(size, 2);
    } else if 4 < size <= 8 {
      RoundUpLeast(size, 3);
    } else if 8 < size <= 16 {
      RoundUpLeast(size, 4);
    } else if 16 < size <= 32 {
      RoundUpLeast(size, 5);
    } else if 32 < size {
      RoundUpLeast(size, 6);
    }
  }

  lemma SmallSizes(size: nat)
    ensures size <= 2 ==> RoundUp(size) == size
  {
  }

  // ----- blocks -----

  function Zeros(n: nat): (r: seq<Byte>)
    ensures |r| == n && forall k :: 0 <= k < n ==> r[k] == 0
  {
    seq(n, i => 0)
  }

  /** The block of `w` bytes for a string shorter than that, or for null. */
  function Encode(w: nat, v: Str): (b: seq<Byte>)
    requires 0 < w <= MAX_WIDTH && (v.Some? ==> |v.value| < w)
    ensures |b| == w
  {
    if v.Some? then v.value + Zeros(w - 1 - |v.value|) + [w - 1 - |v.value|] else Zeros(w - 1) + [w]
  }

  function NoString(nullable: bool): (v: Str) {
    if nullable then None else Some([])
  }

  /** The last byte is at most the length, and that many bytes before it are zero. */
  ghost predicate Formed(w: nat, b: seq<Byte>) {
    && 0 < w == |b| && b[w - 1] <= w
    && forall k :: 0 <= k < w - 1 && w - 1 - b[w - 1] <= k ==> b[k] == 0
  }

  function Decode(nullable: bool, b: seq<Byte>): (v: Str)
    requires |b| > 0 && b[|b| - 1] <= |b|
  {
    var w := |b|;
    if b[w - 1] == w then NoString(nullable) else Some(b[..w - 1 - b[w - 1]])
  }

  /** A string is read back from its block, with a zero byte after it; null and the empty string
      differ where there are nulls. */
  lemma DecodeEncoded(nullable: bool, w: nat, v: Str)
    requires 0 < w <= MAX_WIDTH && (v.Some? ==> |v.value| < w)
    ensures Formed(w, Encode(w, v)) && Decode(nullable, Encode(w, v)) == Shown(nullable, v)
    ensures v.Some? ==> Encode(w, v)[|v.value|] == 0
  {
    if v.Some? {
      assert Encode(w, v)[..|v.value|] == v.value;
    }
  }

  /** A block made longer: the string, more zeros, and the last byte raised by as many (as a char). */
  function Reblocked(b: seq<Byte>, w: nat): (r: seq<Byte>)
    requires 0 < |b| <= w
    ensures |r| == w
  {
    var old' := |b|;
    b[..old' - 1] + Zeros(w - old') + [(b[old' - 1] + (w - old')) % 256]
  }

  /** A longer block holds the same string, or null. */
  lemma ReblockedSame(nullable: bool, b: seq<Byte>, w: nat)
    requires Formed(|b|, b) && |b| <= w <= MAX_WIDTH
    ensures Formed(w, Reblocked(b, w)) && Decode(nullable, Reblocked(b, w)) == Decode(nullable, b)
  {
    var r, n := Reblocked(b, w), |b|;
    assert r[w - 1] == b[n - 1] + (w - n);
    if b[n - 1] < n {
      var k := n - 1 - b[n - 1];
      assert w - 1 - r[w - 1] == k;
      assert r[..k] == b[..k];
    }
  }

  // ----- a buffer of blocks -----

  ghost function Block(s: seq<Byte>, w: nat, i: nat): (b: seq<Byte>)
    requires i * w + w <= |s|
    ensures |b| == w
  {
    s[i * w..i * w + w]
  }

  lemma Inside(w: nat, i: nat, n: nat)
    requires i < n
    ensures i * w + w <= n * w && 0 <= i * w
  {
    P.BytePositions(w, i, n);
  }

  /** All `n` blocks but `hole` are formed. */
  ghost predicate Good(s: seq<Byte>, w: nat, n: nat, hole: int) {
    && n * w <= |s|
    && (w > 0 ==> forall i :: 0 <= i < n && i != hole ==> GoodAt(s, w, i))
  }

  ghost predicate GoodAt(s: seq<Byte>, w: nat, i: nat) {
    i * w + w <= |s| && Formed(w, Block(s, w, i))
  }

  ghost function ValueAt(s: seq<Byte>, w: nat, i: nat, nullable: bool): (v: Str)
    requires w > 0 ==> GoodAt(s, w, i)
  {
    if w == 0 then NoString(nullable) else Decode(nullable, Block(s, w, i))
  }

  /** The strings in a buffer. */
  ghost function Values(s: seq<Byte>, w: nat, n: nat, nullable: bool): (r: seq<Str>)
    requires Good(s, w, n, -1)
    ensures |r| == n
  {
    seq(n, i requires 0 <= i < n => ValueAt(s, w, i, nullable))
  }

  /** Blocks that are not written to stay. */
  lemma BlockKept(s: seq<Byte>, s': seq<Byte>, w: nat, i: nat, lo: nat, hi: nat)
    requires |s| == |s'| && i * w + w <= |s| && lo <= hi <= |s|
    requires s[..lo] == s'[..lo] && s[hi..] == s'[hi..]
    requires i * w + w <= lo || hi <= i * w
    ensures Block(s', w, i) == Block(s, w, i)
  {
    SliceKept(s, s', i * w, w, lo, hi);
  }

  lemma SliceKept(s: seq<Byte>, s': seq<Byte>, p: nat, w: nat, lo: nat, hi: nat)
    requires |s| == |s'| && p + w <= |s| && lo <= hi <= |s| && s[..lo] == s'[..lo] && s[hi..] == s'[hi..]
    requires p + w <= lo || hi <= p
    ensures s'[p..p + w] == s[p..p + w]
  {
    forall k | p <= k < p + w ensures s'[k] == s[k] {
      if k < lo {
        assert s[k] == s[..lo][k] && s'[k] == s'[..lo][k];
      } else {
        assert s[k] == s[hi..][k - hi] && s'[k] == s'[hi..][k - hi];
      }
    }
  }

  /** Makes one block longer: bytes `o` to `o + ow` become bytes `n` to `n + nw`. */
  method ReblockOne(a: array<Byte>, o: nat, ow: nat, n: nat, nw: nat)
    requires 0 < ow < nw && o <= n && n + nw <= a.Length
    modifies a
    ensures a[..n] == old(a[..])[..n] && a[n + nw..] == old(a[..])[n + nw..]
    ensures a[n..n + nw] == Reblocked(old(a[..])[o..o + ow], nw)
  {
    hide Reblocked, P.Moved;
    ghost var s := a[..];
    var x := (a[o + ow - 1] + (nw - ow)) % 256;
    a[n + nw - 1] := x;
    P.Overwrite(a, n + ow - 1, Zeros(nw - ow));
    P.CopyBackward(a, o, o + ow - 1, n - o);
    ReblockedBytes(s, a[..], o, ow, n, nw);
    assert a[..n] == a[..][..n] && a[n + nw..] == a[..][n + nw..] && a[n..n + nw] == a[..][n..n + nw];
  }

  lemma ReblockedBytes(s: seq<Byte>, r: seq<Byte>, o: nat, ow: nat, n: nat, nw: nat)
    requires 0 < ow < nw && o <= n && n + nw <= |s|
    requires var s' := s[n + nw - 1 := (s[o + ow - 1] + (nw - ow)) % 256];
             r == P.Moved(s'[..n + ow - 1] + Zeros(nw - ow) + s'[n + nw - 1..], o, o + ow - 1, n)
    ensures |r| == |s| && r[..n] == s[..n] && r[n + nw..] == s[n + nw..]
    ensures r[n..n + nw] == Reblocked(s[o..o + ow], nw)
  {
    var x := (s[o + ow - 1] + (nw - ow)) % 256;
    var s' := s[n + nw - 1 := x];
    var t := s'[..n + ow - 1] + Zeros(nw - ow) + s'[n + nw - 1..];
    var b := s[o..o + ow];
    forall k | 0 <= k < |s|
      ensures r[k] == if n <= k < n + nw then Reblocked(b, nw)[k - n] else s[k]
    {
      ReblockedByte(s, t, r, b, x, o, ow, n, nw, k);
    }
    hide P.Moved, Reblocked;
  }

  lemma ReblockedByte(s: seq<Byte>, t: seq<Byte>, r: seq<Byte>, b: seq<Byte>, x: Byte, o: nat, ow: nat, n: nat, nw: nat,
      k: nat)
    requires 0 < ow < nw && o <= n && n + nw <= |s| && k < |s| && b == s[o..o + ow] &&
             x == (b[ow - 1] + (nw - ow)) % 256
    requires var s' := s[n + nw - 1 := x]; t == s'[..n + ow - 1] + Zeros(nw - ow) + s'[n + nw - 1..]
    requires r == P.Moved(t, o, o + ow - 1, n)
    ensures r[k] == if n <= k < n + nw then Reblocked(b, nw)[k - n] else s[k]
  {
    hide P.Moved, Reblocked;
    P.MovedElement(t, o, o + ow - 1, n, k);
    PaddedByte(s, t, x, n, ow, nw, k);
    if n <= k < n + nw {
      ReblockedAt(b, nw, k - n);
      if k < n + ow - 1 {
        PaddedByte(s, t, x, n, ow, nw, o + (k - n));
      }
    }
  }

  lemma ReblockedAt(b: seq<Byte>, w: nat, j: nat)
    requires 0 < |b| <= w && j < w
    ensures Reblocked(b, w)[j] ==
            if j < |b| - 1 then b[j] else if j < w - 1 then 0 else (b[|b| - 1] + (w - |b|)) % 256
  {
  }

  lemma PaddedByte(s: seq<Byte>, t: seq<Byte>, x: Byte, n: nat, ow: nat, nw: nat, k: nat)
    requires 0 < ow < nw && n + nw <= |s| && k < |s|
    requires var s' := s[n + nw - 1 := x]; t == s'[..n + ow - 1] + Zeros(nw - ow) + s'[n + nw - 1..]
    ensures t[k] == if k < n + ow - 1 then s[k] else if k < n + nw - 1 then 0 else if k == n + nw - 1 then x else s[k]
  {
  }

  /** Makes all blocks longer, the last one first. */
  method Reblock(a: array<Byte>, ow: nat, nw: nat, size: nat)
    requires 0 < ow < nw && size * ow <= size * nw <= a.Length
    modifies a
    ensures forall i :: 0 <= i < size ==> BlockMoved(old(a[..]), ow, a[..], nw, i)
  {
    hide BlockMoved, P.At, Reblocked;
    ghost var s, i: nat := a[..], size;
    var newEnd: nat, oldEnd: nat := size * nw, size * ow;
    ReblockStart(ow, nw, size);
    while newEnd != 0
      invariant i <= size && newEnd <= a.Length && P.At(nw, i, newEnd) && P.At(ow, i, oldEnd) && oldEnd <= newEnd
      invariant a[..oldEnd] == s[..oldEnd]
      invariant forall j :: i <= j < size ==> BlockMoved(s, ow, a[..], nw, j)
      decreases newEnd
    {
      ReblockStep(ow, nw, i, newEnd, oldEnd);
      ghost var t := a[..];
      SliceOfPrefix(s, t, oldEnd, oldEnd - ow);
      newEnd, oldEnd := newEnd - nw, oldEnd - ow;
      ReblockOne(a, oldEnd, ow, newEnd, nw);
      assert a[..][newEnd..newEnd + nw] == a[newEnd..newEnd + nw] && a[..][..newEnd] == a[..newEnd];
      assert a[..][newEnd + nw..] == a[newEnd + nw..];
      SliceOfPrefix(t, a[..], newEnd, 0);
      BlockMade(s, ow, t, a[..], nw, i - 1, oldEnd, newEnd);
      forall j | i <= j < size ensures BlockMoved(s, ow, a[..], nw, j) {
        LaterKept(s, ow, t, a[..], nw, i, j, newEnd);
      }
      i := i - 1;
    }
    NoneLeft(nw, i);
  }

  lemma SliceOfPrefix(s: seq<Byte>, t: seq<Byte>, n: nat, m: nat)
    requires m <= n <= |s| && n <= |t| && s[..n] == t[..n]
    ensures s[m..n] == t[m..n] && forall k :: 0 <= k <= n ==> s[..k] == t[..k]
  {
    assert s[m..n] == s[..n][m..] && t[m..n] == t[..n][m..];
    forall k | 0 <= k <= n ensures s[..k] == t[..k] {
      assert s[..k] == s[..n][..k] && t[..k] == t[..n][..k];
    }
  }

  /** Block `i` of `t` is block `i` of `s` made longer. */
  ghost predicate BlockMoved(s: seq<Byte>, ow: nat, t: seq<Byte>, nw: nat, i: nat) {
    && 0 < ow <= nw && i * ow + ow <= |s| && i * nw + nw <= |t|
    && Block(t, nw, i) == Reblocked(Block(s, ow, i), nw)
  }

  lemma ReblockStart(ow: nat, nw: nat, size: nat)
    ensures P.At(nw, size, size * nw) && P.At(ow, size, size * ow)
  {
  }

  lemma NoneLeft(nw: nat, i: nat)
    requires 0 < nw && P.At(nw, i, 0)
    ensures i == 0
  {
    if i > 0 {
      MulPos(i, nw);
    }
  }

  lemma ReblockStep(ow: nat, nw: nat, i: nat, newEnd: nat, oldEnd: nat)
    requires 0 < ow < nw && P.At(nw, i, newEnd) && P.At(ow, i, oldEnd) && newEnd > 0
    ensures 0 < i && nw <= newEnd && ow <= oldEnd && oldEnd - ow <= newEnd - nw
    ensures P.At(nw, i - 1, newEnd - nw) && P.At(ow, i - 1, oldEnd - ow)
  {
    assert i > 0 by { assert i == 0 ==> i * nw == 0; }
    Distrib(nw, i, 1);
    Distrib(ow, i, 1);
    MulLe(i - 1, ow, nw);
    MulLe(nw, 0, i - 1);
    MulLe(ow, 0, i - 1);
  }

  lemma BlockMade(s: seq<Byte>, ow: nat, t: seq<Byte>, t': seq<Byte>, nw: nat, i: nat, o: nat, n: nat)
    requires 0 < ow < nw && P.At(ow, i, o) && P.At(nw, i, n) && o + ow <= |t| <= |s| && n + nw <= |t|
    requires t[o..o + ow] == s[o..o + ow] && |t'| == |t| && t'[n..n + nw] == Reblocked(t[o..o + ow], nw)
    ensures BlockMoved(s, ow, t', nw, i)
  {
  }

  lemma LaterKept(s: seq<Byte>, ow: nat, t: seq<Byte>, t': seq<Byte>, nw: nat, i: nat, j: nat, n: nat)
    requires 0 < i <= j && P.At(nw, i - 1, n) && n + nw <= |t| == |t'| && BlockMoved(s, ow, t, nw, j)
    requires t'[..n] == t[..n] && t'[n + nw..] == t[n + nw..]
    ensures BlockMoved(s, ow, t', nw, j)
  {
    Inside(nw, i - 1, j);
    BlockKept(t, t', nw, j, n, n + nw);
  }

  // ----- what the steps do to the strings -----

  /** `s'` at width `w'` holds the same strings as `s` at width `w`, except at `hole`. */
  ghost predicate SameBut(s: seq<Byte>, w: nat, s': seq<Byte>, w': nat, n: nat, hole: int, nullable: bool)
    requires Good(s, w, n, hole) && Good(s', w', n, hole)
  {
    forall i :: 0 <= i < n && i != hole ==> ValueAt(s', w', i, nullable) == ValueAt(s, w, i, nullable)
  }

  lemma AfterReblock(s: seq<Byte>, ow: nat, s': seq<Byte>, nw: nat, n: nat, hole: int, nullable: bool)
    requires Good(s, ow, n, hole) && 0 < ow < nw <= MAX_WIDTH && n * nw <= |s'|
    requires forall i :: 0 <= i < n ==> BlockMoved(s, ow, s', nw, i)
    ensures Good(s', nw, n, hole) && SameBut(s, ow, s', nw, n, hole, nullable)
  {
    forall i | 0 <= i < n && i != hole
      ensures GoodAt(s', nw, i) && ValueAt(s', nw, i, nullable) == ValueAt(s, ow, i, nullable)
    {
      assert BlockMoved(s, ow, s', nw, i) && GoodAt(s, ow, i);
      ReblockedSame(nullable, Block(s, ow, i), nw);
    }
  }

  lemma AfterPut(s: seq<Byte>, s': seq<Byte>, w: nat, n: nat, x: nat, p: nat, v: Str, nullable: bool)
    requires Good(s, w, n, x) && x < n && 0 < w <= MAX_WIDTH && P.At(w, x, p) && |s'| == |s| && p + w <= |s|
    requires v.Some? ==> |v.value| < w
    requires s'[..p] == s[..p] && s'[p + w..] == s[p + w..] && s'[p..p + w] == Encode(w, v)
    ensures Good(s', w, n, -1) && SameBut(s, w, s', w, n, x, nullable)
    ensures ValueAt(s', w, x, nullable) == Shown(nullable, v)
  {
    DecodeEncoded(nullable, w, v);
    assert GoodAt(s', w, x);
    hide Encode, Formed, Decode;
    forall i | 0 <= i < n && i != x
      ensures GoodAt(s', w, i) && ValueAt(s', w, i, nullable) == ValueAt(s, w, i, nullable)
    {
      assert GoodAt(s, w, i);
      if i < x {
        Inside(w, i, x);
      } else {
        Inside(w, x, i);
      }
      BlockKept(s, s', w, i, p, p + w);
    }
  }

  lemma SameTwice(s: seq<Byte>, t: seq<Byte>, w: nat, u: seq<Byte>, w': nat, n: nat, hole: int, nullable: bool)
    requires Good(s, w, n, hole) && Good(t, w, n, hole) && Good(u, w', n, hole)
    requires SameBut(s, w, t, w, n, hole, nullable) && SameBut(t, w, u, w', n, hole, nullable)
    ensures SameBut(s, w, u, w', n, hole, nullable)
  {
    hide GoodAt, Decode;
  }

  lemma FilledSame(s: seq<Byte>, t: seq<Byte>, w: nat, n: nat, hole: int, nullable: bool)
    requires Good(s, 0, n, hole) && Good(t, w, n, -1) && w > 0
    requires forall i :: 0 <= i < n ==> ValueAt(t, w, i, nullable) == NoString(nullable)
    ensures Good(t, w, n, hole) && SameBut(s, 0, t, w, n, hole, nullable)
  {
    hide GoodAt, Decode;
  }

  /** A longer buffer holds the same blocks. */
  lemma AfterCopy(s: seq<Byte>, s': seq<Byte>, w: nat, n: nat, nullable: bool)
    requires Good(s, w, n, -1) && s <= s'
    ensures Good(s', w, n, -1) && Values(s', w, n, nullable) == Values(s, w, n, nullable)
  {
    if w > 0 {
      forall i | 0 <= i < n
        ensures GoodAt(s', w, i) && ValueAt(s', w, i, nullable) == ValueAt(s, w, i, nullable)
      {
        assert GoodAt(s, w, i);
        SliceOfLonger(s, s', i * w, w);
      }
    }
  }

  lemma SliceOfLonger(s: seq<Byte>, s': seq<Byte>, p: nat, w: nat)
    requires s <= s' && p + w <= |s|
    ensures s'[p..p + w] == s[p..p + w]
  {
    forall k | p <= k < p + w ensures s'[k] == s[k] {
    }
  }

  lemma BlockIs(s: seq<Byte>, w: nat, i: nat, p: nat)
    requires P.At(w, i, p) && p + w <= |s|
    ensures i * w + w <= |s| && Block(s, w, i) == s[p..p + w]
  {
  }

  lemma Next(w: nat, i: nat, p: nat)
    requires P.At(w, i, p)
    ensures P.At(w, i + 1, p + w)
  {
    Distrib(w, i, 1);
  }

  lemma Ordered(w: nat, i: nat, p: nat, j: nat, q: nat)
    requires P.At(w, i, p) && P.At(w, j, q)
    ensures i <= j ==> p <= q
    ensures i < j ==> p + w <= q
  {
    if i <= j {
      P.BytePositions(w, i, j);
    }
  }

  /** `s` holds the strings `all` in its `n` blocks except block `x`. */
  ghost predicate Shifted(all: seq<Str>, s: seq<Byte>, w: nat, n: nat, x: nat, nullable: bool)
    requires Good(s, w, n, x) && x < n == |all| + 1
  {
    forall j :: 0 <= j < n && j != x ==> ValueAt(s, w, j, nullable) == all[if j < x then j else j - 1]
  }

  lemma GapRoom(w: nat, x: nat, n: nat, room: nat)
    requires (n + 1) * w <= room
    ensures P.At(w, x, x * w) && P.At(w, n, n * w) && n * w + w <= room
  {
    Distrib(w, n, 1);
  }

  lemma AllEmpty(s: seq<Byte>, n: nat, x: nat, nullable: bool)
    requires x <= n
    ensures Good(s, 0, n, -1) && Good(s, 0, n + 1, x)
    ensures Shifted(Values(s, 0, n, nullable), s, 0, n + 1, x, nullable)
  {
  }

  lemma InsertedIs(all: seq<Str>, r: seq<Str>, x: nat, v: Str)
    requires |r| == |all| + 1 && x <= |all| && r[x] == v
    requires forall j :: 0 <= j < |r| && j != x ==> r[j] == all[if j < x then j else j - 1]
    ensures r == all[..x] + [v] + all[x..]
  {
  }

  /** Opening a gap of one block. */
  lemma AfterGap(s: seq<Byte>, w: nat, n: nat, x: nat, from: nat, to: nat, at: nat, nullable: bool)
    requires Good(s, w, n, -1) && 0 < w && x <= n && to + w <= |s| && P.At(w, x, from) && P.At(w, n, to) &&
             at == from + w
    ensures from <= to
    ensures Good(P.Moved(s, from, to, at), w, n + 1, x)
    ensures Shifted(Values(s, w, n, nullable), P.Moved(s, from, to, at), w, n + 1, x, nullable)
  {
    Next(w, n, to);
    Ordered(w, x, from, n, to);
    assert P.At(w, n + 1, to + w) ==> (n + 1) * w == to + w;
    hide P.Moved, P.At, Formed, Decode;
    var t := P.Moved(s, from, to, at);
    forall j | 0 <= j <= n && j != x
      ensures GoodAt(t, w, j) && ValueAt(t, w, j, nullable) == Values(s, w, n, nullable)[if j < x then j else j - 1]
    {
      GapBlock(s, w, n, x, from, to, j);
    }
  }

  lemma GapBlock(s: seq<Byte>, w: nat, n: nat, x: nat, from: nat, to: nat, j: nat)
    requires Good(s, w, n, -1) && 0 < w && x <= n && P.At(w, x, from) && P.At(w, n, to) && j <= n && j != x
    requires from <= to && to + w <= |s|
    ensures var t, i := P.Moved(s, from, to, from + w), if j < x then j else j - 1;
            GoodAt(s, w, i) && j * w + w <= |t| && Block(t, w, j) == Block(s, w, i)
  {
    var i := if j < x then j else j - 1;
    assert GoodAt(s, w, i);
    var p := i * w;
    assert P.At(w, i, p);
    Next(w, i, p);
    Ordered(w, i, p, n, to);
    Ordered(w, i, p, x, from);
    Ordered(w, x, from, i, p);
    hide P.Moved, P.At;
    P.MovedSlices(s, from, to, from + w, p, w);
    BlockIs(s, w, i, p);
    BlockIs(P.Moved(s, from, to, from + w), w, j, if j < x then p else p + w);
  }

  /** Closing one block. */
  lemma AfterErase(s: seq<Byte>, w: nat, n: nat, x: nat, at: nat, from: nat, to: nat, nullable: bool)
    requires Good(s, w, n, -1) && 0 < w && x < n && P.At(w, x, at) && P.At(w, x + 1, from) && P.At(w, n, to)
    ensures at <= from <= to <= |s| && from == at + w
    ensures Good(P.Moved(s, from, to, at), w, n - 1, -1)
    ensures Values(P.Moved(s, from, to, at), w, n - 1, nullable) ==
            Values(s, w, n, nullable)[..x] + Values(s, w, n, nullable)[x + 1..]
  {
    Next(w, x, at);
    Ordered(w, x + 1, from, n, to);
    MulLe(w, n - 1, n);
    hide P.Moved, P.At, Formed, Decode;
    var t := P.Moved(s, from, to, at);
    forall i | 0 <= i < n - 1
      ensures GoodAt(t, w, i) && ValueAt(t, w, i, nullable) == Values(s, w, n, nullable)[if i < x then i else i + 1]
    {
      EraseBlock(s, w, n, x, at, from, to, i);
    }
  }

  lemma EraseBlock(s: seq<Byte>, w: nat, n: nat, x: nat, at: nat, from: nat, to: nat, i: nat)
    requires Good(s, w, n, -1) && 0 < w && x < n && P.At(w, x, at) && P.At(w, x + 1, from) && P.At(w, n, to) &&
             i < n - 1
    requires at <= from <= to <= |s| && from == at + w
    ensures var t, j := P.Moved(s, from, to, at), if i < x then i else i + 1;
            GoodAt(s, w, j) && i * w + w <= |t| && Block(t, w, i) == Block(s, w, j)
  {
    var j, p := if i < x then i else i + 1, i * w;
    assert GoodAt(s, w, j) && P.At(w, i, p);
    Next(w, i, p);
    Ordered(w, i, p, x, at);
    Ordered(w, x, at, i, p);
    Ordered(w, i + 1, p + w, n, to);
    hide P.Moved, P.At;
    var q := if i < x then p else p + w;
    BlockIs(s, w, j, q);
    P.MovedSlices(s, from, to, at, q, w);
    BlockIs(P.Moved(s, from, to, at), w, i, p);
  }

  /** No string in a buffer is as long as a block. */
  lemma ShortValue(s: seq<Byte>, w: nat, n: nat, i: nat, nullable: bool)
    requires Good(s, w, n, -1) && i < n && w <= MAX_WIDTH
    ensures Length(Values(s, w, n, nullable)[i]) < MAX_WIDTH
  {
    if w > 0 {
      assert GoodAt(s, w, i);
    }
  }

  // ----- the array -----

  class ArrayStringShort {
    const nullable: bool
    var data: array<Byte>
    var width: nat
    var size: nat

    ghost predicate Valid()
      reads this, data
    {
      width <= MAX_WIDTH && size <= P.MAX_ARRAY_SIZE && Good(data[..], width, size, -1)
    }

    ghost function Contents(): (r: seq<Str>)
      requires Valid()
      reads this, data
      ensures |r| == size
    {
      Values(data[..], width, size, nullable)
    }

    constructor (nullable: bool)
      ensures Valid() && Contents() == [] && this.nullable == nullable && fresh(data)
    {
      this.nullable := nullable;
      data := new Byte[120];
      width, size := 0, 0;
    }

    method Get(ndx: nat) returns (v: Str)
      requires Valid() && ndx < size
      ensures v == Contents()[ndx]
    {
      if width == 0 {
        return NoString(nullable);
      }
      assert GoodAt(data[..], width, ndx);
      var p := ndx * width;
      assert Block(data[..], width, ndx) == data[p..p + width];
      var pad := data[p + width - 1];
      v := if pad == width then NoString(nullable) else Some(data[p..p + (width - 1 - pad)]);
      assert v.Some? && pad < width ==>
             Block(data[..], width, ndx)[..width - 1 - pad] == data[p..p + (width - 1 - pad)];
    }

    /** Makes room for `n` blocks of `w` bytes; the bytes stay where they are. */
    method Alloc(n: nat, w: nat)
      modifies this
      ensures size == n && width == w && n * w <= data.Length && old(data[..]) <= data[..]
      ensures data == old(data) || fresh(data)
    {
      var needed := P.HEADER + n * w;
      if P.HEADER + data.Length < needed {
        data := P.Copied(data, P.NewCapacity(P.HEADER + data.Length, needed) - P.HEADER);
      }
      width, size := w, n;
    }

    /** Makes the blocks long enough for `n` bytes, whatever block `hole` holds. */
    method Widen(n: nat, ghost hole: int)
      requires width <= n < MAX_WIDTH && size <= P.MAX_ARRAY_SIZE && Good(data[..], width, size, hole)
      modifies this, data
      ensures n < width <= MAX_WIDTH && size == old(size) && Good(data[..], width, size, hole)
      ensures SameBut(old(data[..]), old(width), data[..], width, size, hole, nullable)
      ensures data == old(data) || fresh(data)
    {
      hide RoundUp, Formed, Decode, BlockMoved, Reblocked, GoodAt, Good, SameBut;
      RoundUpEnough(n + 1);
      var newWidth, oldWidth := RoundUp(n + 1), width;
      ghost var s := data[..];
      Alloc(size, newWidth);
      if oldWidth > 0 {
        HoldsLonger(s, data[..], oldWidth, newWidth, size, hole, nullable);
        ghost var t := data[..];
        ReblockAll(oldWidth, hole);
        SameTwice(s, t, oldWidth, data[..], newWidth, size, hole, nullable);
      } else {
        FillNull(data, newWidth, size, nullable);
        FilledSame(s, data[..], newWidth, size, hole, nullable);
      }
    }

    method ReblockAll(oldWidth: nat, ghost hole: int)
      requires 0 < oldWidth < width <= MAX_WIDTH && size * oldWidth <= size * width <= data.Length
      requires Good(data[..], oldWidth, size, hole)
      modifies data
      ensures Good(data[..], width, size, hole)
      ensures SameBut(old(data[..]), oldWidth, data[..], width, size, hole, nullable)
    {
      hide Formed, Decode, BlockMoved, Reblocked, GoodAt, Good;
      ghost var t := data[..];
      Reblock(data, oldWidth, width, size);
      AfterReblock(t, oldWidth, data[..], width, size, hole, nullable);
    }

    /** Writes block `ndx`. */
    method PutBlock(ndx: nat, v: Str)
      requires 0 < width <= MAX_WIDTH && ndx < size <= P.MAX_ARRAY_SIZE && Good(data[..], width, size, ndx)
      requires Length(v) < width
      modifies data
      ensures Valid() && SameBut(old(data[..]), width, data[..], width, size, ndx, nullable)
      ensures ValueAt(data[..], width, ndx, nullable) == Shown(nullable, v)
    {
      hide Encode, Formed, Decode;
      ghost var s := data[..];
      Inside(width, ndx, size);
      var begin := ndx * width;
      WriteBlock(data, begin, width, v);
      AfterPut(s, data[..], width, size, ndx, begin, v, nullable);
    }

    /** Stores a string in block `ndx`, which need not hold one yet. */
    method Store(ndx: nat, v: Str)
      requires width <= MAX_WIDTH && ndx < size <= P.MAX_ARRAY_SIZE && Good(data[..], width, size, ndx)
      requires Length(v) < MAX_WIDTH
      modifies this, data
      ensures Valid() && size == old(size)
      ensures Good(data[..], width, size, ndx) &&
              SameBut(old(data[..]), old(width), data[..], width, size, ndx, nullable)
      ensures Contents()[ndx] == Shown(nullable, v)
      ensures data == old(data) || fresh(data)
    {
      hide Formed, Decode;
      if (if nullable then v.None? else Length(v) == 0) && width == 0 {
        return;
      }
      if width <= Length(v) {
        Widen(Length(v), ndx);
      }
      PutBlock(ndx, v);
    }

    method Set(ndx: nat, v: Str)
      requires Valid() && ndx < size && Length(v) < MAX_WIDTH
      modifies this, data
      ensures Valid() && Contents() == old(Contents())[ndx := Shown(nullable, v)]
      ensures data == old(data) || fresh(data)
    {
      hide Formed, Decode;
      Store(ndx, v);
    }

    method Insert(ndx: nat, v: Str)
      requires Valid() && ndx <= size < P.MAX_ARRAY_SIZE && Length(v) < MAX_WIDTH
      modifies this, data
      ensures Valid() && Contents() == old(Contents())[..ndx] + [Shown(nullable, v)] + old(Contents())[ndx..]
      ensures data == old(data) || fresh(data)
    {
      hide Formed, Decode;
      ghost var all := Contents();
      OpenGap(ndx);
      Store(ndx, v);
      InsertedIs(all, Contents(), ndx, Shown(nullable, v));
    }

    /** Makes room for one more block at `ndx`; what it holds is left open. */
    method OpenGap(ndx: nat)
      requires Valid() && ndx <= size < P.MAX_ARRAY_SIZE
      modifies this, data
      ensures width == old(width) && size == old(size) + 1 && Good(data[..], width, size, ndx)
      ensures Shifted(old(Contents()), data[..], width, size, ndx, nullable)
      ensures data == old(data) || fresh(data)
    {
      hide Formed, Decode, GoodAt;
      var n := size;
      ghost var s := data[..];
      Alloc(n + 1, width);
      AfterCopy(s, data[..], width, n, nullable);
      if width > 0 {
        MoveGap(n, ndx);
      } else {
        AllEmpty(data[..], n, ndx, nullable);
      }
    }

    method MoveGap(n: nat, ndx: nat)
      requires 0 < width && ndx <= n && (n + 1) * width <= data.Length && Good(data[..], width, n, -1)
      modifies data
      ensures Good(data[..], width, n + 1, ndx)
      ensures Shifted(old(Values(data[..], width, n, nullable)), data[..], width, n + 1, ndx, nullable)
    {
      hide Formed, Decode, P.Moved, P.At, Good;
      var from, to := ndx * width, n * width;
      GapRoom(width, ndx, n, data.Length);
      AfterGap(data[..], width, n, ndx, from, to, from + width, nullable);
      P.CopyBackward(data, from, to, width);
    }

    method Erase(ndx: nat)
      requires Valid() && ndx < size
      modifies this, data
      ensures Valid() && Contents() == old(Contents())[..ndx] + old(Contents())[ndx + 1..]
      ensures data == old(data)
    {
      hide Formed, Decode, P.Moved;
      if width > 0 {
        var at, from, to := ndx * width, (ndx + 1) * width, size * width;
        AfterErase(data[..], width, size, ndx, at, from, to, nullable);
        P.CopyForward(data, from, to, at);
      }
      size := size - 1;
    }
  }

  /** Writes a string, zero bytes after it, and how many. */
  method WriteBlock(a: array<Byte>, begin: nat, w: nat, v: Str)
    requires 0 < w <= MAX_WIDTH && begin + w <= a.Length && Length(v) < w
    modifies a
    ensures a[..] == old(a[..])[..begin] + Encode(w, v) + old(a[..])[begin + w..]
  {
    hide Encode;
    ghost var s := a[..];
    var end := begin + (w - 1);
    var bytes := if v.Some? then v.value else [];
    P.Overwrite(a, begin, bytes);
    ghost var t := a[..];
    P.Overwrite(a, begin + |bytes|, Zeros(end - (begin + |bytes|)));
    ghost var u := a[..];
    a[end] := if v.None? then w else end - (begin + |bytes|);
    BlockWritten(s, t, u, a[..], begin, w, v);
  }

  lemma BlockWritten(s: seq<Byte>, t: seq<Byte>, u: seq<Byte>, r: seq<Byte>, begin: nat, w: nat, v: Str)
    requires 0 < w <= MAX_WIDTH && begin + w <= |s| && Length(v) < w
    requires var bytes := if v.Some? then v.value else [];
             var n, at := begin + |bytes|, begin + (w - 1);
             && t == s[..begin] + bytes + s[n..]
             && u == t[..n] + Zeros(at - n) + t[n + (at - n)..]
             && r == u[at := if v.None? then w else at - n]
    ensures r == s[..begin] + Encode(w, v) + s[begin + w..]
  {
    var e := s[..begin] + Encode(w, v) + s[begin + w..];
    forall k | 0 <= k < |s| ensures r[k] == e[k] {
      if k < begin {
        assert r[k] == u[k] == t[k] == s[k];
      } else if k >= begin + w {
        assert r[k] == u[k] == t[k] == s[k];
      }
    }
  }

  /** Fills all blocks with null. */
  method FillNull(a: array<Byte>, w: nat, size: nat, ghost nullable: bool)
    requires 0 < w <= MAX_WIDTH && size * w <= a.Length
    modifies a
    ensures Good(a[..], w, size, -1)
    ensures forall i :: 0 <= i < size ==> ValueAt(a[..], w, i, nullable) == NoString(nullable)
  {
    ghost var i: nat := size;
    var end: nat := size * w;
    assert P.At(w, i, end);
    hide P.At, NullAt, Formed, Decode;
    while end != 0
      invariant i <= size && end <= a.Length && P.At(w, i, end)
      invariant forall j :: i <= j < size ==> NullAt(a[..], w, j)
      decreases end
    {
      ReblockStep0(w, i, end);
      ghost var t := a[..];
      a[end - 1] := w;
      P.Overwrite(a, end - w, Zeros(w - 1));
      end := end - w;
      NullMade(t, a[..], w, i, end);
      forall j | i <= j < size ensures NullAt(a[..], w, j) {
        NullKept(t, a[..], w, i, j, end);
      }
      i := i - 1;
    }
    NoneLeft(w, i);
    forall j | 0 <= j < size ensures GoodAt(a[..], w, j) && ValueAt(a[..], w, j, nullable) == NoString(nullable) {
      NullRead(a[..], w, j, nullable);
    }
  }

  lemma NullRead(s: seq<Byte>, w: nat, i: nat, nullable: bool)
    requires NullAt(s, w, i)
    ensures GoodAt(s, w, i) && ValueAt(s, w, i, nullable) == NoString(nullable)
  {
  }

  ghost predicate NullAt(s: seq<Byte>, w: nat, i: nat) {
    0 < w <= MAX_WIDTH && i * w + w <= |s| && Block(s, w, i) == Zeros(w - 1) + [w]
  }

  lemma ReblockStep0(w: nat, i: nat, end: nat)
    requires 0 < w && P.At(w, i, end) && end > 0
    ensures 0 < i && w <= end && P.At(w, i - 1, end - w)
  {
    assert i > 0 by { assert i == 0 ==> i * w == 0; }
    Distrib(w, i, 1);
    MulLe(w, 0, i - 1);
  }

  lemma NullMade(t: seq<Byte>, t': seq<Byte>, w: nat, i: nat, p: nat)
    requires 0 < w <= MAX_WIDTH && 0 < i && P.At(w, i - 1, p) && p + w <= |t|
    requires var u := t[p + w - 1 := w]; t' == u[..p] + Zeros(w - 1) + u[p + (w - 1)..]
    ensures NullAt(t', w, i - 1)
  {
    assert t'[p..p + w] == Zeros(w - 1) + [w];
  }

  lemma NullKept(t: seq<Byte>, t': seq<Byte>, w: nat, i: nat, j: nat, p: nat)
    requires 0 < w <= MAX_WIDTH && 0 < i <= j && P.At(w, i - 1, p) && p + w <= |t| && NullAt(t, w, j)
    requires var u := t[p + w - 1 := w]; t' == u[..p] + Zeros(w - 1) + u[p + (w - 1)..]
    ensures NullAt(t', w, j)
  {
    assert t'[..p] == t[..p] && t'[p + w..] == t[p + w..];
    Inside(w, i - 1, j);
    BlockKept(t, t', w, j, p, p + w);
  }

  lemma HoldsLonger(s: seq<Byte>, t: seq<Byte>, ow: nat, nw: nat, n: nat, hole: int, nullable: bool)
    requires Good(s, ow, n, hole) && 0 < ow <= nw && s <= t
    ensures n * ow <= n * nw && Good(t, ow, n, hole) && SameBut(s, ow, t, ow, n, hole, nullable)
  {
    MulLe(n, ow, nw);
    forall i | 0 <= i < n && i != hole
      ensures GoodAt(t, ow, i) && ValueAt(t, ow, i, nullable) == ValueAt(s, ow, i, nullable)
    {
      assert GoodAt(s, ow, i);
      SliceOfLonger(s, t, i * ow, ow);
    }
  }
}
