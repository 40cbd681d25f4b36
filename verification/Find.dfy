/** Searching a packed array several elements at a time.

    The result is the one of a plain scan that calls `Match` for each element
    satisfying the condition and stops when `Match` says so.
 */
module Find {
  import opened Options
  import opened Bits
  import opened Lanes
  import opened DirectAccess

  const NPOS := 0xffff_ffff_ffff_ffff

  datatype Cond = Equal | NotEqual | Greater | Less

  predicate Satisfies(c: Cond, x: int, value: int) {
    match c
    case Equal => x == value
    case NotEqual => x != value
    case Greater => x > value
    case Less => x < value
  }

  /** Which elements satisfy the condition. */
  ghost function Selection(c: Cond, value: int, s: seq<int>): (r: seq<bool>)
    ensures |r| == |s|
  {
    seq(|s|, i requires 0 <= i < |s| => Satisfies(c, s[i], value))
  }

  /** The plain scan of elements `lo` to `hi`: what has been found, and whether to go on. */
  ghost function Scan(found: seq<nat>, limit: nat, sel: seq<bool>, lo: nat, hi: nat, base: nat): (r: (seq<nat>, bool))
    requires lo <= hi <= |sel|
    decreases hi - lo
  {
    if lo == hi then (found, true)
    else if !sel[lo] then Scan(found, limit, sel, lo + 1, hi, base)
    else
      var f := found + [lo + base];
      if limit > |f| then Scan(f, limit, sel, lo + 1, hi, base) else (f, false)
  }

  lemma {:induction false} ScanSkip(found: seq<nat>, limit: nat, sel: seq<bool>, lo: nat, mid: nat, hi: nat, base: nat)
    requires lo <= mid <= hi <= |sel|
    requires forall i :: lo <= i < mid ==> !sel[i]
    ensures Scan(found, limit, sel, lo, hi, base) == Scan(found, limit, sel, mid, hi, base)
    decreases mid - lo
  {
    if lo < mid {
      ScanSkip(found, limit, sel, lo + 1, mid, hi, base);
    }
  }

  /** A scan goes on where a scan that did not stop ended. */
  lemma {:induction false} ScanSplit(found: seq<nat>, limit: nat, sel: seq<bool>, lo: nat, mid: nat, hi: nat, base: nat)
    requires lo <= mid <= hi <= |sel|
    ensures var m := Scan(found, limit, sel, lo, mid, base);
            Scan(found, limit, sel, lo, hi, base) == if m.1 then Scan(m.0, limit, sel, mid, hi, base) else m
    decreases mid - lo
  {
    if lo < mid {
      if !sel[lo] {
        ScanSplit(found, limit, sel, lo + 1, mid, hi, base);
      } else if limit > |found| + 1 {
        ScanSplit(found + [lo + base], limit, sel, lo + 1, mid, hi, base);
      }
    }
  }

  /** The indices a scan without limit reports. */
  ghost function Hits(sel: seq<bool>, lo: nat, hi: nat, base: nat): (r: seq<nat>)
    requires lo <= hi <= |sel|
    decreases hi - lo
  {
    if lo == hi then [] else (if sel[lo] then [lo + base] else []) + Hits(sel, lo + 1, hi, base)
  }

  /** What a scan reports is the hits in order, cut off at the limit; it stops exactly when the limit is met. */
  lemma {:induction false} ScanIsPrefix(found: seq<nat>, limit: nat, sel: seq<bool>, lo: nat, hi: nat, base: nat)
    requires lo <= hi <= |sel| && |found| < limit
    ensures var all := found + Hits(sel, lo, hi, base);
            Scan(found, limit, sel, lo, hi, base) == if |all| < limit then (all, true) else (all[..limit], false)
    decreases hi - lo
  {
    if lo < hi {
      if !sel[lo] {
        ScanIsPrefix(found, limit, sel, lo + 1, hi, base);
        assert [] + Hits(sel, lo + 1, hi, base) == Hits(sel, lo + 1, hi, base);
      } else {
        var f := found + [lo + base];
        assert found + Hits(sel, lo, hi, base) == f + Hits(sel, lo + 1, hi, base);
        if limit > |f| {
          ScanIsPrefix(f, limit, sel, lo + 1, hi, base);
        } else {
          assert (f + Hits(sel, lo + 1, hi, base))[..limit] == f;
        }
      }
    } else {
      assert found + [] == found;
    }
  }

  class QueryState {
    const limit: nat
    var found: seq<nat>
    /** What was handed over with each index; without a value the state reads the element itself. */
    var values: seq<Option<int>>
    /** The element behind each index. */
    ghost const truth: map<int, int>

    /** Whatever was handed over is the element behind its index. */
    ghost predicate Valid()
      reads this
    {
      && |values| == |found|
      && forall k :: 0 <= k < |values| && values[k].Some? ==> Tells(truth, found[k], values[k].value)
    }

    constructor (limit: nat, ghost truth: map<int, int>)
      ensures Valid() && this.limit == limit && this.truth == truth && found == []
    {
      this.limit, this.truth := limit, truth;
      found, values := [], [];
    }

    method Match(index: nat, value: Option<int>) returns (go: bool)
      requires Valid() && (value.Some? ==> Tells(truth, index, value.value))
      modifies this
      ensures Valid() && found == old(found) + [index] && values == old(values) + [value]
      ensures go == (limit > |found|)
    {
      found := found + [index];
      values := values + [value];
      go := limit > |found|;
    }
  }

  ghost predicate Tells(truth: map<int, int>, index: int, value: int) {
    index in truth && truth[index] == value
  }

  /** The elements of a leaf that starts at index `base`. */
  ghost predicate TellsAll(truth: map<int, int>, s: seq<int>, base: nat) {
    forall i :: 0 <= i < |s| ==> Tells(truth, base + i, s[i])
  }

  // ----- words -----

  /** The `j`th group of eight bytes. */
  function Word(data: seq<Byte>, j: nat): (r: nat)
    requires 8 * j + 8 <= |data|
    ensures r < Pow2(64)
  {
    LittleEndian(data, 8 * j, 8)
  }

  /** The widths searched a word at a time. */
  predicate Packed(w: Width) {
    w == 1 || w == 2 || w == 4 || w == 8 || w == 16
  }

  function PerWord(w: Width): (n: nat)
    requires 0 < w
    ensures w * n == 64 && 0 < n
  {
    64 / w
  }

  lemma WordCap(w: Width)
    requires Packed(w)
    ensures Cap(w, PerWord(w)) == Pow2(64)
  {
    CapIsPow2(w, PerWord(w));
  }

  /** Bytes are the 8-bit fields of the number they make up. */
  lemma {:induction false} ByteField(data: seq<Byte>, pos: nat, n: nat, k: nat)
    requires pos + n <= |data| && k < n
    ensures Field(LittleEndian(data, pos, n), 8 * k, 8) == data[pos + k]
    decreases n
  {
    var v := LittleEndian(data, pos, n);
    var rest := LittleEndian(data, pos + 1, n - 1);
    Powers();
    hide Pow2, Low, High;
    Parts(v, 8, data[pos], rest);
    if k > 0 {
      ByteField(data, pos + 1, n - 1, k - 1);
      HighHigh(v, 8, 8 * (k - 1));
    } else {
      Parts(v, 0, 0, v);
    }
  }

  /** Bit position of lane `i` of word `j`. */
  lemma LanePosition(w: Width, j: nat, i: nat)
    requires Packed(w) && i < PerWord(w)
    ensures (j * PerWord(w) + i) * w == 64 * j + w * i && w * i + w <= 64
  {
    var n := PerWord(w);
    Distrib(w, j * n, i);
    Assoc(w, n, j);
    MulLe(w, i + 1, n);
    Distrib(w, i, 1);
  }

  lemma Offsets(p: nat, j: nat, q: nat)
    requires p == 8 * j + q
    ensures p / 8 == j + q / 8 && p % 8 == q % 8
  {
  }

  /** The lanes of eight bytes are the bits of the elements stored in them. */
  lemma LaneAt(data: seq<Byte>, w: Width, pos: nat, i: nat)
    requires Packed(w) && i < PerWord(w) && pos + 8 <= |data|
    ensures w * i + w <= 64
    ensures var p := 8 * pos + w * i;
            InBounds(data, p, w) && Placeable(p, w) && Lane(LittleEndian(data, pos, 8), w, i) == RawAt(data, p, w)
  {
    hide Field, LittleEndian, Pow2, PerWord, Lane;
    LanePosition(w, 0, i);
    Place(w, i);
    var v, q := LittleEndian(data, pos, 8), w * i;
    LaneIsField(v, w, i);
    var k, m := q / 8, q % 8;
    Offsets(8 * pos + q, pos, q);
    if w < 8 {
      ByteField(data, pos, 8, k);
      FieldField(v, 8 * k, 8, m, w);
    } else {
      WideLane(data, w, pos, k, q);
    }
  }

  lemma OneByte(data: seq<Byte>, pos: nat)
    requires pos + 1 <= |data|
    ensures LittleEndian(data, pos, 1) == data[pos]
  {
    assert LittleEndian(data, pos + 1, 0) == 0;
  }

  lemma TwoBytes(data: seq<Byte>, pos: nat)
    requires pos + 2 <= |data|
    ensures LittleEndian(data, pos, 2) == data[pos] as nat + 0x100 * LittleEndian(data, pos + 1, 1)
  {
  }

  lemma WideLane(data: seq<Byte>, w: Width, pos: nat, k: nat, q: nat)
    requires (w == 8 || w == 16) && q == 8 * k && q + w <= 64 && pos + 8 <= |data|
    ensures Field(LittleEndian(data, pos, 8), q, w) == LittleEndian(data, pos + k, w / 8)
  {
    hide Field, LittleEndian, Pow2;
    Powers();
    ByteField(data, pos, 8, k);
    if w == 8 {
      OneByte(data, pos + k);
    } else {
      TwoBytes(data, pos + k);
      OneByte(data, pos + k + 1);
      ByteField(data, pos, 8, k + 1);
      FieldJoin(LittleEndian(data, pos, 8), q, 8, 8);
    }
  }

  /** Element `k + i` lies in lane `i` of the eight bytes at which element `k` starts. */
  lemma ElementLane(data: seq<Byte>, w: Width, size: nat, k: nat, pos: nat, i: nat)
    requires Packed(w) && Holds(data, w, size) && pos + 8 <= |data|
    requires 8 * pos == k * w && i < PerWord(w) && k + i < size
    ensures Elements(data, w, size)[k + i] == Signed(w, Lane(LittleEndian(data, pos, 8), w, i))
  {
    hide RawAt, LittleEndian, Lane, Signed, Pow2, PerWord;
    LaneAt(data, w, pos, i);
    Distrib(w, k, i);
    ElementAt(data, w, size, k + i);
  }

  // ----- zero lanes -----

  /** `lower_bits`: the word with 1 in each lane. */
  function LowerBits(w: Width): (r: nat)
    requires Packed(w)
  {
    if w == 1 then 0xffff_ffff_ffff_ffff
    else if w == 2 then 0x5555_5555_5555_5555
    else if w == 4 then 0x1111_1111_1111_1111
    else if w == 8 then 0x0101_0101_0101_0101
    else 0x0001_0001_0001_0001
  }

  lemma LowerBitsRepeat(w: Width)
    requires Packed(w)
    ensures LowerBits(w) == Rep(1, w, PerWord(w))
  {
    Powers();
    hide Pow2, Rep, Cap;
    WordCap(w);
    RepOnes(w, PerWord(w));
    var m, r := Pow2(w) - 1, Rep(1, w, PerWord(w));
    assert m * LowerBits(w) == Pow2(64) - 1;
    SameFactor(m, LowerBits(w), r);
  }

  lemma SameFactor(m: nat, a: nat, b: nat)
    requires 0 < m && m * a == m * b
    ensures a == b
  {
    Distrib(m, a, b);
    MulSmall(m, a - b);
  }

  /** `test_zero` */
  predicate TestZero(w: Width, v: nat)
    requires Packed(w) && v < Pow2(64)
  {
    var upper := LowerBits(w) * Pow2(w - 1);
    And(And((v - LowerBits(w)) % Pow2(64), Not(64, v)), upper) != 0
  }

  lemma TestZeroExact(w: Width, v: nat)
    requires Packed(w) && v < Pow2(64)
    ensures TestZero(w, v) <==> HasZeroLane(v, w, PerWord(w))
  {
    hide Pow2, Rep, Cap, And, HasZeroLane;
    LowerBitsRepeat(w);
    WordCap(w);
    RepScale(Pow2(w - 1), w, PerWord(w));
    ZeroTestExact(v, w, PerWord(w));
  }

  /** Whether `find_zero` looks for this lane. */
  predicate Picks(eq: bool, x: nat) {
    eq == (x == 0)
  }

  /** Setting all lanes from `h` on hides them from the zero test. */
  lemma SetAbove(v: nat, w: nat, n: nat, h: nat, i: nat)
    requires 0 < w && h <= n && i < n && v < Cap(w, n)
    ensures Cap(w, h) <= Cap(w, n)
    ensures Lane(Or(v, Cap(w, n) - Cap(w, h)), w, i) == if i < h then Lane(v, w, i) else Pow2(w) - 1
  {
    hide Pow2, Lane, Cap, Or, And;
    CapAdd(w, h, n - h);
    var c, d := Cap(w, h), Cap(w, n - h);
    MulLe(c, 1, d);
    Distrib(c, d, 1);
    var ones := c * (d - 1);
    LaneJoin(0, d - 1, w, h, i);
    OrLane(v, ones, w, i);
    if i < h {
      ZeroLane(w, i);
      assert Or(Lane(v, w, i), 0) == Lane(v, w, i) by { AndZero(Lane(v, w, i)); }
    } else {
      OnesLane(w, n - h, i - h);
      AndOnes(Lane(v, w, i), w);
    }
  }

  lemma OnesLane(w: nat, n: nat, i: nat)
    requires 0 < w && i < n
    ensures Lane(Cap(w, n) - 1, w, i) == Pow2(w) - 1
  {
    hide Pow2, Lane, Rep, Cap;
    RepOnes(w, n);
    RepScale(Pow2(w) - 1, w, n);
    RepLane(Pow2(w) - 1, w, n, i);
  }

  ghost predicate ZeroBelow(v: nat, w: nat, h: nat) {
    forall i :: 0 <= i < h ==> Lane(v, w, i) == 0
  }

  lemma ZeroBelowStep(v: nat, w: nat, h: nat)
    requires 0 < h
    ensures ZeroBelow(v, w, h) <==> Low(v, w) == 0 && ZeroBelow(High(v, w), w, h - 1)
  {
    hide Low, High, Pow2;
    if ZeroBelow(v, w, h) {
      assert Lane(v, w, 0) == 0;
      forall i | 0 <= i < h - 1 ensures Lane(High(v, w), w, i) == 0 {
        assert Lane(v, w, i + 1) == 0;
      }
    }
    if Low(v, w) == 0 && ZeroBelow(High(v, w), w, h - 1) {
      forall i | 0 <= i < h ensures Lane(v, w, i) == 0 {
        if i > 0 {
          assert Lane(High(v, w), w, i - 1) == 0;
        }
      }
    }
  }

  /** All bits below a lane are zero if and only if all lanes below it are. */
  lemma {:induction false} LowZero(v: nat, w: nat, h: nat)
    ensures Low(v, w * h) == 0 <==> ZeroBelow(v, w, h)
  {
    if h > 0 {
      Distrib(w, h - 1, 1);
      var k := w * (h - 1);
      LowLow(v, w, w + k);
      HighLow(v, w, w + k);
      LowHigh(Low(v, w + k), w);
      LowZero(High(v, w), w, h - 1);
      ZeroBelowStep(v, w, h);
      hide Pow2, Low, High, ZeroBelow;
      Nonzero(Pow2(w), Low(High(v, w), k));
    }
  }

  /** The zero test with the lanes from `h` on set, and the mask of the lanes below `h`. */
  lemma MaskedTests(w: Width, v: nat, h: nat, b: nat)
    requires Packed(w) && v < Pow2(64) && h <= PerWord(w) && w * h == b <= 64
    ensures Pow2(b) <= Pow2(64) && Or(v, Pow2(64) - Pow2(b)) < Pow2(64)
    ensures TestZero(w, Or(v, Pow2(64) - Pow2(b))) <==> HasZeroLane(v, w, h)
    ensures And(v, Pow2(b) - 1) == 0 <==> ZeroBelow(v, w, h)
  {
    hide Pow2, Lane, Cap, Or, And, TestZero, HasZeroLane, ZeroBelow, Low;
    Pow2Mono(b, 64);
    AndMask(v, b);
    LowZero(v, w, h);
    var n, u := PerWord(w), Or(v, Pow2(64) - Pow2(b));
    WordCap(w);
    CapIsPow2(w, h);
    OrBound(64, v, Pow2(64) - Pow2(b));
    TestZeroExact(w, u);
    ZeroAbove(v, w, n, h);
  }

  lemma ZeroAbove(v: nat, w: nat, n: nat, h: nat)
    requires 0 < w && h <= n && v < Cap(w, n)
    ensures Cap(w, h) <= Cap(w, n)
    ensures HasZeroLane(Or(v, Cap(w, n) - Cap(w, h)), w, n) <==> HasZeroLane(v, w, h)
  {
    hide Pow2, Lane, Cap, Or, And;
    CapAdd(w, h, n - h);
    MulLe(Cap(w, h), 1, Cap(w, n - h));
    Pow2Mono(1, w);
    assert Pow2(w) - 1 > 0 by { Powers(); }
    var u := Or(v, Cap(w, n) - Cap(w, h));
    forall i | 0 <= i < n ensures Lane(u, w, i) == if i < h then Lane(v, w, i) else Pow2(w) - 1 {
      SetAbove(v, w, n, h, i);
    }
    if HasZeroLane(v, w, h) {
      var i :| 0 <= i < h && Lane(v, w, i) == 0;
      assert Lane(u, w, i) == 0;
    }
  }

  /** No lane below `h` is one that is looked for. */
  ghost predicate NoneBelow(eq: bool, v: nat, w: nat, h: nat) {
    forall i :: 0 <= i < h ==> !Picks(eq, Lane(v, w, i))
  }

  lemma NoneBelowTest(eq: bool, v: nat, w: nat, h: nat)
    ensures NoneBelow(eq, v, w, h) <==> if eq then !HasZeroLane(v, w, h) else ZeroBelow(v, w, h)
  {
    hide Lane;
  }

  /** The bisection step: whether all of the first `h` lanes can be skipped. */
  method Skips(eq: bool, w: Width, v: nat, h: nat, b: nat) returns (r: bool)
    requires Packed(w) && v < Pow2(64) && h <= PerWord(w) && w * h == b <= 64
    ensures r <==> NoneBelow(eq, v, w, h)
  {
    hide Pow2, Lane, Or, And, TestZero, HasZeroLane, ZeroBelow, NoneBelow, PerWord;
    MaskedTests(w, v, h, b);
    NoneBelowTest(eq, v, w, h);
    r := if eq then !TestZero(w, Or(v, Pow2(64) - Pow2(b))) else And(v, Pow2(b) - 1) == 0;
  }

  /** Where the search for a lane starts: whole halves and quarters without a match are skipped. */
  method Bisect(eq: bool, w: Width, v: nat) returns (start: nat)
    requires Packed(w) && v < Pow2(64)
    ensures NoneBelow(eq, v, w, start)
  {
    hide Pow2, Lane, Picks;
    var n := PerWord(w);
    start := 0;
    if w <= 8 {
      var half := Skips(eq, w, v, n / 2, 32);
      if half {
        start := start + n / 2;
        if w <= 4 {
          var more := Skips(eq, w, v, 3 * (n / 4), 48);
          if more {
            start := start + n / 4;
          }
        }
      } else if w <= 4 {
        var more := Skips(eq, w, v, n / 4, 16);
        if more {
          start := start + n / 4;
        }
      }
    }
  }

  /** `(v >> (w * i)) & mask` */
  function ShiftMask(v: nat, w: nat, i: nat): (r: nat)
    ensures r == Lane(v, w, i)
  {
    LaneIsField(v, w, i);
    Field(v, w * i, w)
  }

  /** The first zero (or nonzero) lane of a word that has one. */
  method FindZero(eq: bool, w: Width, v: nat) returns (start: nat)
    requires Packed(w) && v < Pow2(64) && !NoneBelow(eq, v, w, PerWord(w))
    ensures start < PerWord(w) && Picks(eq, Lane(v, w, start)) && NoneBelow(eq, v, w, start)
  {
    hide Pow2, Lane, ShiftMask, PerWord;
    if eq == (ShiftMask(v, w, 0) == 0) {
      start := 0;
      return;
    }
    start := Bisect(eq, w, v);
    ghost var k :| 0 <= k < PerWord(w) && Picks(eq, Lane(v, w, k));
    while eq == (ShiftMask(v, w, start) != 0)
      invariant start <= k && NoneBelow(eq, v, w, start)
      decreases k - start
    {
      start := start + 1;
    }
  }
}
