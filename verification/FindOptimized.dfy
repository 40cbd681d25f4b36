/** The search for elements equal to, different from, above or below a value. */
module FindOptimized {
  import opened Options
  import opened Bits
  import opened Lanes
  import opened DirectAccess
  import opened FirstSetBit
  import opened Find

  // ----- equality, a word at a time -----

  /** The lanes picked in `v` are the elements selected from `start` on. */
  ghost predicate PicksSelected(eq: bool, v: nat, w: nat, n: nat, sel: seq<bool>, start: nat) {
    start + n <= |sel| && forall i {:trigger Lane(v, w, i)} :: 0 <= i < n ==> sel[start + i] == Picks(eq, Lane(v, w, i))
  }

  /** `v` holds the lanes of `v0` from `a` on, followed by zeros. */
  ghost predicate Rest(v: nat, v0: nat, w: nat, n: nat, a: nat) {
    && a <= n
    && (forall i :: 0 <= i < n - a ==> Lane(v, w, i) == Lane(v0, w, a + i))
    && (forall i :: n - a <= i < n ==> Lane(v, w, i) == 0)
  }

  /** The shift that drops a lane and all before it. */
  function Dropped(v: nat, w: nat, t: nat): (r: nat)
    ensures r <= v
  {
    if (t + 1) * w < 64 then High(v, (t + 1) * w) else 0
  }

  lemma RestShift(v: nat, v0: nat, w: nat, n: nat, a: nat, t: nat)
    requires Rest(v, v0, w, n, a) && v < Cap(w, n) && a + t < n && w * n == 64 && 0 < w
    ensures Rest(Dropped(v, w, t), v0, w, n, a + t + 1)
  {
    var v', a' := Dropped(v, w, t), a + t + 1;
    hide Pow2, High, Low, Cap, Lane;
    MulLe(w, t + 1, n);
    if (t + 1) * w < 64 {
      forall i | 0 <= i < n ensures Lane(v', w, i) == Lane(v, w, t + 1 + i) {
        LaneShift(v, w, t + 1, i);
      }
      forall i | n - a' <= i < n ensures Lane(v', w, i) == 0 {
        if t + 1 + i >= n {
          LaneBeyond(v, w, n, t + 1 + i);
        }
      }
    } else {
      SameFactorLe(w, t + 1, n);
      forall i | 0 <= i < n ensures Lane(v', w, i) == 0 {
        ZeroLane(w, i);
      }
    }
  }

  lemma SameFactorLe(w: nat, x: nat, n: nat)
    requires 0 < w && x <= n && w * n <= w * x
    ensures x == n
  {
    if x < n {
      MulLe(w, x + 1, n);
      Distrib(w, x, 1);
    }
  }

  /** Lanes that are not picked are elements that are not selected. */
  lemma SkipLanes(found: seq<nat>, limit: nat, sel: seq<bool>, base: nat,
                  eq: bool, v: nat, v0: nat, w: nat, n: nat, start: nat, a: nat, t: nat)
    requires Rest(v, v0, w, n, a) && PicksSelected(eq, v0, w, n, sel, start) && NoneBelow(eq, v, w, t) && a + t <= n
    ensures Scan(found, limit, sel, start + a, start + n, base) ==
            Scan(found, limit, sel, start + a + t, start + n, base)
  {
    hide Lane;
    forall k | start + a <= k < start + a + t ensures !sel[k] {
      var i := k - (start + a);
      assert Lane(v, w, i) == Lane(v0, w, a + i);
      assert sel[start + (a + i)] == Picks(eq, Lane(v0, w, a + i));
    }
    ScanSkip(found, limit, sel, start + a, start + a + t, start + n, base);
  }

  /** The search of one word for zero (or nonzero) lanes. */
  method ScanLanes(eq: bool, w: Width, v0: nat, st: QueryState, start: nat, base: nat, ghost sel: seq<bool>)
    returns (go: bool)
    requires Packed(w) && v0 < Pow2(64) && PicksSelected(eq, v0, w, PerWord(w), sel, start)
    requires st.Valid()
    modifies st
    ensures st.Valid()
    ensures (st.found, go) == Scan(old(st.found), st.limit, sel, start, start + PerWord(w), base)
  {
    hide Pow2, Lane, TestZero, Cap, Dropped, HasZeroLane, NoneBelow;
    var v: nat, a: nat, n := v0, 0, PerWord(w);
    WordCap(w);
    ghost var found := st.found;
    while if eq then TestZero(w, v) else v != 0
      invariant a <= n && v < Pow2(64) && Rest(v, v0, w, n, a) && st.Valid()
      invariant Scan(found, st.limit, sel, start, start + n, base) ==
                Scan(st.found, st.limit, sel, start + a, start + n, base)
      decreases n - a
    {
      SomeLane(eq, w, v);
      var t := FindZero(eq, w, v);
      if a + t >= n {
        NoneBelowLess(eq, v, w, n - a, t);
        SkipLanes(st.found, st.limit, sel, base, eq, v, v0, w, n, start, a, n - a);
        return true;
      }
      SkipLanes(st.found, st.limit, sel, base, eq, v, v0, w, n, start, a, t);
      assert Lane(v, w, t) == Lane(v0, w, a + t);
      assert sel[start + (a + t)];
      RestShift(v, v0, w, n, a, t);
      a := a + t;
      go := st.Match(a + start + base, None);
      if !go {
        return;
      }
      v := Dropped(v, w, t);
      a := a + 1;
    }
    SomeLane(eq, w, v);
    NoneBelowLess(eq, v, w, n - a, n);
    SkipLanes(st.found, st.limit, sel, base, eq, v, v0, w, n, start, a, n - a);
    go := true;
  }

  lemma NoneBelowLess(eq: bool, v: nat, w: nat, h: nat, h': nat)
    requires h <= h' && NoneBelow(eq, v, w, h')
    ensures NoneBelow(eq, v, w, h)
  {
  }

  /** The loop condition says whether the word has a lane to report. */
  lemma SomeLane(eq: bool, w: Width, v: nat)
    requires Packed(w) && v < Pow2(64)
    ensures (if eq then TestZero(w, v) else v != 0) <==> !NoneBelow(eq, v, w, PerWord(w))
  {
    hide Pow2, Lane, TestZero, Cap, NoneBelow, ZeroBelow, HasZeroLane;
    var n := PerWord(w);
    NoneBelowTest(eq, v, w, n);
    TestZeroExact(w, v);
    LowZero(v, w, n);
    LowSmall(v, 64);
  }

  // ----- an array and what is selected in it -----

  /** Word `v` holds the elements from `start` on. */
  ghost predicate WordSelects(c: Cond, value: int, v: nat, w: Width, n: nat, sel: seq<bool>, start: nat) {
    && start + n <= |sel|
    && forall i {:trigger Lane(v, w, i)} :: 0 <= i < n ==>
        sel[start + i] == Satisfies(c, Signed(w, Lane(v, w, i)), value)
  }

  /** The lanes of word `v` are the elements from `start` on. */
  ghost predicate WordHolds(v: nat, w: Width, n: nat, s: seq<int>, start: nat) {
    && start + n <= |s|
    && forall i {:trigger Lane(v, w, i)} :: 0 <= i < n ==> s[start + i] == Signed(w, Lane(v, w, i))
  }

  lemma WordOfElements(data: seq<Byte>, w: Width, size: nat, j: nat, n: nat, start: nat)
    requires Packed(w) && Holds(data, w, size) && 8 * j + 8 <= |data|
    requires n == PerWord(w) && start == j * n && start + n <= size
    ensures WordHolds(Word(data, j), w, n, Elements(data, w, size), start)
  {
    hide Lane, LittleEndian, Signed, PerWord, Elements, Holds, Pow2;
    LanePosition(w, j, 0);
    forall i | 0 <= i < n ensures Elements(data, w, size)[start + i] == Signed(w, Lane(Word(data, j), w, i)) {
      ElementLane(data, w, size, start, 8 * j, i);
    }
  }

  lemma WordSelected(c: Cond, value: int, v: nat, w: Width, n: nat, s: seq<int>, start: nat)
    requires WordHolds(v, w, n, s, start)
    ensures WordSelects(c, value, v, w, n, Selection(c, value, s), start)
  {
    hide Lane, Signed, Satisfies;
  }

  /** What is known of the elements behind the lanes of a word. */
  ghost predicate WordTells(truth: map<int, int>, v: nat, w: Width, n: nat, at: nat) {
    forall i {:trigger Lane(v, w, i)} :: 0 <= i < n ==> Tells(truth, at + i, Signed(w, Lane(v, w, i)))
  }

  lemma WordTold(truth: map<int, int>, v: nat, w: Width, n: nat, s: seq<int>, start: nat, base: nat)
    requires WordHolds(v, w, n, s, start) && TellsAll(truth, s, base)
    ensures WordTells(truth, v, w, n, start + base)
  {
    hide Lane, Signed, Tells;
    forall i | 0 <= i < n ensures Tells(truth, start + base + i, Signed(w, Lane(v, w, i))) {
      assert Tells(truth, base + (start + i), s[start + i]);
    }
  }

  /** Element by element: the head and the tail of every search. */
  method ScanEach(c: Cond, value: int, data: seq<Byte>, w: Width, size: nat, lo: nat, hi: nat, base: nat,
      tell: bool, st: QueryState)
    returns (go: bool)
    requires Holds(data, w, size) && lo <= hi <= size && TellsAll(st.truth, Elements(data, w, size), base)
    requires st.Valid()
    modifies st
    ensures st.Valid()
    ensures (st.found, go) ==
            Scan(old(st.found), st.limit, Selection(c, value, Elements(data, w, size)), lo, hi, base)
  {
    hide Holds, InBounds, Get, Elements, Satisfies, Tells;
    var i := lo;
    ghost var sel := Selection(c, value, Elements(data, w, size));
    while i < hi
      invariant lo <= i <= hi && st.Valid()
      invariant Scan(old(st.found), st.limit, sel, lo, hi, base) == Scan(st.found, st.limit, sel, i, hi, base)
    {
      ElementAt(data, w, size, i);
      var x := Get(data, w, i);
      assert Tells(st.truth, base + i, x);
      if Satisfies(c, x, value) {
        go := st.Match(i + base, if tell then Some(x) else None);
        if !go {
          return;
        }
      }
      i := i + 1;
    }
    go := true;
  }

  /** The first multiple of `n` from `start` on, or `end` when that comes first. */
  method AlignedStart(start: nat, n: nat, end: nat) returns (ee: nat, j: nat)
    requires 0 < n && start <= end
    ensures start <= ee <= end
    ensures ee < end ==> ee == j * n
  {
    j := (start + n - 1) / n;
    DivMod(start + n - 1, n);
    Distrib(n, j, 1);
    ee := if j * n > end then end else j * n;
  }

  /** The byte in which the element after the last one starts. */
  function EndByte(end: nat, w: Width): (r: nat)
    ensures 8 * r <= end * w < 8 * r + 8
  {
    end * w / 8
  }

  /** The words that lie strictly before the byte in which element `end` starts. */
  lemma WholeWord(data: seq<Byte>, w: Width, size: nat, end: nat, j: nat)
    requires Packed(w) && Holds(data, w, size) && end <= size && 8 * (j + 1) < EndByte(end, w)
    ensures 8 * j + 8 <= |data| && (j + 1) * PerWord(w) < end
  {
    MulLe(w, end, size);
    var n := PerWord(w);
    Assoc(w, n, j + 1);
    assert w * ((j + 1) * n) == 64 * (j + 1);
    var x := (j + 1) * n;
    if end <= x {
      MulLe(w, end, x);
    }
  }

  /** The value repeated in every lane: `~0 / mask * (value & mask)`. */
  function ValueMask(w: Width, value: int): (r: nat)
    requires Packed(w) && Int64(value)
  {
    Powers();
    hide Pow2;
    var mask := Pow2(w) - 1;
    (Pow2(64) - 1) / mask * And(Unsigned(64, value), mask)
  }

  lemma ValueMaskRepeats(w: Width, value: int)
    requires Packed(w) && Fits(w, value)
    ensures Int64(value)
    ensures ValueMask(w, value) == Rep(Unsigned(w, value), w, PerWord(w)) < Pow2(64)
  {
    Powers();
    hide Pow2, Rep, Cap, And, Low, PerWord, Unsigned;
    var n := PerWord(w);
    WordCap(w);
    RepOnes(w, n);
    AndMask(Unsigned(64, value), w);
    LowOfValue(w, value);
    RepScale(Unsigned(w, value), w, n);
    RepBound(Unsigned(w, value), w, n);
  }

  /** After the exclusive or with the repeated value, equal lanes are zero. */
  lemma XorPicks(eq: bool, w: Width, value: int, v: nat, sel: seq<bool>, start: nat)
    requires Packed(w) && Fits(w, value) && v < Pow2(64)
    requires WordSelects(if eq then Equal else NotEqual, value, v, w, PerWord(w), sel, start)
    ensures Int64(value) && Xor(v, ValueMask(w, value)) < Pow2(64)
    ensures PicksSelected(eq, Xor(v, ValueMask(w, value)), w, PerWord(w), sel, start)
  {
    hide Pow2, Lane, Rep, Xor, And, ValueMask, Signed, Unsigned, PerWord;
    ValueMaskRepeats(w, value);
    var m, n := ValueMask(w, value), PerWord(w);
    XorBound(64, v, m);
    forall i | 0 <= i < n ensures sel[start + i] == Picks(eq, Lane(Xor(v, m), w, i)) {
      XorLane(v, m, w, i);
      RepLane(Unsigned(w, value), w, n, i);
      XorZero(Lane(v, w, i), Unsigned(w, value));
      SameValue(w, Lane(v, w, i), value);
    }
  }

  /** One word, after the exclusive or with the repeated value. */
  method EqualityWord(eq: bool, w: Width, value: int, v: nat, st: QueryState, start: nat, base: nat,
      ghost sel: seq<bool>)
    returns (go: bool)
    requires Packed(w) && v < Pow2(64) && Fits(w, value)
    requires WordSelects(if eq then Equal else NotEqual, value, v, w, PerWord(w), sel, start)
    requires st.Valid()
    modifies st
    ensures st.Valid()
    ensures (st.found, go) == Scan(old(st.found), st.limit, sel, start, start + PerWord(w), base)
  {
    hide Pow2, Fits, PerWord, ValueMask, Scan, WordSelects, PicksSelected, Xor;
    XorPicks(eq, w, value, v, sel, start);
    go := ScanLanes(eq, w, Xor(v, ValueMask(w, value)), st, start, base, sel);
  }

  method CompareEquality(eq: bool, data: seq<Byte>, w: Width, size: nat, value: int, start: nat, end: nat, base: nat,
                         st: QueryState)
    returns (go: bool)
    requires Holds(data, w, size) && 0 < w && Fits(w, value) && start <= end <= size
    requires st.Valid() && TellsAll(st.truth, Elements(data, w, size), base)
    modifies st
    ensures st.Valid()
    ensures (st.found, go) ==
            Scan(old(st.found), st.limit, Selection(if eq then Equal else NotEqual, value, Elements(data, w, size)),
                start, end, base)
  {
    hide Holds, Elements, Selection, Pow2, Fits, PerWord, ValueMask, Scan, WordSelects, PicksSelected, LittleEndian,
         EndByte, WordHolds, TellsAll;
    var c := if eq then Equal else NotEqual;
    ghost var sel := Selection(c, value, Elements(data, w, size));
    ghost var found, limit := st.found, st.limit;
    var ee, j := AlignedStart(start, PerWord(w), end);
    go := ScanEach(c, value, data, w, size, start, ee, base, false, st);
    ScanSplit(found, limit, sel, start, ee, end, base);
    if !go || ee >= end {
      ScanEnd(st.found, limit, sel, end, base);
      return;
    }
    var at := ee;
    if w < 32 {
      while 8 * (j + 1) < EndByte(end, w)
        invariant at == j * PerWord(w) && ee <= at <= end && st.Valid()
        invariant Scan(found, limit, sel, start, end, base) == Scan(st.found, limit, sel, at, end, base)
        decreases end - at
      {
        WholeWord(data, w, size, end, j);
        Distrib(PerWord(w), j, 1);
        WordOfElements(data, w, size, j, PerWord(w), at);
        WordSelected(c, value, Word(data, j), w, PerWord(w), Elements(data, w, size), at);
        ghost var before := st.found;
        go := EqualityWord(eq, w, value, Word(data, j), st, at, base, sel);
        ScanSplit(before, limit, sel, at, at + PerWord(w), end, base);
        if !go {
          return;
        }
        j := j + 1;
        at := j * PerWord(w);
      }
    }
    go := ScanEach(c, value, data, w, size, at, end, base, false, st);
  }

  lemma ScanEnd(found: seq<nat>, limit: nat, sel: seq<bool>, end: nat, base: nat)
    requires end <= |sel|
    ensures Scan(found, limit, sel, end, end, base) == (found, true)
  {
  }

  // ----- order, a word at a time -----

  function Relation(gt: bool): (c: Cond) {
    if gt then Greater else Less
  }

  /** The lanes of `c` are those of `v` from `i` on. */
  ghost predicate From(c: nat, v: nat, w: nat, i: nat) {
    forall k :: 0 <= k ==> Lane(c, w, k) == Lane(v, w, i + k)
  }

  lemma FromSelf(v: nat, w: nat)
    ensures From(v, v, w, 0)
  {
    hide Lane;
  }

  lemma FromNext(c: nat, v: nat, w: nat, i: nat)
    requires From(c, v, w, i)
    ensures Low(c, w) == Lane(v, w, i) && From(High(c, w), v, w, i + 1)
  {
    hide Low, High, Pow2;
    assert Lane(c, w, 0) == Lane(v, w, i + 0);
    forall k | 0 <= k ensures Lane(High(c, w), w, k) == Lane(v, w, i + 1 + k) {
      assert Lane(c, w, k + 1) == Lane(v, w, i + (k + 1));
    }
  }

  /** One word lane by lane. */
  method FindGtlt(gt: bool, w: Width, value: int, v0: nat, st: QueryState, start: nat, base: nat, ghost sel: seq<bool>)
    returns (go: bool)
    requires Packed(w) && WordSelects(Relation(gt), value, v0, w, PerWord(w), sel, start)
    requires st.Valid() && WordTells(st.truth, v0, w, PerWord(w), start + base)
    modifies st
    ensures st.Valid()
    ensures (st.found, go) == Scan(old(st.found), st.limit, sel, start, start + PerWord(w), base)
  {
    var chunk: nat, i: nat, n := v0, 0, PerWord(w);
    ghost var found := st.found;
    hide PerWord, Low, High, Signed, Lane, From, Pow2, Tells;
    FromSelf(v0, w);
    while i < n
      invariant i <= n && From(chunk, v0, w, i) && st.Valid()
      invariant Scan(found, st.limit, sel, start, start + n, base) ==
                Scan(st.found, st.limit, sel, start + i, start + n, base)
    {
      var v := Signed(w, Low(chunk, w));
      FromNext(chunk, v0, w, i);
      assert sel[start + i] == Satisfies(Relation(gt), v, value);
      assert Tells(st.truth, start + base + i, v);
      if if gt then v > value else v < value {
        go := st.Match(i + start + base, Some(v));
        if !go {
          return;
        }
      }
      chunk := High(chunk, w);
      i := i + 1;
    }
    go := true;
  }

  /** All lanes have their top bit clear. */
  ghost predicate TopsClear(v: nat, w: Width, n: nat)
    requires 0 < w
  {
    forall i :: 0 <= i < n ==> Lane(v, w, i) < Pow2(w - 1)
  }

  lemma TopsTest(w: Width, v: nat)
    requires Packed(w) && And(LowerBits(w) * Pow2(w - 1), v) == 0
    ensures TopsClear(v, w, PerWord(w))
  {
    hide Pow2, And, Lane, Rep, PerWord;
    var n, top := PerWord(w), Pow2(w - 1);
    LowerBitsRepeat(w);
    RepScale(top, w, n);
    Pow2Mono(w - 1, w);
    forall i | 0 <= i < n ensures Lane(v, w, i) < top {
      AndLane(Rep(top, w, n), v, w, i);
      RepLane(top, w, n, i);
      ZeroLane(w, i);
      AndComm(top, Lane(v, w, i));
      AndTop(Lane(v, w, i), w);
    }
  }

  /** The constant added to each lane: `~0 / mask1 * (mask2 - v)`, or `* v` for Less, modulo 2^64. */
  function Magic(gt: bool, w: Width, value: int): (r: nat)
    requires Packed(w)
    ensures r < Pow2(64)
  {
    Powers();
    hide Pow2;
    var mask1, mask2 := Pow2(w) - 1, Pow2(w - 1) - 1;
    ((Pow2(64) - 1) / mask1 * (if gt then mask2 - value else value)) % Pow2(64)
  }

  /** When the word is tested with one addition. */
  predicate Fast(gt: bool, w: Width, value: int)
    requires Packed(w)
  {
    && value != Low(Magic(gt, w, value), w)
    && value >= 0 && w >= 2
    && value <= Pow2(w - 1) - 1 - (if gt then 1 else 0)
  }

  lemma MagicRepeats(gt: bool, w: Width, value: int, x: nat)
    requires Packed(w) && x == (if gt then Pow2(w - 1) - 1 - value else value) && x < Pow2(w)
    ensures Magic(gt, w, value) == Rep(x, w, PerWord(w)) && Low(Magic(gt, w, value), w) == x
  {
    hide Pow2, Rep, Cap, Low, Lane, PerWord;
    var n := PerWord(w);
    Pow2Mono(1, w);
    assert Pow2(w) > 1 by { Powers(); }
    WordCap(w);
    RepOnes(w, n);
    RepScale(x, w, n);
    RepBound(x, w, n);
    RepLow(x, w, n);
    var q, r := (Pow2(64) - 1) / (Pow2(w) - 1), Rep(x, w, n);
    assert q * x == r;
    Split(r, Pow2(64), r, 0);
  }

  lemma RepLow(x: nat, w: nat, n: nat)
    requires x < Pow2(w) && 0 < n
    ensures Low(Rep(x, w, n), w) == x
  {
    RepLane(x, w, n, 0);
    hide Rep, Low, Pow2;
  }

  /** The addition test is never used for Less: its constant repeats the value itself. */
  lemma LessNeverFast(w: Width, value: int)
    requires Packed(w)
    ensures !Fast(false, w, value)
  {
    Pow2Mono(w - 1, w);
    if 0 <= value <= Pow2(w - 1) - 1 {
      MagicRepeats(false, w, value, value);
    }
  }

  /** For Greater it is used exactly for the values that leave room for it. */
  lemma GreaterFast(w: Width, value: int)
    requires Packed(w)
    ensures Fast(true, w, value) <==> w >= 2 && 0 <= value <= Pow2(w - 1) - 2
    ensures Fast(true, w, value) ==> Magic(true, w, value) == Rep(Pow2(w - 1) - 1 - value, w, PerWord(w))
  {
    hide Magic, Low, Rep, Pow2, PerWord;
    Pow2Mono(w - 1, w);
    if w >= 2 && 0 <= value <= Pow2(w - 1) - 2 {
      TwiceTop(w - 1);
      MagicRepeats(true, w, value, Pow2(w - 1) - 1 - value);
    }
  }

  /** `((chunk + magic) | chunk) & tops` */
  function GreaterFlags(w: Width, v: nat, magic: nat): (r: nat)
    requires Packed(w)
  {
    Powers();
    hide Pow2;
    And(Or((v + magic) % Pow2(64), v), (Pow2(64) - 1) / (Pow2(w) - 1) * Pow2(w - 1))
  }

  /** No lane of the sum overflows. */
  ghost predicate NoCarry(v: nat, v': nat, w: nat, n: nat) {
    forall j :: 0 <= j < n ==> Lane(v, w, j) + Lane(v', w, j) < Pow2(w)
  }

  /** No carry leaves a lane, and the top bit of a lane is set exactly when its value is greater. */
  lemma FlagsExact(w: Width, value: int, v: nat, sel: seq<bool>, start: nat)
    requires Packed(w) && v < Pow2(64) && TopsClear(v, w, PerWord(w)) && 0 <= value <= Pow2(w - 1) - 2
    requires WordSelects(Greater, value, v, w, PerWord(w), sel, start)
    ensures GreaterFlags(w, v, Rep(Pow2(w - 1) - 1 - value, w, PerWord(w))) < Pow2(64)
    ensures PicksSelected(false, GreaterFlags(w, v, Rep(Pow2(w - 1) - 1 - value, w, PerWord(w))), w, PerWord(w), sel,
            start)
  {
    hide Pow2, Lane, Rep, Or, And, PerWord, Cap, Signed, NoCarry, GreaterFlags;
    var n := PerWord(w);
    var x := Pow2(w - 1) - 1 - value;
    Room(w, v, x);
    WordCap(w);
    var m := GreaterFlags(w, v, Rep(x, w, n));
    forall i | 0 <= i < n ensures sel[start + i] == Picks(false, Lane(m, w, i)) {
      FlagAt(w, n, v, x, i);
      SmallIsSigned(w, Lane(v, w, i));
    }
  }

  /** The sum fits the word and its flags are those of the lanes. */
  lemma Room(w: Width, v: nat, x: nat)
    requires Packed(w) && v < Pow2(64) && TopsClear(v, w, PerWord(w)) && x < Pow2(w - 1)
    ensures NoCarry(v, Rep(x, w, PerWord(w)), w, PerWord(w)) && v + Rep(x, w, PerWord(w)) < Pow2(64)
    ensures GreaterFlags(w, v, Rep(x, w, PerWord(w))) ==
            And(Or(v + Rep(x, w, PerWord(w)), v), Rep(Pow2(w - 1), w, PerWord(w))) < Pow2(64)
  {
    hide Pow2, Lane, Rep, Or, And, PerWord, Cap, NoCarry;
    var n, top := PerWord(w), Pow2(w - 1);
    WordCap(w);
    NothingCarried(w, n, v, x);
    TwiceTop(w);
    RepOnes(w, n);
    RepScale(top, w, n);
    RepBound(top, w, n);
    var sum := v + Rep(x, w, n);
    Split(sum, Pow2(64), sum, 0);
  }

  lemma NothingCarried(w: Width, n: nat, v: nat, x: nat)
    requires 0 < w && v < Cap(w, n) && TopsClear(v, w, n) && x < Pow2(w - 1)
    ensures NoCarry(v, Rep(x, w, n), w, n) && v + Rep(x, w, n) < Cap(w, n)
  {
    hide Pow2, Lane, Rep, Cap;
    TwiceTop(w);
    RepBound(x, w, n);
    forall j | 0 <= j < n ensures Lane(v, w, j) + Lane(Rep(x, w, n), w, j) < Pow2(w) {
      RepLane(x, w, n, j);
    }
    SumBound(v, Rep(x, w, n), w, n);
  }

  lemma FlagAt(w: nat, n: nat, v: nat, x: nat, i: nat)
    requires 0 < w && v < Cap(w, n) && i < n && x < Pow2(w - 1) && Lane(v, w, i) < Pow2(w - 1)
    requires NoCarry(v, Rep(x, w, n), w, n)
    ensures Lane(And(Or(v + Rep(x, w, n), v), Rep(Pow2(w - 1), w, n)), w, i) != 0 <==>
            Lane(v, w, i) + x >= Pow2(w - 1)
  {
    hide Pow2, Lane, Rep, Or, And, Cap;
    TwiceTop(w);
    var top := Pow2(w - 1);
    var magic, tops := Rep(x, w, n), Rep(top, w, n);
    RepBound(x, w, n);
    AddLane(v, magic, w, n, i);
    RepLane(x, w, n, i);
    RepLane(top, w, n, i);
    AndLane(Or(v + magic, v), tops, w, i);
    OrLane(v + magic, v, w, i);
    FlagLane(w, Lane(v, w, i), x);
  }

  lemma TwiceTop(w: nat)
    requires 0 < w
    ensures Pow2(w) == 2 * Pow2(w - 1)
  {
  }

  lemma SmallIsSigned(w: Width, x: nat)
    requires 0 < w && x < Pow2(w - 1)
    ensures x < Pow2(w) && Signed(w, x) == x
  {
    Pow2Mono(w - 1, w);
  }

  lemma SumBound(v: nat, v': nat, w: nat, n: nat)
    requires v < Cap(w, n) && v' < Cap(w, n)
    requires forall j :: 0 <= j < n ==> Lane(v, w, j) + Lane(v', w, j) < Pow2(w)
    ensures v + v' < Cap(w, n)
  {
    if n > 0 {
      AddLane(v, v', w, n, 0);
    }
  }

  lemma OrAtLeast(y: nat, x: nat)
    ensures Or(y, x) >= y
  {
    hide And, Or;
    assert Or(y, x) + And(y, x) == y + x;
  }

  lemma FlagLane(w: nat, x: nat, d: nat)
    requires 0 < w && x < Pow2(w - 1) && d < Pow2(w - 1)
    ensures And(Or(x + d, x), Pow2(w - 1)) != 0 <==> x + d >= Pow2(w - 1)
  {
    TwiceTop(w);
    hide Pow2, And, Or;
    var y := x + d;
    OrBound(w, y, x);
    AndTop(Or(y, x), w);
    if y < Pow2(w - 1) {
      OrBound(w - 1, y, x);
    }
    OrAtLeast(y, x);
  }

  /** A lane with its top bit clear, cut out of the word, is the element. */
  lemma LaneTold(truth: map<int, int>, chunk: nat, w: Width, n: nat, at: nat, p: nat)
    requires 0 < w && p < n && TopsClear(chunk, w, n) && WordTells(truth, chunk, w, n, at)
    ensures Tells(truth, at + p, Field(chunk, w * p, w))
  {
    hide Lane, Pow2, Field, Signed, Tells;
    LaneIsField(chunk, w, p);
    SmallIsSigned(w, Lane(chunk, w, p));
  }

  /** One word at once, when all its lanes have their top bit clear. */
  method FindGreaterFast(w: Width, chunk: nat, m0: nat, st: QueryState, start: nat, base: nat, ghost sel: seq<bool>)
    returns (go: bool)
    requires Packed(w) && m0 < Pow2(64) && PicksSelected(false, m0, w, PerWord(w), sel, start)
    requires TopsClear(chunk, w, PerWord(w))
    requires st.Valid() && WordTells(st.truth, chunk, w, PerWord(w), start + base)
    modifies st
    ensures st.Valid()
    ensures (st.found, go) == Scan(old(st.found), st.limit, sel, start, start + PerWord(w), base)
  {
    hide Pow2, Lane, Cap, Dropped, LowestBit, FirstSetBit64, PerWord, Tells, WordTells, TopsClear;
    var m: nat, p: nat, n := m0, 0, PerWord(w);
    WordCap(w);
    ghost var found := st.found;
    while m != 0
      invariant p <= n && m < Pow2(64) && Rest(m, m0, w, n, p) && st.Valid()
      invariant Scan(found, st.limit, sel, start, start + n, base) ==
                Scan(st.found, st.limit, sel, start + p, start + n, base)
      decreases n - p
    {
      FirstSetBit64Exact(m);
      LowestLane(m, w);
      var t := FirstSetBit64(m) / w;
      if p + t >= n {
        LaneBeyond(m, w, n, if t < n then n else t);
        assert false;
      }
      SkipLanes(st.found, st.limit, sel, base, false, m, m0, w, n, start, p, t);
      assert Lane(m, w, t) == Lane(m0, w, p + t);
      assert sel[start + (p + t)];
      RestShift(m, m0, w, n, p, t);
      p := p + t;
      LaneTold(st.truth, chunk, w, n, start + base, p);
      go := st.Match(p + start + base, Some(Field(chunk, w * p, w)));
      if !go {
        return;
      }
      m := Dropped(m, w, t);
      p := p + 1;
    }
    SomeLane(false, w, m);
    NoneBelowLess(false, m, w, n - p, n);
    SkipLanes(st.found, st.limit, sel, base, false, m, m0, w, n, start, p, n - p);
    go := true;
  }

  method CompareRelation(gt: bool, data: seq<Byte>, w: Width, size: nat, value: int, start: nat, end: nat, base: nat,
                         st: QueryState)
    returns (go: bool)
    requires Holds(data, w, size) && 0 < w && start <= end <= size
    requires st.Valid() && TellsAll(st.truth, Elements(data, w, size), base)
    modifies st
    ensures st.Valid()
    ensures (st.found, go) ==
            Scan(old(st.found), st.limit, Selection(Relation(gt), value, Elements(data, w, size)), start, end, base)
  {
    hide Holds, Elements, Selection, Pow2, PerWord, Magic, Scan, WordSelects, LittleEndian, Fast, EndByte,
         WordHolds, TellsAll, WordTells;
    var c := Relation(gt);
    ghost var sel := Selection(c, value, Elements(data, w, size));
    ghost var found, limit := st.found, st.limit;
    var ee, j := AlignedStart(start, PerWord(w), end);
    go := ScanEach(c, value, data, w, size, start, ee, base, true, st);
    ScanSplit(found, limit, sel, start, ee, end, base);
    if !go || ee >= end {
      ScanEnd(st.found, limit, sel, end, base);
      return;
    }
    var at := ee;
    if w < 32 {
      while 8 * (j + 1) < EndByte(end, w)
        invariant at == j * PerWord(w) && ee <= at <= end && st.Valid()
        invariant Scan(found, limit, sel, start, end, base) == Scan(st.found, limit, sel, at, end, base)
        decreases end - at
      {
        WholeWord(data, w, size, end, j);
        Distrib(PerWord(w), j, 1);
        WordOfElements(data, w, size, j, PerWord(w), at);
        WordSelected(c, value, Word(data, j), w, PerWord(w), Elements(data, w, size), at);
        WordTold(st.truth, Word(data, j), w, PerWord(w), Elements(data, w, size), at, base);
        ghost var before := st.found;
        go := RelationWord(gt, w, value, Word(data, j), st, at, base, sel);
        ScanSplit(before, limit, sel, at, at + PerWord(w), end, base);
        if !go {
          return;
        }
        j := j + 1;
        at := j * PerWord(w);
      }
    }
    go := ScanEach(c, value, data, w, size, at, end, base, false, st);
  }

  /** One word, by the addition test when it applies and lane by lane otherwise. */
  method RelationWord(gt: bool, w: Width, value: int, v: nat, st: QueryState, start: nat, base: nat,
      ghost sel: seq<bool>)
    returns (go: bool)
    requires Packed(w) && v < Pow2(64) && WordSelects(Relation(gt), value, v, w, PerWord(w), sel, start)
    requires st.Valid() && WordTells(st.truth, v, w, PerWord(w), start + base)
    modifies st
    ensures st.Valid()
    ensures (st.found, go) == Scan(old(st.found), st.limit, sel, start, start + PerWord(w), base)
  {
    hide Pow2, PerWord, Magic, Scan, WordSelects, PicksSelected, Fast, GreaterFlags, And, LowerBits, TopsClear,
         WordTells;
    if Fast(gt, w, value) && And(LowerBits(w) * Pow2(w - 1), v) == 0 {
      LessNeverFast(w, value);
      GreaterFast(w, value);
      TopsTest(w, v);
      FlagsExact(w, value, v, sel, start);
      go := FindGreaterFast(w, v, GreaterFlags(w, v, Magic(gt, w, value)), st, start, base, sel);
    } else {
      go := FindGtlt(gt, w, value, v, st, start, base, sel);
    }
  }

  // ----- the whole search -----

  /** Whether an element between the bounds of the width can satisfy the condition. */
  predicate CanMatch(c: Cond, v: int, lb: int, ub: int) {
    match c
    case Equal => lb <= v <= ub
    case NotEqual => !(v == 0 && lb == 0 && ub == 0)
    case Greater => ub > v
    case Less => lb < v
  }

  /** Whether all elements between the bounds satisfy it. */
  predicate WillMatch(c: Cond, v: int, lb: int, ub: int) {
    match c
    case Equal => v == 0 && lb == 0 && ub == 0
    case NotEqual => v > ub || v < lb
    case Greater => lb > v
    case Less => ub < v
  }

  method FindAllWillMatch(start: nat, end: nat, base: nat, st: QueryState, ghost sel: seq<bool>) returns (go: bool)
    requires start <= end <= |sel| && |st.found| < st.limit
    requires forall i :: start <= i < end ==> sel[i]
    requires st.Valid()
    modifies st
    ensures st.Valid()
    ensures (st.found, go) == Scan(old(st.found), st.limit, sel, start, end, base)
  {
    var process := st.limit - |st.found|;
    var end2 := if end - start > process then start + process else end;
    var i := start;
    while i < end2
      invariant start <= i <= end2 && |st.found| == |old(st.found)| + (i - start)
      invariant i < end2 || end2 == end
      invariant |st.found| < st.limit && st.Valid()
      invariant Scan(old(st.found), st.limit, sel, start, end, base) == Scan(st.found, st.limit, sel, i, end, base)
    {
      go := st.Match(i + base, None);
      if !go {
        return;
      }
      i := i + 1;
    }
    go := true;
  }

  /** The bounds of the width decide only what holds of every element. */
  lemma BoundsDecide(data: seq<Byte>, w: Width, size: nat, c: Cond, value: int, i: nat)
    requires Holds(data, w, size) && i < size
    ensures !CanMatch(c, value, LowerBound(w), UpperBound(w)) ==> !Selection(c, value, Elements(data, w, size))[i]
    ensures WillMatch(c, value, LowerBound(w), UpperBound(w)) ==> Selection(c, value, Elements(data, w, size))[i]
  {
    ElementAt(data, w, size, i);
    hide Get, Holds, LowerBound, UpperBound;
    var x := Get(data, w, i);
    assert Fits(w, x);
  }

  /** They are exact: whether some value of the width can satisfy the condition, and whether all do. */
  lemma BoundsExact(w: Width, c: Cond, value: int)
    ensures CanMatch(c, value, LowerBound(w), UpperBound(w)) <==> exists x :: Fits(w, x) && Satisfies(c, x, value)
    ensures WillMatch(c, value, LowerBound(w), UpperBound(w)) <==> forall x :: Fits(w, x) ==> Satisfies(c, x, value)
  {
    Powers();
    hide Pow2;
    var lb, ub := LowerBound(w), UpperBound(w);
    assert lb <= 0 <= ub && (lb == ub <==> w == 0);
    assert Fits(w, lb) && Fits(w, ub);
    if c.Equal? && lb <= value <= ub {
      assert Fits(w, value) && Satisfies(c, value, value);
    }
    assert Satisfies(c, lb, value) || Satisfies(c, ub, value) ==> exists x :: Fits(w, x) && Satisfies(c, x, value);
    if c.NotEqual? && lb <= value <= ub {
      assert Fits(w, value) && !Satisfies(c, value, value);
    }
  }

  /** The search reports what the plain scan reports, in the same order, and stops when it stops;
      a value handed over with an index is the element. */
  method Optimized(c: Cond, data: seq<Byte>, w: Width, size: nat, value: int, start: nat, end': nat, base: nat,
      st: QueryState)
    returns (go: bool)
    requires Holds(data, w, size) && start <= size && (end' <= size || end' == NPOS) && start <= end'
    requires |st.found| < st.limit
    requires st.Valid() && TellsAll(st.truth, Elements(data, w, size), base)
    modifies st
    ensures st.Valid()
    ensures (st.found, go) ==
            Scan(old(st.found), st.limit, Selection(c, value, Elements(data, w, size)), start,
                 if end' == NPOS then size else end', base)
  {
    hide Holds, Elements, Selection, Pow2, TellsAll;
    var end := if end' == NPOS then size else end';
    ghost var sel := Selection(c, value, Elements(data, w, size));
    if !(size > start && start < end) {
      return true;
    }
    var lb, ub := LowerBound(w), UpperBound(w);
    forall i | start <= i < end
      ensures !CanMatch(c, value, lb, ub) ==> !sel[i]
      ensures WillMatch(c, value, lb, ub) ==> sel[i]
    {
      BoundsDecide(data, w, size, c, value, i);
    }
    if !CanMatch(c, value, lb, ub) {
      ScanSkip(st.found, st.limit, sel, start, end, end, base);
      return true;
    }
    if WillMatch(c, value, lb, ub) {
      go := FindAllWillMatch(start, end, base, st, sel);
      return;
    }
    Powers();
    assert w != 0;
    match c {
      case Equal => go := CompareEquality(true, data, w, size, value, start, end, base, st);
      case NotEqual => go := CompareEquality(false, data, w, size, value, start, end, base, st);
      case Greater => go := CompareRelation(true, data, w, size, value, start, end, base, st);
      case Less => go := CompareRelation(false, data, w, size, value, start, end, base, st);
    }
  }
}
