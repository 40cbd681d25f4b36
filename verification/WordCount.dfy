/** Summing the lanes of one word, and counting the lanes that hold a value. */
module WordCount {
  import opened Bits
  import opened Lanes
  import opened LaneSums
  import opened PopCount
  import opened DirectAccess
  import opened Find

  const M1 := 0x5555_5555_5555_5555
  const M2 := 0x3333_3333_3333_3333
  const M4 := 0x0f0f_0f0f_0f0f_0f0f

  lemma Masks()
    ensures Halves(1, 32) == M1 && Halves(2, 16) == M2 && Halves(4, 8) == M4 && Rep(1, 8, 8) == 0x0101_0101_0101_0101
  {
    Powers();
    hide Pow2, Rep;
    LowerBitsRepeat(2);
    LowerBitsRepeat(4);
    LowerBitsRepeat(8);
    RepScale(3, 4, 16);
    RepScale(15, 8, 8);
  }

  lemma Caps()
    ensures Cap(1, 64) == Cap(2, 32) == Cap(4, 16) == Cap(8, 8) == Cap(16, 4) == Pow2(64)
  {
    hide Cap, Pow2;
    CapIsPow2(1, 64);
    CapIsPow2(2, 32);
    CapIsPow2(4, 16);
    CapIsPow2(8, 8);
    CapIsPow2(16, 4);
  }

  // ----- adding up lanes -----

  /** `(a & m2) + ((a >> 2) & m2)` */
  function Fold2(a: nat): (r: nat) {
    And(a, M2) + And(High(a, 2), M2)
  }

  /** `(a + (a >> 4)) & m4` */
  function Fold4(a: nat): (r: nat) {
    And(Low(a + High(a, 4), 64), M4)
  }

  /** Lanes of 4 bits holding at most 6 add up to lanes of 8 bits without a carry. */
  lemma SumOf4(a: nat)
    requires a < Pow2(64) && forall i :: 0 <= i < 16 ==> Lane(a, 4, i) <= 6
    ensures SumBytes(Fold4(a)) == LaneSum(a, 4, 16)
  {
    Powers();
    hide Pow2, Low, High, Lane, And, Halves, Cap, Rep, LaneSum, SumBytes;
    Masks();
    Caps();
    var u := High(a, 4);
    forall i | 0 <= i < 16 ensures Lane(a, 4, i) + Lane(u, 4, i) < Pow2(4) {
      NextLane(a, 4, i);
      if i == 15 {
        LaneBeyond(a, 4, 16, 16);
      }
    }
    AddThenMask(a, 4, 8);
    LowSmall(a + u, 64);
    var r := And(a + u, M4);
    PairSumsTotal(r, a, 4, 8);
    forall i | 0 <= i < 8 ensures Lane(r, 8, i) <= 12 {
      PairAt(r, a, 4, 8, i);
    }
    LaneSumBound(r, 8, 8, 12);
    SumBytesExact(r);
  }

  /** Lanes of 2 bits, all of them. */
  lemma SumOf2(a: nat)
    requires a < Pow2(64)
    ensures SumBytes(Fold4(Fold2(a))) == LaneSum(a, 2, 32)
  {
    Powers();
    hide Pow2, Low, High, Lane, And, Halves, Cap, Rep, LaneSum, SumBytes, Fold4;
    Masks();
    Caps();
    AddHalves(a, 2, 16);
    var r := Fold2(a);
    PairSumsTotal(r, a, 2, 16);
    forall i | 0 <= i < 16 ensures Lane(r, 4, i) <= 6 {
      PairAt(r, a, 2, 16, i);
    }
    SumOf4(r);
  }

  /** The sum of the elements in a word, widths below 8. */
  function SumWord(w: Width, a: nat): (r: nat)
    requires (w == 1 || w == 2 || w == 4) && a < Pow2(64)
  {
    if w == 1 then PopCount64(a)
    else if w == 2 then SumBytes(Fold4(Fold2(a)))
    else SumBytes(And(a, M4) + And(High(a, 4), M4))
  }

  lemma SumWordExact(w: Width, a: nat)
    requires (w == 1 || w == 2 || w == 4) && a < Pow2(64)
    ensures SumWord(w, a) == LaneSum(a, w, PerWord(w))
  {
    Powers();
    hide Pow2, Low, High, Lane, And, Halves, Cap, Rep, LaneSum, SumBytes, Fold4, Fold2, PopCount64;
    Masks();
    Caps();
    if w == 1 {
      PopCount64Exact(a);
    } else if w == 2 {
      SumOf2(a);
    } else {
      AddHalves(a, 4, 8);
      var r := And(a, M4) + And(High(a, 4), M4);
      PairSumsTotal(r, a, 4, 8);
      forall i | 0 <= i < 8 ensures Lane(r, 8, i) <= 30 {
        PairAt(r, a, 4, 8, i);
      }
      LaneSumBound(r, 8, 8, 30);
      SumBytesExact(r);
    }
  }

  // ----- flagging zero lanes -----

  /** Every bit ored into the bits below it in its lane, by shifts of `s`, `2 * s`, ... */
  function Spread(w: nat, n: nat, a: nat, s: nat): (r: nat)
    requires 0 < s
    decreases w - s
  {
    if s >= w then a else Spread(w, n, Or(a, And(High(a, s), Rep(Pow2(w - s) - 1, w, n))), 2 * s)
  }

  function SpreadLane(w: nat, x: nat, s: nat): (r: nat)
    requires 0 < s
    decreases w - s
  {
    if s >= w then x else SpreadLane(w, Or(x, High(x, s)), 2 * s)
  }

  /** The mask keeps the shifted bits inside their lane. */
  lemma ShiftedLane(w: nat, n: nat, a: nat, s: nat, i: nat)
    requires s < w && i < n
    ensures Lane(And(High(a, s), Rep(Pow2(w - s) - 1, w, n)), w, i) == High(Lane(a, w, i), s)
  {
    hide Pow2, Low, High, Lane, And, Rep;
    AndLane(High(a, s), Rep(Pow2(w - s) - 1, w, n), w, i);
    Pow2Mono(w - s, w);
    RepLane(Pow2(w - s) - 1, w, n, i);
    AndMask(Lane(High(a, s), w, i), w - s);
    LaneIsField(High(a, s), w, i);
    LaneIsField(a, w, i);
    var m := w * i;
    HighHigh(a, s, m);
    HighHigh(a, m, s);
    LowLow(High(a, m + s), w - s, w);
    HighLow(High(a, m), s, w);
  }

  lemma {:induction false} SpreadLanes(w: nat, n: nat, a: nat, s: nat, i: nat)
    requires 0 < s && i < n
    ensures Lane(Spread(w, n, a, s), w, i) == SpreadLane(w, Lane(a, w, i), s)
    decreases w - s
  {
    hide Pow2, Low, High, Lane, And, Or, Rep;
    if s < w {
      var b := And(High(a, s), Rep(Pow2(w - s) - 1, w, n));
      SpreadLanes(w, n, Or(a, b), 2 * s, i);
      OrLane(a, b, w, i);
      ShiftedLane(w, n, a, s, i);
    }
  }

  predicate Bit(x: nat, p: nat) {
    High(x, p) % 2 == 1
  }

  lemma OrBit(a: nat, b: nat, p: nat)
    ensures Bit(Or(a, b), p) <==> Bit(a, p) || Bit(b, p)
  {
    hide High, Low, Pow2, Or;
    OrParts(a, b, p);
    OrOdd(High(a, p), High(b, p));
  }

  lemma OrOdd(x: nat, y: nat)
    ensures Or(x, y) % 2 == 1 <==> x % 2 == 1 || y % 2 == 1
  {
    hide And, Or;
    OrStep(x, y);
    Parity(Or(x, y), Or(x / 2, y / 2), if x % 2 == 1 || y % 2 == 1 then 1 else 0);
  }

  lemma {:induction false} OrStep(x: nat, y: nat)
    ensures Or(x, y) == 2 * Or(x / 2, y / 2) + if x % 2 == 1 || y % 2 == 1 then 1 else 0
  {
    hide And;
  }

  lemma Parity(r: nat, o: nat, bit: nat)
    requires r == 2 * o + bit && bit < 2
    ensures r % 2 == bit
  {
  }

  /** Bit `p` of `y` says whether `s` bits of `x` from `p` on are not all zero. */
  ghost predicate Covers(y: nat, x: nat, s: nat) {
    forall p :: 0 <= p ==> (Bit(y, p) <==> Field(x, p, s) != 0)
  }

  lemma CoversStep(y: nat, x: nat, s: nat)
    requires Covers(y, x, s)
    ensures Covers(Or(y, High(y, s)), x, 2 * s)
  {
    hide Or, Pow2, Field;
    forall p | 0 <= p ensures Bit(Or(y, High(y, s)), p) <==> Field(x, p, 2 * s) != 0 {
      OrBit(y, High(y, s), p);
      HighHigh(y, s, p);
      FieldJoin(x, p, s, s);
      Nonzero(Pow2(s), Field(x, p + s, s));
      assert Bit(y, p + s) <==> Field(x, p + s, s) != 0;
      hide High;
    }
  }

  lemma {:induction false} SpreadCovers(w: nat, y: nat, x: nat, s: nat)
    requires 0 < s && Covers(y, x, s) && x < Pow2(w)
    ensures SpreadLane(w, y, s) % 2 == 1 <==> x != 0
    decreases w - s
  {
    hide Covers, Or, Low;
    if s >= w {
      Pow2Mono(w, s);
      LowSmall(x, s);
      CoversLow(y, x, s);
    } else {
      CoversStep(y, x, s);
      SpreadCovers(w, Or(y, High(y, s)), x, 2 * s);
    }
  }

  lemma CoversLow(y: nat, x: nat, s: nat)
    requires Covers(y, x, s)
    ensures y % 2 == 1 <==> Low(x, s) != 0
  {
    assert Bit(y, 0) <==> Field(x, 0, s) != 0;
  }

  lemma CoversSelf(x: nat)
    ensures Covers(x, x, 1)
  {
    forall p | 0 <= p ensures Bit(x, p) <==> Field(x, p, 1) != 0 {
    }
  }

  /** 1 in the lanes of `a` that are zero, 0 in the others. */
  function Flags(w: nat, n: nat, a: nat): (r: nat) {
    Xor(And(Spread(w, n, a, 1), Rep(1, w, n)), Rep(1, w, n))
  }

  lemma FlagsLane(w: nat, n: nat, a: nat, i: nat)
    requires 0 < w && i < n
    ensures Lane(Flags(w, n, a), w, i) == if Lane(a, w, i) == 0 then 1 else 0
  {
    hide Pow2, Low, High, Lane, And, Or, Xor, Rep, Spread, SpreadLane;
    var m, x := Rep(1, w, n), Lane(a, w, i);
    Pow2Mono(1, w);
    assert 1 < Pow2(w) by { Powers(); }
    XorLane(And(Spread(w, n, a, 1), m), m, w, i);
    AndLane(Spread(w, n, a, 1), m, w, i);
    RepLane(1, w, n, i);
    SpreadLanes(w, n, a, 1, i);
    CoversSelf(x);
    SpreadCovers(w, x, x, 1);
    LowBit(SpreadLane(w, x, 1));
  }

  lemma LowBit(y: nat)
    ensures Xor(And(y, 1), 1) == if y % 2 == 1 then 0 else 1
  {
    AndZero(y / 2);
    assert And(y, 1) == y % 2 by { AndStep(y, 1); }
  }

  // ----- counting the lanes that hold a value -----

  /** How many lanes of two words agree. */
  function Agreeing(a: nat, v: nat, w: nat, n: nat): (r: nat) {
    if n == 0 then 0 else Agreeing(a, v, w, n - 1) + (if Lane(a, w, n - 1) == Lane(v, w, n - 1) then 1 else 0)
  }

  lemma {:induction false} FlagsSum(a: nat, v: nat, w: nat, n: nat, f: nat)
    requires forall i :: 0 <= i < n ==> Lane(f, w, i) == if Lane(a, w, i) == Lane(v, w, i) then 1 else 0
    ensures LaneSum(f, w, n) == Agreeing(a, v, w, n)
  {
    hide Lane;
    if n > 0 {
      FlagsSum(a, v, w, n - 1, f);
    }
  }

  /** The flags of the exclusive or add up to the number of agreeing lanes. */
  lemma FlagsCount(a: nat, v: nat, w: nat, n: nat)
    requires 0 < w && a < Cap(w, n) && v < Cap(w, n)
    ensures Flags(w, n, Xor(a, v)) < Cap(w, n)
    ensures LaneSum(Flags(w, n, Xor(a, v)), w, n) == Agreeing(a, v, w, n)
    ensures forall i :: 0 <= i < n ==> Lane(Flags(w, n, Xor(a, v)), w, i) <= 1
  {
    hide Pow2, Lane, Xor, Cap, LaneSum, Agreeing, Flags;
    var f := Flags(w, n, Xor(a, v));
    forall i | 0 <= i < n ensures Lane(f, w, i) == if Lane(a, w, i) == Lane(v, w, i) then 1 else 0 {
      FlagsLane(w, n, Xor(a, v), i);
      XorLane(a, v, w, i);
      XorZero(Lane(a, w, i), Lane(v, w, i));
    }
    FlagsSum(a, v, w, n, f);
    FlagsBound(w, n, Xor(a, v));
  }

  lemma FlagsBound(w: nat, n: nat, a: nat)
    requires 0 < w
    ensures Flags(w, n, a) < Cap(w, n)
  {
    hide Pow2, Xor, And, Cap, Rep, Spread;
    Pow2Mono(1, w);
    assert 1 < Pow2(w) by { Powers(); }
    RepBound(1, w, n);
    CapIsPow2(w, n);
    XorBound(w * n, And(Spread(w, n, a, 1), Rep(1, w, n)), Rep(1, w, n));
  }

  /** The value multiplied into all lanes, modulo 2^64; the value is not masked first. */
  function Pattern(w: Width, value: int): (r: nat)
    requires Packed(w)
    ensures r < Pow2(64)
  {
    Powers();
    hide Pow2;
    ((Pow2(64) - 1) / (Pow2(w) - 1) * value) % Pow2(64)
  }

  /** The number the word expressions of `count` compute. */
  function CountWord(w: Width, value: int, a: nat): (r: nat)
    requires Packed(w) && a < Pow2(64) && (w == 1 ==> value == 0 || value == 1)
  {
    hide Pow2, And, High, Fold2, Fold4, SumBytes, LaneSum, Flags, Xor;
    if w == 1 then
      var b := if value == 0 then Not(64, a) else a;
      BitSum(b);
      SumBytes(Fold4(Fold2(b - And(High(b, 1), M1))))
    else
      var f := Flags(w, PerWord(w), Xor(a, Pattern(w, value)));
      if w == 2 then SumBytes(Fold4(Fold2(f)))
      else if w == 4 then SumBytes(Fold4(f))
      else SumBytes(f)
  }

  lemma BitSum(b: nat)
    requires b < Pow2(64)
    ensures And(High(b, 1), M1) <= b
    ensures SumBytes(Fold4(Fold2(b - And(High(b, 1), M1)))) == LaneSum(b, 1, 64)
  {
    hide Pow2, High, Low, Lane, And, Halves, Cap, Rep, LaneSum, SumBytes, Fold4, Fold2;
    Caps();
    Masks();
    SubtractHalf(b, 32);
    var r := b - And(High(b, 1), M1);
    PairSumsTotal(r, b, 1, 32);
    SumOf2(r);
  }

  lemma NotLane(a: nat, i: nat)
    requires a < Pow2(64) && i < 64
    ensures Lane(Not(64, a), 1, i) == 1 - Lane(a, 1, i)
  {
    hide Pow2, Low, High, Lane, Field, Not;
    LaneIsField(a, 1, i);
    LaneIsField(Not(64, a), 1, i);
    NotField(64, a, i, 1);
    OneBit(Lane(a, 1, i));
  }

  lemma OneBit(x: nat)
    requires x < Pow2(1)
    ensures Not(1, x) == 1 - x
  {
  }

  lemma CountBits(value: int, a: nat)
    requires a < Pow2(64) && (value == 0 || value == 1)
    ensures CountWord(1, value, a) == Agreeing(a, Rep(value, 1, 64), 1, 64)
  {
    Powers();
    hide Pow2, High, Low, Lane, And, Halves, Cap, Rep, LaneSum, SumBytes, Fold4, Fold2, Agreeing, Not;
    var b := if value == 0 then Not(64, a) else a;
    BitSum(b);
    forall i | 0 <= i < 64
      ensures Lane(b, 1, i) == if Lane(a, 1, i) == Lane(Rep(value, 1, 64), 1, i) then 1 else 0
    {
      RepLane(value, 1, 64, i);
      NotLane(a, i);
    }
    FlagsSum(a, Rep(value, 1, 64), 1, 64, b);
  }

  /** What a word contributes: the lanes that agree with the pattern. */
  lemma CountWordExact(w: Width, value: int, a: nat)
    requires Packed(w) && w > 1 && a < Pow2(64)
    ensures CountWord(w, value, a) == Agreeing(a, Pattern(w, value), w, PerWord(w))
  {
    Powers();
    hide Pow2, High, Low, Lane, And, Halves, Cap, Rep, LaneSum, SumBytes, Fold4, Fold2, Agreeing, Flags, Pattern, Xor;
    Caps();
    Masks();
    var n, v := PerWord(w), Pattern(w, value);
    FlagsCount(a, v, w, n);
    var f := Flags(w, n, Xor(a, v));
    if w == 2 {
      SumOf2(f);
    } else if w == 4 {
      SumOf4(f);
    } else if w == 8 {
      LaneSumBound(f, 8, 8, 1);
      SumBytesExact(f);
    } else {
      BytesOf16(f);
      LaneSumBound(f, 16, 4, 1);
      SumBytesExact(f);
    }
  }

  /** Lanes of 16 bits holding at most 1 have their sum in the bytes. */
  lemma BytesOf16(f: nat)
    requires forall i :: 0 <= i < 4 ==> Lane(f, 16, i) <= 1
    ensures LaneSum(f, 8, 8) == LaneSum(f, 16, 4)
  {
    Powers();
    hide Pow2, Lane, LaneSum;
    forall i | 0 <= i < 4 ensures Lane(f, 16, i) == Lane(f, 8, 2 * i) + Lane(f, 8, 2 * i + 1) {
      DoubleLane(f, 8, i);
    }
    PairSumsTotal(f, f, 8, 4);
  }

  /** The pattern repeats a value that is not negative; for a negative value a borrow
      makes every lane but the lowest one too small. */
  lemma PatternLane(w: Width, value: int, i: nat)
    requires Packed(w) && w > 1 && i < PerWord(w) && Fits(w, value)
    ensures Lane(Pattern(w, value), w, i) ==
            if value >= 0 then value else if i == 0 then value + Pow2(w) else value + Pow2(w) - 1
  {
    var n := PerWord(w);
    Powers();
    Pow2Mono(w - 1, w);
    hide Pow2, Rep, Cap, Lane;
    WordCap(w);
    RepOnes(w, n);
    if value >= 0 {
      RepScale(value, w, n);
      RepBound(value, w, n);
      RepLane(value, w, n, i);
      Split(Rep(value, w, n), Pow2(64), Rep(value, w, n), 0);
    } else {
      PatternProduct(w, value, Rep(1, w, n));
      NegativePattern(w, value, n, i);
    }
  }

  lemma NegativePattern(w: nat, value: int, n: nat, i: nat)
    requires i < n && 0 < -value < Pow2(w) && 0 < w
    ensures Lane((Rep(1, w, n) * value) % Cap(w, n), w, i) == if i == 0 then value + Pow2(w) else value + Pow2(w) - 1
  {
    CapAboveOne(w, n);
    hide Pow2, Cap, Lane, Rep;
    var m := Pow2(w) - 1;
    RepOnes(w, n);
    RepScale(m + value, w, n);
    NegatedProduct(Rep(1, w, n), m, value, Cap(w, n));
    Bumped(m + value, w, n, i);
  }

  lemma CapAboveOne(w: nat, n: nat)
    requires 0 < w && 0 < n
    ensures 1 < Cap(w, n)
  {
    Pow2Mono(1, w);
    MulLe(Pow2(w), 1, Cap(w, n - 1));
  }

  lemma PatternProduct(w: Width, value: int, r: nat)
    requires Packed(w) && Pow2(w) > 1 && (Pow2(64) - 1) / (Pow2(w) - 1) == r
    ensures Pattern(w, value) == (r * value) % Pow2(64)
  {
  }

  lemma NegatedProduct(r: nat, m: nat, value: int, c: nat)
    requires m * r == c - 1 && 0 < -value <= m && 1 < c
    ensures (r * value) % c == 1 + r * (m + value)
  {
    var k: nat := -value;
    assert r > 0 by {
      assert r == 0 ==> m * r == 0;
    }
    MulPos(r, k);
    MulLe(r, k, m);
    Distrib(r, m, k);
    Distrib(r, 0, k);
    Split(r * value, c, 1 + r * (m - k), -1);
  }

  lemma Bumped(x: nat, w: nat, n: nat, i: nat)
    requires x + 1 < Pow2(w) && i < n
    ensures Lane(1 + Rep(x, w, n), w, i) == if i == 0 then x + 1 else x
  {
    assert 1 + Rep(x, w, n) == (x + 1) + Pow2(w) * Rep(x, w, n - 1);
    hide Pow2, Lane, Rep;
    LowLaneBuilt(x + 1, Rep(x, w, n - 1), w, i);
    if i > 0 {
      RepLane(x, w, n - 1, i - 1);
    }
  }
}
