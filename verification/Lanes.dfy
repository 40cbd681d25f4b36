/** Words of `n` lanes of `w` bits each. */
module Lanes {
  import opened Bits

  /** The `i`th lane of a word. */
  function Lane(v: nat, w: nat, i: nat): (r: nat)
    ensures r < Pow2(w)
  {
    if i == 0 then Low(v, w) else Lane(High(v, w), w, i - 1)
  }

  /** How many words of `n` lanes there are: 2^(w*n). */
  function Cap(w: nat, n: nat): (r: nat)
    ensures r > 0
  {
    if n == 0 then 1 else MulPos(Pow2(w), Cap(w, n - 1)); Pow2(w) * Cap(w, n - 1)
  }

  /** The word with `x` in each of its `n` lanes. */
  function Rep(x: nat, w: nat, n: nat): (r: nat) {
    if n == 0 then 0 else x + Pow2(w) * Rep(x, w, n - 1)
  }

  lemma {:induction false} CapIsPow2(w: nat, n: nat)
    ensures Cap(w, n) == Pow2(w * n)
  {
    if n > 0 {
      CapIsPow2(w, n - 1);
      Pow2Add(w, w * (n - 1));
      assert w * n == w + w * (n - 1) by { Distrib(w, n - 1, 1); }
    }
  }

  lemma {:induction false} CapAdd(w: nat, m: nat, n: nat)
    ensures Cap(w, m + n) == Cap(w, m) * Cap(w, n)
  {
    if m > 0 {
      CapAdd(w, m - 1, n);
      Assoc(Pow2(w), Cap(w, m - 1), Cap(w, n));
    }
  }

  /** Peeling off the lowest lane. */
  lemma LowLane(v: nat, w: nat, n: nat)
    requires 0 < n && v < Cap(w, n)
    ensures v == Low(v, w) + Pow2(w) * High(v, w)
    ensures High(v, w) < Cap(w, n - 1)
  {
    LowHigh(v, w);
    if High(v, w) >= Cap(w, n - 1) {
      MulLe(Pow2(w), Cap(w, n - 1), High(v, w));
    }
  }

  lemma LowLaneBuilt(l: nat, r: nat, w: nat, i: nat)
    requires l < Pow2(w)
    ensures 0 <= Pow2(w) * r
    ensures Lane(l + Pow2(w) * r, w, i) == if i == 0 then l else Lane(r, w, i - 1)
  {
    hide Pow2, Low, High;
    Products(Pow2(w), r, 0);
    Parts(l + Pow2(w) * r, w, l, r);
  }

  lemma CapBound(l: nat, r: nat, w: nat, n: nat)
    requires 0 < n && l < Pow2(w) && r < Cap(w, n - 1)
    ensures l + Pow2(w) * r < Cap(w, n)
  {
    MulLe(Pow2(w), r, Cap(w, n - 1) - 1);
    Distrib(Pow2(w), Cap(w, n - 1), 1);
  }

  // ----- repeating a value -----

  lemma {:induction false} RepBound(x: nat, w: nat, n: nat)
    requires x < Pow2(w)
    ensures Rep(x, w, n) < Cap(w, n)
  {
    if n > 0 {
      RepBound(x, w, n - 1);
      CapBound(x, Rep(x, w, n - 1), w, n);
    }
  }

  lemma {:induction false} RepLane(x: nat, w: nat, n: nat, i: nat)
    requires x < Pow2(w) && i < n
    ensures Lane(Rep(x, w, n), w, i) == x
  {
    LowLaneBuilt(x, Rep(x, w, n - 1), w, i);
    if i > 0 {
      RepLane(x, w, n - 1, i - 1);
    }
  }

  lemma {:induction false} RepScale(x: nat, w: nat, n: nat)
    ensures Rep(1, w, n) * x == Rep(x, w, n)
  {
    if n > 0 {
      RepScale(x, w, n - 1);
      ScaleStep(Pow2(w), Rep(1, w, n - 1), x);
    }
  }

  lemma ScaleStep(b: int, r: int, x: int)
    ensures (1 + b * r) * x == x + b * (r * x)
  {
    Distrib(x, 1, b * r);
    Assoc(b, r, x);
  }

  /** All ones divided by a lane of ones repeats 1: the source's `~0ULL / mask`. */
  lemma {:induction false} RepOnes(w: nat, n: nat)
    requires 0 < w
    ensures (Pow2(w) - 1) * Rep(1, w, n) == Cap(w, n) - 1
    ensures (Cap(w, n) - 1) / (Pow2(w) - 1) == Rep(1, w, n)
  {
    var m := Pow2(w) - 1;
    if n > 0 {
      RepOnes(w, n - 1);
      OnesStep(m, Rep(1, w, n - 1), Cap(w, n - 1));
    }
    assert 0 < m;
    Split(Cap(w, n) - 1, m, 0, Rep(1, w, n));
  }

  lemma OnesStep(m: nat, r: nat, c: nat)
    requires m * r == c - 1
    ensures m * (1 + (m + 1) * r) == (m + 1) * c - 1
  {
    Distrib(m, 1, (m + 1) * r);
    Assoc(m, m + 1, r);
    Assoc(m + 1, m, r);
    Distrib(m + 1, c, 1);
  }

  // ----- the zero test -----

  lemma ModLow(a: int, y: int, b: int, c: int)
    requires 0 <= a < b && 0 < c
    ensures 0 < b * c && (a + b * y) % (b * c) == a + b * (y % c)
  {
    MulPos(b, c);
    DivMod(y, c);
    Distrib(b, y % c, c * (y / c));
    Assoc(b, c, y / c);
    MulLe(b, y % c, c - 1);
    MulLe(b, 0, y % c);
    Distrib(b, c, 1);
    Split(a + b * y, b * c, a + b * (y % c), y / c);
  }

  /** `(value - lower) & ~value & upper` on words of `n` lanes. */
  function ZeroFlags(v: nat, w: nat, n: nat): (r: nat)
    requires 0 < w && v < Cap(w, n)
  {
    And(And((v - Rep(1, w, n)) % Cap(w, n), Cap(w, n) - 1 - v), Rep(Pow2(w - 1), w, n))
  }

  ghost predicate HasZeroLane(v: nat, w: nat, n: nat) {
    exists i :: 0 <= i < n && Lane(v, w, i) == 0
  }

  /** The parts of a complement and of a difference by the repeated 1. */
  lemma FlagParts(l: nat, r: nat, w: nat, n: nat)
    requires 0 < n && l < Pow2(w) && r < Cap(w, n - 1)
    ensures var b, c := Pow2(w), Cap(w, n - 1);
            var v, o := l + b * r, Rep(1, w, n - 1);
            && Cap(w, n) - 1 - v == (b - 1 - l) + b * (c - 1 - r)
            && (v - Rep(1, w, n)) % Cap(w, n) ==
                 if l > 0 then (l - 1) + b * ((r - o) % c) else (b - 1) + b * ((r - o - 1) % c)
  {
    hide Pow2;
    var b, c := Pow2(w), Cap(w, n - 1);
    var o := Rep(1, w, n - 1);
    Distrib(b, c - 1, r);
    Distrib(b, c, 1);
    Distrib(b, r, o);
    Distrib(b, r - o, 1);
    if l > 0 {
      ModLow(l - 1, r - o, b, c);
    } else {
      ModLow(b - 1, r - o - 1, b, c);
    }
  }

  /** The flags of a word whose lowest lane is not zero are those of the other lanes. */
  lemma FlagsSkip(l: nat, r: nat, w: nat, n: nat)
    requires 0 < w && 0 < n && 0 < l < Pow2(w) && r < Cap(w, n - 1)
    ensures 0 <= l + Pow2(w) * r < Cap(w, n)
    ensures ZeroFlags(l + Pow2(w) * r, w, n) == Pow2(w) * ZeroFlags(r, w, n - 1)
  {
    CapBound(l, r, w, n);
    FlagParts(l, r, w, n);
    var b, c, h := Pow2(w), Cap(w, n - 1), Pow2(w - 1);
    var d, u, t := (r - Rep(1, w, n - 1)) % c, c - 1 - r, Rep(h, w, n - 1);
    assert ZeroFlags(l + b * r, w, n) == And(And((l - 1) + b * d, (b - 1 - l) + b * u), h + b * t);
    assert ZeroFlags(r, w, n - 1) == And(And(d, u), t);
    hide ZeroFlags, Cap, Rep, Pow2, And;
    SkipAnd(l, d, u, t, w);
  }

  /** One less than a lane, and its complement, do not both have the top bit. */
  lemma LowAnd(l: nat, w: nat)
    requires 0 < w && 0 < l < Pow2(w)
    ensures Pow2(w - 1) < Pow2(w)
    ensures var x := And(l - 1, Pow2(w) - 1 - l); x < Pow2(w) && And(x, Pow2(w - 1)) == 0
  {
    assert Pow2(w) == 2 * Pow2(w - 1);
    hide Pow2, And;
    AndTop(And(l - 1, Pow2(w) - 1 - l), w);
  }

  lemma SkipAnd(l: nat, d: nat, u: nat, t: nat, w: nat)
    requires 0 < w && 0 < l < Pow2(w)
    ensures var b, h := Pow2(w), Pow2(w - 1);
            And(And((l - 1) + b * d, (b - 1 - l) + b * u), h + b * t) == b * And(And(d, u), t)
  {
    hide Pow2, And;
    var b, h := Pow2(w), Pow2(w - 1);
    LowAnd(l, w);
    AndSplit(w, l - 1, d, b - 1 - l, u);
    AndSplit(w, And(l - 1, b - 1 - l), And(d, u), h, t);
  }

  /** The flags of a word whose lowest lane is zero are not zero. */
  lemma FlagsHit(r: nat, w: nat, n: nat)
    requires 0 < w && 0 < n && r < Cap(w, n - 1)
    ensures 0 <= Pow2(w) * r < Cap(w, n)
    ensures ZeroFlags(Pow2(w) * r, w, n) != 0
  {
    CapBound(0, r, w, n);
    FlagParts(0, r, w, n);
    var b, c, h := Pow2(w), Cap(w, n - 1), Pow2(w - 1);
    var d, u := (r - Rep(1, w, n - 1) - 1) % c, c - 1 - r;
    var x, y, z := (b * r - Rep(1, w, n)) % Cap(w, n), Cap(w, n) - 1 - b * r, Rep(h, w, n);
    assert z == h + b * Rep(h, w, n - 1);
    assert ZeroFlags(b * r, w, n) == And(And(x, y), z);
    hide Low, High, And, Rep, Cap, Pow2, ZeroFlags;
    Parts(x, w, b - 1, d);
    Parts(y, w, b - 1, u);
    Parts(z, w, h, Rep(h, w, n - 1));
    HitAnd(x, y, z, w);
  }

  lemma HitAnd(x: nat, y: nat, z: nat, w: nat)
    requires 0 < w && Low(x, w) == Low(y, w) == Pow2(w) - 1 && Low(z, w) == Pow2(w - 1)
    ensures And(And(x, y), z) != 0
  {
    TopOfOnes(w);
    hide And, Low, High;
    AndParts(x, y, w);
    AndParts(And(x, y), z, w);
  }

  lemma TopOfOnes(w: nat)
    requires 0 < w
    ensures And(And(Pow2(w) - 1, Pow2(w) - 1), Pow2(w - 1)) == Pow2(w - 1)
  {
    var b := Pow2(w);
    assert Pow2(w - 1) <= b - 1;
    hide And, Pow2;
    AndOnes(b - 1, w);
    AndTop(b - 1, w);
  }

  /** The test is exact: it fires if and only if some lane is zero. */
  lemma {:induction false} ZeroTestExact(v: nat, w: nat, n: nat)
    requires 0 < w && v < Cap(w, n)
    ensures ZeroFlags(v, w, n) != 0 <==> HasZeroLane(v, w, n)
  {
    if n == 0 {
      AndZero(And((v - Rep(1, w, n)) % Cap(w, n), Cap(w, n) - 1 - v));
    } else {
      LowLane(v, w, n);
      hide Pow2, Low, High, ZeroFlags, Cap;
      var l, r := Low(v, w), High(v, w);
      if l == 0 {
        FlagsHit(r, w, n);
        assert Lane(v, w, 0) == 0;
      } else {
        FlagsSkip(l, r, w, n);
        ZeroTestExact(r, w, n - 1);
        Nonzero(Pow2(w), ZeroFlags(r, w, n - 1));
        HasZeroSkip(v, w, n);
      }
    }
  }

  lemma Nonzero(b: nat, f: nat)
    requires 0 < b
    ensures b * f != 0 <==> f != 0
  {
    if f > 0 {
      MulPos(b, f);
    }
  }

  lemma HasZeroSkip(v: nat, w: nat, n: nat)
    requires 0 < n && Low(v, w) != 0
    ensures HasZeroLane(v, w, n) <==> HasZeroLane(High(v, w), w, n - 1)
  {
    hide Pow2, Low, High;
    if HasZeroLane(High(v, w), w, n - 1) {
      var i :| 0 <= i < n - 1 && Lane(High(v, w), w, i) == 0;
      assert Lane(v, w, i + 1) == 0;
    }
    if HasZeroLane(v, w, n) {
      var i :| 0 <= i < n && Lane(v, w, i) == 0;
      assert Lane(High(v, w), w, i - 1) == 0;
    }
  }

  // ----- shifting and splitting -----

  /** Shifting by whole lanes: the source's `v >> (w * t)`. */
  lemma {:induction false} LaneShift(v: nat, w: nat, t: nat, i: nat)
    ensures Lane(High(v, w * t), w, i) == Lane(v, w, t + i)
  {
    if t > 0 {
      Distrib(w, t - 1, 1);
      HighHigh(v, w, w * (t - 1));
      LaneShift(High(v, w), w, t - 1, i);
    }
  }

  lemma LaneIsField(v: nat, w: nat, i: nat)
    ensures Lane(v, w, i) == Field(v, w * i, w)
  {
    LaneShift(v, w, i, 0);
  }

  /** A word put together from its low `h` lanes and the rest. */
  lemma {:induction false} LaneJoin(low: nat, high: nat, w: nat, h: nat, i: nat)
    requires low < Cap(w, h)
    ensures 0 <= Cap(w, h) * high
    ensures Lane(low + Cap(w, h) * high, w, i) == if i < h then Lane(low, w, i) else Lane(high, w, i - h)
  {
    Products(Cap(w, h), high, 0);
    if h > 0 {
      LowLane(low, w, h);
      hide Pow2, Low, High;
      var b, c := Pow2(w), Cap(w, h - 1);
      var l, r := Low(low, w), High(low, w);
      Products(c, high, 0);
      Assoc(b, c, high);
      Distrib(b, r, c * high);
      LowLaneBuilt(l, r + c * high, w, i);
      if i > 0 {
        LaneJoin(r, high, w, h - 1, i - 1);
      }
    }
  }

  /** Two words of `n` lanes with the same lanes are the same word. */
  lemma {:induction false} LanesDetermine(v: nat, v': nat, w: nat, n: nat)
    requires v < Cap(w, n) && v' < Cap(w, n)
    requires forall i :: 0 <= i < n ==> Lane(v, w, i) == Lane(v', w, i)
    ensures v == v'
  {
    if n > 0 {
      LowLane(v, w, n);
      LowLane(v', w, n);
      hide Pow2, Low, High, Cap;
      assert Lane(v, w, 0) == Lane(v', w, 0);
      forall i | 0 <= i < n - 1 ensures Lane(High(v, w), w, i) == Lane(High(v', w), w, i) {
        assert Lane(v, w, i + 1) == Lane(v', w, i + 1);
      }
      LanesDetermine(High(v, w), High(v', w), w, n - 1);
    }
  }

  lemma {:induction false} ZeroLane(w: nat, i: nat)
    ensures Lane(0, w, i) == 0
  {
    ZeroParts(w);
    if i > 0 {
      ZeroLane(w, i - 1);
    }
  }

  lemma {:induction false} LaneBeyond(v: nat, w: nat, n: nat, i: nat)
    requires v < Cap(w, n) && n <= i
    ensures Lane(v, w, i) == 0
    decreases i
  {
    if n == 0 {
      ZeroLane(w, i);
    } else {
      LowLane(v, w, n);
      LaneBeyond(High(v, w), w, n - 1, i - 1);
    }
  }

  // ----- lane-wise operators -----

  lemma {:induction false} AndLane(v: nat, v': nat, w: nat, i: nat)
    ensures Lane(And(v, v'), w, i) == And(Lane(v, w, i), Lane(v', w, i))
  {
    hide Pow2, Low, High, And;
    AndParts(v, v', w);
    if i > 0 {
      AndLane(High(v, w), High(v', w), w, i - 1);
    }
  }

  lemma {:induction false} OrLane(v: nat, v': nat, w: nat, i: nat)
    ensures Lane(Or(v, v'), w, i) == Or(Lane(v, w, i), Lane(v', w, i))
  {
    hide Pow2, Low, High, Or;
    OrParts(v, v', w);
    if i > 0 {
      OrLane(High(v, w), High(v', w), w, i - 1);
    }
  }

  lemma {:induction false} XorLane(v: nat, v': nat, w: nat, i: nat)
    ensures Lane(Xor(v, v'), w, i) == Xor(Lane(v, w, i), Lane(v', w, i))
  {
    hide Pow2, Low, High, Xor;
    XorParts(v, v', w);
    if i > 0 {
      XorLane(High(v, w), High(v', w), w, i - 1);
    }
  }

  /** Addition is lane-wise when no lane overflows. */
  lemma {:induction false} AddLane(v: nat, v': nat, w: nat, n: nat, i: nat)
    requires v < Cap(w, n) && v' < Cap(w, n) && i < n
    requires forall j :: 0 <= j < n ==> Lane(v, w, j) + Lane(v', w, j) < Pow2(w)
    ensures Lane(v + v', w, i) == Lane(v, w, i) + Lane(v', w, i)
    ensures v + v' < Cap(w, n)
  {
    AddParts(v, v', w, n);
    hide Pow2, Low, High, Cap;
    var r, r' := High(v, w), High(v', w);
    if n > 1 {
      forall j | 0 <= j < n - 1 ensures Lane(r, w, j) + Lane(r', w, j) < Pow2(w) {
        assert Lane(v, w, j + 1) + Lane(v', w, j + 1) < Pow2(w);
      }
      AddLane(r, r', w, n - 1, if i > 0 then i - 1 else 0);
    }
  }

  lemma AddParts(v: nat, v': nat, w: nat, n: nat)
    requires v < Cap(w, n) && v' < Cap(w, n) && 0 < n
    requires Lane(v, w, 0) + Lane(v', w, 0) < Pow2(w)
    ensures High(v, w) < Cap(w, n - 1) && High(v', w) < Cap(w, n - 1)
    ensures Low(v + v', w) == Low(v, w) + Low(v', w) && High(v + v', w) == High(v, w) + High(v', w)
    ensures High(v, w) + High(v', w) < Cap(w, n - 1) ==> v + v' < Cap(w, n)
  {
    assert Lane(v, w, 0) == Low(v, w) && Lane(v', w, 0) == Low(v', w);
    hide Pow2, Low, High, Cap, Lane;
    LowLane(v, w, n);
    LowLane(v', w, n);
    var l, r, l', r' := Low(v, w), High(v, w), Low(v', w), High(v', w);
    LowHigh(v, w);
    LowHigh(v', w);
    Distrib(Pow2(w), r, r');
    Parts(v + v', w, l + l', r + r');
    if r + r' < Cap(w, n - 1) {
      CapBound(l + l', r + r', w, n);
    }
  }
}
