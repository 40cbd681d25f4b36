/** Adding up the lanes of a word by halves. */
module LaneSums {
  import opened Bits
  import opened Lanes

  function LaneSum(v: nat, w: nat, n: nat): (r: nat) {
    if n == 0 then 0 else LaneSum(v, w, n - 1) + Lane(v, w, n - 1)
  }

  lemma {:induction false} LaneSumBound(v: nat, w: nat, n: nat, max: nat)
    requires forall i :: 0 <= i < n ==> Lane(v, w, i) <= max
    ensures LaneSum(v, w, n) <= max * n
  {
    if n > 0 {
      LaneSumBound(v, w, n - 1, max);
      Distrib(max, n - 1, 1);
    }
  }

  /** The word with ones in the lower half of each of its `h` lanes of `2 * w` bits. */
  function Halves(w: nat, h: nat): (r: nat) {
    Rep(Pow2(w) - 1, 2 * w, h)
  }

  /** The two halves of a lane are two lanes of half the width. */
  lemma DoubleLane(v: nat, w: nat, i: nat)
    ensures Low(Lane(v, 2 * w, i), w) == Lane(v, w, 2 * i)
    ensures High(Lane(v, 2 * w, i), w) == Lane(v, w, 2 * i + 1)
    ensures Lane(v, 2 * w, i) == Lane(v, w, 2 * i) + Pow2(w) * Lane(v, w, 2 * i + 1)
  {
    hide Pow2, Low, High, Lane;
    var m := 2 * w * i;
    assert w * (2 * i) == m && w * (2 * i + 1) == m + w by {
      Assoc(w, 2, i);
      Distrib(w, 2 * i, 1);
    }
    LaneIsField(v, 2 * w, i);
    LaneIsField(v, w, 2 * i);
    LaneIsField(v, w, 2 * i + 1);
    FieldJoin(v, m, w, w);
    Parts(Lane(v, 2 * w, i), w, Lane(v, w, 2 * i), Lane(v, w, 2 * i + 1));
  }

  lemma MaskLane(v: nat, w: nat, h: nat, i: nat)
    requires i < h
    ensures Lane(And(v, Halves(w, h)), 2 * w, i) == Lane(v, w, 2 * i)
  {
    hide Pow2, Low, High, Lane, And, Rep;
    AndLane(v, Halves(w, h), 2 * w, i);
    Pow2Mono(w, 2 * w);
    RepLane(Pow2(w) - 1, 2 * w, h, i);
    AndMask(Lane(v, 2 * w, i), w);
    DoubleLane(v, w, i);
  }

  lemma HalvesBound(v: nat, w: nat, h: nat)
    ensures And(v, Halves(w, h)) < Cap(2 * w, h)
  {
    hide And, Pow2, Rep, Cap;
    Pow2Mono(w, 2 * w);
    RepBound(Pow2(w) - 1, 2 * w, h);
  }

  /** `r` holds in its lanes the sums of neighbouring lanes of `v`. */
  ghost predicate PairSums(r: nat, v: nat, w: nat, h: nat) {
    r < Cap(2 * w, h) && forall i :: 0 <= i < h ==> Lane(r, 2 * w, i) == Lane(v, w, 2 * i) + Lane(v, w, 2 * i + 1)
  }

  lemma PairAt(r: nat, v: nat, w: nat, h: nat, i: nat)
    requires PairSums(r, v, w, h) && i < h
    ensures r < Cap(2 * w, h) && Lane(r, 2 * w, i) == Lane(v, w, 2 * i) + Lane(v, w, 2 * i + 1)
  {
  }

  lemma {:induction false} PairSumsTotal(r: nat, v: nat, w: nat, h: nat)
    requires forall i :: 0 <= i < h ==> Lane(r, 2 * w, i) == Lane(v, w, 2 * i) + Lane(v, w, 2 * i + 1)
    ensures LaneSum(r, 2 * w, h) == LaneSum(v, w, 2 * h)
  {
    hide Lane;
    if h > 0 {
      PairSumsTotal(r, v, w, h - 1);
      var k := h - 1;
      assert LaneSum(v, w, 2 * h) == LaneSum(v, w, 2 * k) + Lane(v, w, 2 * k) + Lane(v, w, 2 * k + 1);
    }
  }

  lemma RoomForTwo(w: nat)
    requires 0 < w
    ensures Pow2(2 * w) >= 2 * Pow2(w)
  {
    Pow2Add(w, w);
    Pow2Mono(1, w);
    assert Pow2(1) == 2;
    hide Pow2;
    MulLe(Pow2(w), 2, Pow2(w));
  }

  /** `(v & m) + ((v >> w) & m)` */
  lemma AddHalves(v: nat, w: nat, h: nat)
    requires 0 < w
    ensures PairSums(And(v, Halves(w, h)) + And(High(v, w), Halves(w, h)), v, w, h)
  {
    assert Cap(2 * w, 0) == 1;
    hide Pow2, Low, High, Lane, And, Halves, Cap;
    var m := Halves(w, h);
    var a, b := And(v, m), And(High(v, w), m);
    HalvesBound(v, w, h);
    HalvesBound(High(v, w), w, h);
    RoomForTwo(w);
    forall i | 0 <= i < h
      ensures Lane(a, 2 * w, i) == Lane(v, w, 2 * i) && Lane(b, 2 * w, i) == Lane(v, w, 2 * i + 1)
    {
      MaskLane(v, w, h, i);
      MaskLane(High(v, w), w, h, i);
      NextLane(v, w, 2 * i);
    }
    forall i | 0 <= i < h ensures Lane(a + b, 2 * w, i) == Lane(v, w, 2 * i) + Lane(v, w, 2 * i + 1) {
      AddLane(a, b, 2 * w, h, i);
    }
    if h > 0 {
      AddLane(a, b, 2 * w, h, 0);
    }
  }

  lemma NextLane(v: nat, w: nat, i: nat)
    ensures Lane(High(v, w), w, i) == Lane(v, w, i + 1)
  {
  }

  /** `(v + (v >> w)) & m`, when neighbouring lanes add up without a carry. */
  lemma AddThenMask(v: nat, w: nat, h: nat)
    requires 0 < w && v < Cap(w, 2 * h)
    requires forall i :: 0 <= i < 2 * h ==> Lane(v, w, i) + Lane(High(v, w), w, i) < Pow2(w)
    ensures v + High(v, w) < Cap(w, 2 * h)
    ensures PairSums(And(v + High(v, w), Halves(w, h)), v, w, h)
  {
    assert h == 0 ==> High(v, w) == 0;
    hide Pow2, Low, High, Lane, And, Halves, Cap;
    var u := High(v, w);
    HalvesBound(v + u, w, h);
    if h > 0 {
      AddLane(v, u, w, 2 * h, 0);
    }
    forall i | 0 <= i < h
      ensures Lane(And(v + u, Halves(w, h)), 2 * w, i) == Lane(v, w, 2 * i) + Lane(v, w, 2 * i + 1)
    {
      AddThenMaskLane(v, u, w, h, i);
    }
  }

  lemma AddThenMaskLane(v: nat, u: nat, w: nat, h: nat, i: nat)
    requires v < Cap(w, 2 * h) && u == High(v, w) && i < h
    requires forall i :: 0 <= i < 2 * h ==> Lane(v, w, i) + Lane(u, w, i) < Pow2(w)
    ensures Lane(And(v + u, Halves(w, h)), 2 * w, i) == Lane(v, w, 2 * i) + Lane(v, w, 2 * i + 1)
  {
    hide Pow2, Low, High, Lane, And, Halves, Cap;
    AddLane(v, u, w, 2 * h, 2 * i);
    MaskLane(v + u, w, h, i);
    NextLane(v, w, 2 * i);
  }

  /** `v - ((v >> 1) & m)` is the same sum for single bits. */
  lemma SubtractHalf(v: nat, h: nat)
    requires v < Cap(2, h)
    ensures And(High(v, 1), Halves(1, h)) <= v
    ensures PairSums(v - And(High(v, 1), Halves(1, h)), v, 1, h)
  {
    hide Low, High, And, Halves, PairSums;
    AddHalves(v, 1, h);
    Restored(v, h);
  }

  lemma Restored(v: nat, h: nat)
    requires v < Cap(2, h)
    ensures And(v, Halves(1, h)) + And(High(v, 1), Halves(1, h)) + And(High(v, 1), Halves(1, h)) == v
  {
    assert Cap(2, 0) == 1;
    hide Pow2, Low, High, Lane, And, Halves, Cap, PairSums;
    var b := And(High(v, 1), Halves(1, h));
    var r := And(v, Halves(1, h)) + b;
    HalvesBound(v, 1, h);
    HalvesBound(High(v, 1), 1, h);
    if h > 0 {
      RestoredLane(v, h, 0);
      forall i | 0 <= i < h ensures Lane(r, 2, i) + Lane(b, 2, i) == Lane(v, 2, i) {
        RestoredLane(v, h, i);
      }
      forall i | 0 <= i < h ensures Lane(r + b, 2, i) == Lane(v, 2, i) && r + b < Cap(2, h) {
        AddLane(r, b, 2, h, i);
      }
      AddLane(r, b, 2, h, 0);
    }
    LanesDetermine(r + b, v, 2, h);
  }

  lemma RestoredLane(v: nat, h: nat, i: nat)
    requires i < h
    ensures var b := And(High(v, 1), Halves(1, h));
            var r := And(v, Halves(1, h)) + b;
            r < Cap(2, h) && Lane(r, 2, i) + Lane(b, 2, i) == Lane(v, 2, i)
  {
    hide Pow2, Low, High, Lane, And, Halves, Cap, PairSums;
    AddHalves(v, 1, h);
    TwoBits(v, h, i);
    PairAt(And(v, Halves(1, h)) + And(High(v, 1), Halves(1, h)), v, 1, h, i);
  }

  lemma TwoBits(v: nat, h: nat, i: nat)
    requires i < h
    ensures Lane(v, 2, i) == Lane(v, 1, 2 * i) + 2 * Lane(v, 1, 2 * i + 1)
    ensures Lane(And(High(v, 1), Halves(1, h)), 2, i) == Lane(v, 1, 2 * i + 1)
  {
    assert Pow2(1) == 2;
    MaskLane(High(v, 1), 1, h, i);
    DoubleLane(v, 1, i);
    hide Pow2, Low, And, Halves;
  }

  // ----- multiplying by a repeated 1 -----

  /** The word whose lane `k` is the sum of the lanes of `v` up to `k`. */
  ghost function Prefixes(v: nat, w: nat, n: nat): (r: nat) {
    if n == 0 then 0 else Rep(Low(v, w), w, n) + Pow2(w) * Prefixes(High(v, w), w, n - 1)
  }

  lemma {:induction false} LaneSumPeel(v: nat, w: nat, n: nat)
    requires 0 < n
    ensures LaneSum(v, w, n) == Low(v, w) + LaneSum(High(v, w), w, n - 1)
  {
    hide Low, High, Pow2;
    if n > 1 {
      LaneSumPeel(v, w, n - 1);
      assert Lane(v, w, n - 1) == Lane(High(v, w), w, n - 2);
    } else {
      assert Lane(v, w, 0) == Low(v, w);
      assert LaneSum(v, w, 1) == LaneSum(v, w, 0) + Lane(v, w, 0);
    }
  }

  lemma {:induction false} LaneSumMono(v: nat, w: nat, m: nat, n: nat)
    requires m <= n
    ensures LaneSum(v, w, m) <= LaneSum(v, w, n)
  {
    if m < n {
      LaneSumMono(v, w, m, n - 1);
    }
  }

  /** Lane `j` of `p` is the sum of the lanes of `v` up to `j`. */
  ghost predicate PrefixOf(p: nat, v: nat, w: nat, n: nat) {
    p < Cap(w, n) && forall j :: 0 <= j < n ==> Lane(p, w, j) == LaneSum(v, w, j + 1)
  }

  /** As long as the total fits one lane, no lane of the prefix sums overflows. */
  lemma {:induction false} PrefixLanes(v: nat, w: nat, n: nat)
    requires LaneSum(v, w, n) < Pow2(w)
    ensures PrefixOf(Prefixes(v, w, n), v, w, n)
  {
    if n > 0 {
      LaneSumPeel(v, w, n);
      PrefixLanes(High(v, w), w, n - 1);
      PrefixAdd(v, w, n, Prefixes(High(v, w), w, n - 1));
    }
  }

  lemma PrefixAdd(v: nat, w: nat, n: nat, p: nat)
    requires 0 < n && LaneSum(v, w, n) < Pow2(w) && PrefixOf(p, High(v, w), w, n - 1)
    ensures PrefixOf(Rep(Low(v, w), w, n) + Pow2(w) * p, v, w, n)
  {
    hide Low, High, Pow2, Cap, Rep, Lane, LaneSum;
    var x, y := Rep(Low(v, w), w, n), 0 + Pow2(w) * p;
    RepBound(Low(v, w), w, n);
    CapBound(0, p, w, n);
    Products(Pow2(w), p, 0);
    forall j | 0 <= j < n ensures Lane(x, w, j) + Lane(y, w, j) == LaneSum(v, w, j + 1) < Pow2(w) {
      PrefixLane(v, w, n, p, j);
    }
    var z := x + y;
    AddLane(x, y, w, n, 0);
    forall j | 0 <= j < n ensures Lane(z, w, j) == LaneSum(v, w, j + 1) {
      AddLane(x, y, w, n, j);
    }
  }

  lemma PrefixLane(v: nat, w: nat, n: nat, p: nat, j: nat)
    requires j < n && LaneSum(v, w, n) < Pow2(w) && PrefixOf(p, High(v, w), w, n - 1) && 0 <= Pow2(w) * p
    ensures Lane(Rep(Low(v, w), w, n), w, j) + Lane(0 + Pow2(w) * p, w, j) == LaneSum(v, w, j + 1) < Pow2(w)
  {
    assert LaneSum(High(v, w), w, 0) == 0;
    hide Low, High, Pow2, Cap, Rep, Lane, LaneSum;
    RepLane(Low(v, w), w, n, j);
    LowLaneBuilt(0, p, w, j);
    LaneSumPeel(v, w, j + 1);
    LaneSumMono(v, w, j + 1, n);
    if j > 0 {
      assert Lane(p, w, j - 1) == LaneSum(High(v, w), w, (j - 1) + 1);
    }
  }

  /** The product with the repeated 1 is the prefix sums, up to multiples of the word size. */
  lemma {:induction false} ProductIsPrefixes(v: nat, w: nat, n: nat) returns (q: nat)
    ensures v * Rep(1, w, n) == Prefixes(v, w, n) + Cap(w, n) * q
  {
    if n == 0 {
      q := 0;
    } else {
      var l, r := Low(v, w), High(v, w);
      var q' := ProductIsPrefixes(r, w, n - 1);
      LowHigh(v, w);
      RepSplit(w, n);
      RepScale(l, w, n);
      ProductStep(Pow2(w), l, r, Rep(1, w, n), Rep(1, w, n - 1), Cap(w, n - 1), Prefixes(r, w, n - 1), q');
      q := q' + r;
    }
  }

  lemma {:induction false} RepSplit(w: nat, n: nat)
    requires 0 < n
    ensures Rep(1, w, n) == Rep(1, w, n - 1) + Cap(w, n - 1)
  {
    if n > 1 {
      RepSplit(w, n - 1);
      Distrib(Pow2(w), Rep(1, w, n - 2), Cap(w, n - 2));
    }
  }

  lemma ProductStep(b: nat, l: nat, r: nat, R: nat, R': nat, c: nat, p: nat, q: nat)
    requires R == R' + c && r * R' == p + c * q
    ensures (l + b * r) * R == R * l + b * p + b * c * (q + r)
  {
    Distrib(R, l, b * r);
    Assoc(b, r, R);
    Distrib(r, R', c);
    Distrib(b, p + c * q, r * c);
    Distrib(b, p, c * q);
    Assoc(b, c, q);
    Assoc(b, c, r);
    Distrib(b * c, q, r);
  }

  /** `(v * h01) >> 56`: the sum of the eight bytes of a word, when it fits a byte. */
  function SumBytes(v: nat): (r: nat) {
    High(Low(v * 0x0101_0101_0101_0101, 64), 56)
  }

  lemma SumBytesExact(v: nat)
    requires LaneSum(v, 8, 8) < 256 && Rep(1, 8, 8) == 0x0101_0101_0101_0101
    ensures SumBytes(v) == LaneSum(v, 8, 8)
  {
    assert Pow2(8) == 256;
    hide Low, High, Pow2, Rep, LaneSum;
    var p := v * Rep(1, 8, 8);
    var q := ProductIsPrefixes(v, 8, 8);
    PrefixLanes(v, 8, 8);
    assert Lane(Prefixes(v, 8, 8), 8, 7) == LaneSum(v, 8, 7 + 1);
    LaneJoin(Prefixes(v, 8, 8), q, 8, 8, 7);
    HighLow(p, 56, 64);
    LaneIsField(p, 8, 7);
  }
}
