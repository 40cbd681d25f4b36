/** The lowest set bit of a word, found with one multiplication and a table. */
module FirstSetBit {
  import opened Bits
  import opened Lanes

  /** The position of the lowest set bit, counted one by one. */
  function LowestBit(v: nat): (r: nat)
    requires 0 < v
  {
    if v % 2 == 1 then 0 else 1 + LowestBit(v / 2)
  }

  const TABLE: seq<nat> :=
    [0, 1, 28, 2, 29, 14, 24, 3, 30, 22, 20, 15, 25, 17, 4, 8,
     31, 27, 13, 23, 21, 19, 16, 7, 26, 12, 18, 6, 11, 5, 10, 9]

  const DE_BRUIJN := 0x077C_B531

  const WORD32 := 0x1_0000_0000

  /** The top five bits of the 32-bit product with an isolated bit. */
  function Slot(isolated: nat): (r: nat)
    ensures r < 32
  {
    (isolated * DE_BRUIJN % WORD32) / 0x800_0000
  }

  function FirstSetBit32(v: nat): (r: nat)
    requires 0 < v < WORD32
  {
    if v == 0x8000_0000 then 31 else TABLE[Slot(And(v, WORD32 - v))]
  }

  function FirstSetBit64(v: nat): (r: nat)
    requires 0 < v < Pow2(64)
  {
    var v0 := Low(v, 32);
    LowestSplit(v, 32);
    HighBound(v);
    if v0 != 0 then FirstSetBit32(v0) else FirstSetBit32(High(v, 32)) + 32
  }

  lemma Word32()
    ensures Pow2(32) == WORD32 && Pow2(31) == 0x8000_0000
  {
    Pow2Add(16, 16);
    Pow2Add(8, 8);
    assert Pow2(8) == 256;
  }

  lemma HighBound(v: nat)
    requires v < Pow2(64)
    ensures Low(v, 32) < WORD32 && High(v, 32) < WORD32 == Pow2(32)
  {
    Word32();
    Pow2Add(32, 32);
    hide Pow2, Low, High;
    LowHigh(v, 32);
  }

  lemma {:induction false} LowestBound(v: nat, n: nat)
    requires 0 < v < Pow2(n)
    ensures LowestBit(v) < n
  {
    if v % 2 == 0 {
      LowestBound(v / 2, n - 1);
    }
  }

  lemma {:induction false} AndNot(a: nat, n: nat)
    requires a < Pow2(n)
    ensures And(a, Pow2(n) - 1 - a) == 0
  {
    if n > 0 {
      AndNot(a / 2, n - 1);
      assert (Pow2(n) - 1 - a) / 2 == Pow2(n - 1) - 1 - a / 2;
    }
  }

  /** `v & -v` keeps exactly the lowest set bit. */
  lemma {:induction false} Isolate(v: nat, n: nat)
    requires 0 < v < Pow2(n)
    ensures And(v, Pow2(n) - v) == Pow2(LowestBit(v))
  {
    var m := Pow2(n) - v;
    if v % 2 == 0 {
      Isolate(v / 2, n - 1);
      assert m / 2 == Pow2(n - 1) - v / 2 && m % 2 == 0;
    } else {
      AndNot(v / 2, n - 1);
      assert m / 2 == Pow2(n - 1) - 1 - v / 2 && m % 2 == 1;
    }
    AndStep(v, m);
  }

  predicate Power(j: nat, p: nat) {
    || (j == 0 && p == 1) || (j == 1 && p == 2) || (j == 2 && p == 4) || (j == 3 && p == 8)
    || (j == 4 && p == 16) || (j == 5 && p == 32) || (j == 6 && p == 64) || (j == 7 && p == 128)
  }

  lemma SmallPower(j: nat)
    requires j < 8
    ensures Power(j, Pow2(j))
  {
  }

  lemma Blocks()
    ensures Pow2(8) == 0x100 && Pow2(16) == 0x1_0000 && Pow2(24) == 0x100_0000
  {
    assert Pow2(8) == 0x100;
    Pow2Add(8, 8);
    Pow2Add(16, 8);
  }

  /** The multiplier sends the 32 isolated bits to different slots, and the table sends them back. */
  lemma TableInverts(k: nat)
    requires k < 32
    ensures TABLE[Slot(Pow2(k))] == k
  {
    Blocks();
    hide Pow2, Slot, TABLE, Power;
    if k < 8 {
      SmallPower(k);
      Inverts0(k, Pow2(k));
    } else if k < 16 {
      Pow2Add(8, k - 8);
      SmallPower(k - 8);
      Inverts1(k - 8, Pow2(k - 8));
    } else if k < 24 {
      Pow2Add(16, k - 16);
      SmallPower(k - 16);
      Inverts2(k - 16, Pow2(k - 16));
    } else {
      Pow2Add(24, k - 24);
      SmallPower(k - 24);
      Inverts3(k - 24, Pow2(k - 24));
    }
  }

  lemma Inverts0(j: nat, p: nat)
    requires Power(j, p)
    ensures TABLE[Slot(p)] == j
  {
    hide Slot, TABLE;
    Row0();
    Row1();
    Row2();
    Row3();
  }

  lemma Inverts1(j: nat, p: nat)
    requires Power(j, p)
    ensures TABLE[Slot(0x100 * p)] == 8 + j
  {
    hide Slot, TABLE;
    Row4();
    Row5();
    Row6();
    Row7();
  }

  lemma Inverts2(j: nat, p: nat)
    requires Power(j, p)
    ensures TABLE[Slot(0x1_0000 * p)] == 16 + j
  {
    hide Slot, TABLE;
    Row8();
    Row9();
    Row10();
    Row11();
  }

  lemma Inverts3(j: nat, p: nat)
    requires Power(j, p)
    ensures TABLE[Slot(0x100_0000 * p)] == 24 + j
  {
    hide Slot, TABLE;
    Row12();
    Row13();
    Row14();
    Row15();
  }

  /** A slot by the parts of the product: multiples of 2^32, then of 2^27, then the rest. */
  lemma SlotAt(x: nat, q: nat, s: nat, r: nat)
    requires x * DE_BRUIJN == WORD32 * q + (0x800_0000 * s + r) && s < 32 && r < 0x800_0000
    ensures Slot(x) == s
  {
    Split(x * DE_BRUIJN, WORD32, 0x800_0000 * s + r, q);
    Split(0x800_0000 * s + r, 0x800_0000, r, s);
  }

  lemma Row0()
    ensures TABLE[Slot(1)] == 0 && TABLE[Slot(2)] == 1
  {
    hide Slot;
    SlotAt(1, 0x0, 0, 0x77c_b531);
    SlotAt(2, 0x0, 1, 0x6f9_6a62);
  }

  lemma Row1()
    ensures TABLE[Slot(4)] == 2 && TABLE[Slot(8)] == 3
  {
    hide Slot;
    SlotAt(4, 0x0, 3, 0x5f2_d4c4);
    SlotAt(8, 0x0, 7, 0x3e5_a988);
  }

  lemma Row2()
    ensures TABLE[Slot(0x10)] == 4 && TABLE[Slot(0x20)] == 5
  {
    hide Slot;
    SlotAt(0x10, 0x0, 14, 0x7cb_5310);
    SlotAt(0x20, 0x0, 29, 0x796_a620);
  }

  lemma Row3()
    ensures TABLE[Slot(0x40)] == 6 && TABLE[Slot(0x80)] == 7
  {
    hide Slot;
    SlotAt(0x40, 0x1, 27, 0x72d_4c40);
    SlotAt(0x80, 0x3, 23, 0x65a_9880);
  }

  lemma Row4()
    ensures TABLE[Slot(0x100)] == 8 && TABLE[Slot(0x200)] == 9
  {
    hide Slot;
    SlotAt(0x100, 0x7, 15, 0x4b5_3100);
    SlotAt(0x200, 0xe, 31, 0x16a_6200);
  }

  lemma Row5()
    ensures TABLE[Slot(0x400)] == 10 && TABLE[Slot(0x800)] == 11
  {
    hide Slot;
    SlotAt(0x400, 0x1d, 30, 0x2d4_c400);
    SlotAt(0x800, 0x3b, 28, 0x5a9_8800);
  }

  lemma Row6()
    ensures TABLE[Slot(0x1000)] == 12 && TABLE[Slot(0x2000)] == 13
  {
    hide Slot;
    SlotAt(0x1000, 0x77, 25, 0x353_1000);
    SlotAt(0x2000, 0xef, 18, 0x6a6_2000);
  }

  lemma Row7()
    ensures TABLE[Slot(0x4000)] == 14 && TABLE[Slot(0x8000)] == 15
  {
    hide Slot;
    SlotAt(0x4000, 0x1df, 5, 0x54c_4000);
    SlotAt(0x8000, 0x3be, 11, 0x298_8000);
  }

  lemma Row8()
    ensures TABLE[Slot(0x1_0000)] == 16 && TABLE[Slot(0x2_0000)] == 17
  {
    hide Slot;
    SlotAt(0x1_0000, 0x77c, 22, 0x531_0000);
    SlotAt(0x2_0000, 0xef9, 13, 0x262_0000);
  }

  lemma Row9()
    ensures TABLE[Slot(0x4_0000)] == 18 && TABLE[Slot(0x8_0000)] == 19
  {
    hide Slot;
    SlotAt(0x4_0000, 0x1df2, 26, 0x4c4_0000);
    SlotAt(0x8_0000, 0x3be5, 21, 0x188_0000);
  }

  lemma Row10()
    ensures TABLE[Slot(0x10_0000)] == 20 && TABLE[Slot(0x20_0000)] == 21
  {
    hide Slot;
    SlotAt(0x10_0000, 0x77cb, 10, 0x310_0000);
    SlotAt(0x20_0000, 0xef96, 20, 0x620_0000);
  }

  lemma Row11()
    ensures TABLE[Slot(0x40_0000)] == 22 && TABLE[Slot(0x80_0000)] == 23
  {
    hide Slot;
    SlotAt(0x40_0000, 0x1_df2d, 9, 0x440_0000);
    SlotAt(0x80_0000, 0x3_be5a, 19, 0x80_0000);
  }

  lemma Row12()
    ensures TABLE[Slot(0x100_0000)] == 24 && TABLE[Slot(0x200_0000)] == 25
  {
    hide Slot;
    SlotAt(0x100_0000, 0x7_7cb5, 6, 0x100_0000);
    SlotAt(0x200_0000, 0xe_f96a, 12, 0x200_0000);
  }

  lemma Row13()
    ensures TABLE[Slot(0x400_0000)] == 26 && TABLE[Slot(0x800_0000)] == 27
  {
    hide Slot;
    SlotAt(0x400_0000, 0x1d_f2d4, 24, 0x400_0000);
    SlotAt(0x800_0000, 0x3b_e5a9, 17, 0x0);
  }

  lemma Row14()
    ensures TABLE[Slot(0x1000_0000)] == 28 && TABLE[Slot(0x2000_0000)] == 29
  {
    hide Slot;
    SlotAt(0x1000_0000, 0x77_cb53, 2, 0x0);
    SlotAt(0x2000_0000, 0xef_96a6, 4, 0x0);
  }

  lemma Row15()
    ensures TABLE[Slot(0x4000_0000)] == 30 && TABLE[Slot(0x8000_0000)] == 31
  {
    hide Slot;
    SlotAt(0x4000_0000, 0x1df_2d4c, 8, 0x0);
    SlotAt(0x8000_0000, 0x3be_5a98, 16, 0x0);
  }

  lemma FirstSetBit32Exact(v: nat)
    requires 0 < v < WORD32
    ensures FirstSetBit32(v) == LowestBit(v)
  {
    Word32();
    LowestOfPower(31);
    hide Pow2, LowestBit, And, Slot, TABLE;
    LowestBound(v, 32);
    Isolate(v, 32);
    TableInverts(LowestBit(v));
  }

  lemma {:induction false} LowestOfPower(n: nat)
    ensures LowestBit(Pow2(n)) == n
  {
    if n > 0 {
      LowestOfPower(n - 1);
    }
  }

  /** Where the lowest bit is, by the two parts of a word. */
  lemma {:induction false} LowestSplit(v: nat, n: nat)
    requires 0 < v
    ensures Low(v, n) != 0 ==> LowestBit(v) == LowestBit(Low(v, n)) < n
    ensures Low(v, n) == 0 ==> 0 < High(v, n) && LowestBit(v) == n + LowestBit(High(v, n))
  {
    if n > 0 && v % 2 == 0 {
      LowestSplit(v / 2, n - 1);
    }
  }

  lemma FirstSetBit64Exact(v: nat)
    requires 0 < v < Pow2(64)
    ensures FirstSetBit64(v) == LowestBit(v)
  {
    HighBound(v);
    LowestSplit(v, 32);
    hide Low, High, LowestBit, FirstSetBit32, Pow2;
    if Low(v, 32) != 0 {
      FirstSetBit32Exact(Low(v, 32));
    } else {
      FirstSetBit32Exact(High(v, 32));
    }
  }

  lemma HighLess(v: nat, w: nat)
    requires 0 < v && 0 < w
    ensures High(v, w) < v
  {
    Pow2Mono(1, w);
    assert Pow2(1) == 2;
    hide Pow2, Low, High;
    LowHigh(v, w);
    MulLe(High(v, w), 2, Pow2(w));
  }

  /** Dividing the position of the lowest bit by the lane width gives the lowest nonzero lane. */
  lemma {:induction false} LowestLane(v: nat, w: nat)
    requires 0 < v && 0 < w
    ensures Lane(v, w, LowestBit(v) / w) != 0
    ensures forall i :: 0 <= i < LowestBit(v) / w ==> Lane(v, w, i) == 0
    decreases v
  {
    hide Low, High, Pow2, LowestBit;
    LowestSplit(v, w);
    if Low(v, w) == 0 {
      HighLess(v, w);
      var r := High(v, w);
      LowestLane(r, w);
      var t := LowestBit(r) / w;
      DivMod(LowestBit(r), w);
      Split(LowestBit(v), w, LowestBit(r) % w, 1 + t);
      forall i | 0 <= i < 1 + t ensures Lane(v, w, i) == 0 {
        if i > 0 {
          assert Lane(r, w, i - 1) == 0;
        }
      }
    } else {
      Split(LowestBit(v), w, LowestBit(v), 0);
    }
  }
}
