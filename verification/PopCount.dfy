/** Counting the set bits of a word with a table of the counts of all bytes. */
module PopCount {
  import opened Bits
  import opened LaneSums

  const ROWS: seq<seq<nat>> :=
    [[0, 1, 1, 2, 1, 2, 2, 3, 1, 2, 2, 3, 2, 3, 3, 4],
     [1, 2, 2, 3, 2, 3, 3, 4, 2, 3, 3, 4, 3, 4, 4, 5],
     [1, 2, 2, 3, 2, 3, 3, 4, 2, 3, 3, 4, 3, 4, 4, 5],
     [2, 3, 3, 4, 3, 4, 4, 5, 3, 4, 4, 5, 4, 5, 5, 6],
     [1, 2, 2, 3, 2, 3, 3, 4, 2, 3, 3, 4, 3, 4, 4, 5],
     [2, 3, 3, 4, 3, 4, 4, 5, 3, 4, 4, 5, 4, 5, 5, 6],
     [2, 3, 3, 4, 3, 4, 4, 5, 3, 4, 4, 5, 4, 5, 5, 6],
     [3, 4, 4, 5, 4, 5, 5, 6, 4, 5, 5, 6, 5, 6, 6, 7],
     [1, 2, 2, 3, 2, 3, 3, 4, 2, 3, 3, 4, 3, 4, 4, 5],
     [2, 3, 3, 4, 3, 4, 4, 5, 3, 4, 4, 5, 4, 5, 5, 6],
     [2, 3, 3, 4, 3, 4, 4, 5, 3, 4, 4, 5, 4, 5, 5, 6],
     [3, 4, 4, 5, 4, 5, 5, 6, 4, 5, 5, 6, 5, 6, 6, 7],
     [2, 3, 3, 4, 3, 4, 4, 5, 3, 4, 4, 5, 4, 5, 5, 6],
     [3, 4, 4, 5, 4, 5, 5, 6, 4, 5, 5, 6, 5, 6, 6, 7],
     [3, 4, 4, 5, 4, 5, 5, 6, 4, 5, 5, 6, 5, 6, 6, 7],
     [4, 5, 5, 6, 5, 6, 6, 7, 5, 6, 6, 7, 6, 7, 7, 8]]

  function Flat(rows: seq<seq<nat>>): (r: seq<nat>) {
    if rows == [] then [] else Flat(rows[..|rows| - 1]) + rows[|rows| - 1]
  }

  /** The 256 counts, one row after the other. */
  const TABLE: seq<nat> := Flat(ROWS)

  function PopCount32(x: nat): (r: nat)
    requires x < Pow2(32)
  {
    TableSize();
    ByteIndices(x);
    TABLE[Low(x, 8)] + TABLE[Low(High(x, 8), 8)] + TABLE[Low(High(x, 16), 8)] + TABLE[Low(High(x, 24), 8)]
  }

  function PopCount64(x: nat): (r: nat)
    requires x < Pow2(64)
  {
    hide Pow2, Low, High;
    Halved(x);
    PopCount32(Low(x, 32)) + PopCount32(High(x, 32))
  }

  lemma Halved(x: nat)
    requires x < Pow2(64)
    ensures Low(x, 32) < Pow2(32) && High(x, 32) < Pow2(32)
  {
    hide Pow2, Low, High;
    HighSmall(x, 32, 32);
  }

  lemma HighSmall(x: nat, m: nat, n: nat)
    requires x < Pow2(m + n)
    ensures High(x, m) < Pow2(n)
  {
    Pow2Add(m, n);
    LowHigh(x, m);
    hide Pow2, Low, High;
    if High(x, m) >= Pow2(n) {
      MulLe(Pow2(m), Pow2(n), High(x, m));
    }
  }

  lemma ByteIndices(x: nat)
    ensures Pow2(8) == 256
    ensures Low(x, 8) < 256 && Low(High(x, 8), 8) < 256 && Low(High(x, 16), 8) < 256 && Low(High(x, 24), 8) < 256
  {
    assert Pow2(8) == 256;
    hide Pow2, Low, High;
  }

  // ----- the table -----

  lemma {:induction false} FlatAt(rows: seq<seq<nat>>, i: nat, j: nat)
    requires (forall k :: 0 <= k < |rows| ==> |rows[k]| == 16) && i < |rows| && j < 16
    ensures |Flat(rows)| == 16 * |rows| && Flat(rows)[16 * i + j] == rows[i][j]
    decreases |rows|
  {
    var front := rows[..|rows| - 1];
    if i < |front| {
      FlatAt(front, i, j);
    } else if front != [] {
      FlatAt(front, 0, 0);
    } else {
      assert Flat(front) == [];
    }
  }

  lemma RowSizes()
    ensures |ROWS| == 16 && forall k :: 0 <= k < 16 ==> |ROWS[k]| == 16
  {
  }

  lemma TableSize()
    ensures |TABLE| == 256
  {
    RowSizes();
    hide ROWS;
    FlatAt(ROWS, 0, 0);
  }

  /** The first row holds the counts of four bits, and the others the same counts and what the row adds. */
  lemma RowAt(i: nat, j: nat)
    requires i < 16 && j < 16
    ensures |ROWS[i]| == 16 && ROWS[i][j] == ROWS[0][i] + ROWS[0][j]
  {
    hide ROWS;
    if i < 8 {
      FirstRows(i, j);
    } else {
      LastRows(i, j);
    }
  }

  lemma FirstRows(i: nat, j: nat)
    requires i < 8 && j < 16
    ensures |ROWS[i]| == 16 && ROWS[i][j] == ROWS[0][i] + ROWS[0][j]
  {
  }

  lemma LastRows(i: nat, j: nat)
    requires 8 <= i < 16 && j < 16
    ensures |ROWS[i]| == 16 && ROWS[i][j] == ROWS[0][i] + ROWS[0][j]
  {
  }

  function FirstFour(j: nat): (r: nat) {
    j % 2 + j / 2 % 2 + j / 2 / 2 % 2 + j / 2 / 2 / 2 % 2
  }

  lemma FourBits(j: nat)
    requires j < 16
    ensures ROWS[0][j] == FirstFour(j)
  {
    var row := ROWS[0];
    assert row == [0, 1, 1, 2, 1, 2, 2, 3, 1, 2, 2, 3, 2, 3, 3, 4];
    hide ROWS;
  }

  lemma FirstBit(v: nat, n: nat)
    requires 0 < n
    ensures LaneSum(v, 1, n) == v % 2 + LaneSum(v / 2, 1, n - 1)
  {
    assert Low(v, 1) == v % 2 && High(v, 1) == v / 2;
    hide LaneSum, Low, High;
    LaneSumPeel(v, 1, n);
  }

  /** The bits of the lower and the upper part of a number. */
  lemma {:induction false} BitsSplit(v: nat, m: nat, n: nat)
    ensures LaneSum(v, 1, m + n) == LaneSum(Low(v, m), 1, m) + LaneSum(High(v, m), 1, n)
  {
    if m > 0 {
      hide LaneSum;
      BitsSplit(v / 2, m - 1, n);
      FirstBit(v, m + n);
      FirstBit(Low(v, m), m);
    }
  }

  lemma SumOfFour(j: nat)
    ensures LaneSum(j, 1, 4) == FirstFour(j)
  {
    assert LaneSum(j / 2 / 2 / 2 / 2, 1, 0) == 0;
    hide LaneSum;
    FirstBit(j, 4);
    FirstBit(j / 2, 3);
    FirstBit(j / 2 / 2, 2);
    FirstBit(j / 2 / 2 / 2, 1);
  }

  lemma TableExact(b: nat)
    requires b < 256
    ensures |TABLE| == 256 && TABLE[b] == LaneSum(b, 1, 8)
  {
    hide ROWS, LaneSum, Low, High, FirstFour;
    TableSize();
    RowSizes();
    var i, j := b / 16, b % 16;
    RowAt(i, j);
    FourBits(i);
    FourBits(j);
    FlatAt(ROWS, i, j);
    SumOfFour(i);
    SumOfFour(j);
    NibblesOf(b);
    BitsSplit(b, 4, 4);
  }

  lemma NibblesOf(b: nat)
    ensures Low(b, 4) == b % 16 && High(b, 4) == b / 16
  {
    assert Pow2(4) == 16;
    LowHigh(b, 4);
    hide Low, High, Pow2;
    Split(b, 16, Low(b, 4), High(b, 4));
  }

  // ----- words -----

  lemma PopCount32Exact(x: nat)
    requires x < Pow2(32)
    ensures PopCount32(x) == LaneSum(x, 1, 32)
  {
    hide LaneSum, Low, High, TABLE, Pow2;
    ByteIndices(x);
    TableExact(Low(x, 8));
    TableExact(Low(High(x, 8), 8));
    TableExact(Low(High(x, 16), 8));
    TableExact(Low(High(x, 24), 8));
    BitsSplit(x, 8, 24);
    BitsSplit(High(x, 8), 8, 16);
    HighHigh(x, 8, 8);
    BitsSplit(High(x, 16), 8, 8);
    HighHigh(x, 16, 8);
    HighSmall(x, 24, 8);
    LowSmall(High(x, 24), 8);
  }

  /** The look-ups add up to the number of set bits. */
  lemma PopCount64Exact(x: nat)
    requires x < Pow2(64)
    ensures PopCount64(x) == LaneSum(x, 1, 64)
  {
    hide LaneSum, Low, High, Pow2, PopCount32;
    Halved(x);
    PopCount32Exact(Low(x, 32));
    PopCount32Exact(High(x, 32));
    BitsSplit(x, 32, 32);
  }
}
