/** Elements of 0, 1, 2, 4, 8, 16, 32 or 64 bits packed into bytes.

    Element `i` of width `w` occupies the bits from `i * w` on, little-endian.
    Elements below 8 bits are unsigned and share bytes; the others are two's
    complement and occupy whole bytes.
 */
module DirectAccess {
  import opened Bits

  type Byte = b: int | 0 <= b < 256

  type Width = w: nat | w == 0 || w == 1 || w == 2 || w == 4 || w == 8 || w == 16 || w == 32 || w == 64 witness 0

  function LowerBound(w: Width): (r: int) {
    if w < 8 then 0 else 0 - (Pow2(w - 1) as int)
  }

  function UpperBound(w: Width): (r: int) {
    if w < 8 then Pow2(w) - 1 else Pow2(w - 1) - 1
  }

  predicate Fits(w: Width, v: int) {
    LowerBound(w) <= v <= UpperBound(w)
  }

  /** The powers the widths need, as numbers. */
  lemma Powers()
    ensures Pow2(0) == 1 && Pow2(1) == 2 && Pow2(2) == 4 && Pow2(3) == 8 && Pow2(4) == 16
    ensures Pow2(7) == 0x80 && Pow2(8) == 0x100 && Pow2(15) == 0x8000 && Pow2(16) == 0x1_0000
    ensures Pow2(31) == 0x8000_0000 && Pow2(32) == 0x1_0000_0000
    ensures Pow2(63) == 0x8000_0000_0000_0000 && Pow2(64) == 0x1_0000_0000_0000_0000
  {
    SmallPowers();
    HalfPowers();
    hide Pow2;
    Pow2Add(8, 8);
    Pow2Add(16, 16);
    Pow2Add(32, 32);
  }

  lemma SmallPowers()
    ensures Pow2(0) == 1 && Pow2(1) == 2 && Pow2(2) == 4 && Pow2(3) == 8 && Pow2(4) == 16
    ensures Pow2(7) == 0x80 && Pow2(8) == 0x100
  {
    assert Pow2(4) == 16;
  }

  lemma HalfPowers()
    ensures Pow2(16) == 2 * Pow2(15) && Pow2(32) == 2 * Pow2(31) && Pow2(64) == 2 * Pow2(63)
  {
  }

  // ----- the least width for a value -----

  const WORD64 := 0x1_0000_0000_0000_0000

  /** Whether a value is an int64_t. */
  predicate Int64(v: int) {
    -0x8000_0000_0000_0000 <= v < 0x8000_0000_0000_0000
  }

  /** The values of an int64_t are those that fit 64 bits. */
  lemma Int64Fits(v: int)
    ensures Int64(v) <==> Fits(64, v)
  {
    Powers();
  }

  function BitWidth(value: int): (w: Width)
    requires Int64(value)
  {
    if 0 <= value < 16 then
      (if value == 0 then 0 else if value == 1 then 1 else if value <= 3 then 2 else 4)
    else
      var v := if value < 0 then -1 - value else value;
      if v >= 0x8000_0000 then 64 else if v >= 0x8000 then 32 else if v >= 0x80 then 16 else 8
  }

  /** A value fits exactly the widths from its bit width on. */
  lemma BitWidthLeast(value: int, w: Width)
    requires Int64(value)
    ensures Fits(w, value) <==> BitWidth(value) <= w
  {
    Powers();
    hide Pow2;
  }

  lemma WiderFits(w: Width, w': Width, v: int)
    requires w <= w' && Fits(w, v)
    ensures Fits(w', v)
  {
    Powers();
  }

  // ----- reading -----

  /** `n` bytes read as one number, lowest first. */
  function LittleEndian(data: seq<Byte>, pos: nat, n: nat): (r: nat)
    requires pos + n <= |data|
    ensures r < Pow2(8 * n)
    decreases n
  {
    if n == 0 then 0
    else
      var rest := LittleEndian(data, pos + 1, n - 1);
      assert Pow2(8 * n) == 256 * Pow2(8 * (n - 1)) by { Pow2Add(8, 8 * (n - 1)); Powers(); }
      data[pos] + 256 * rest
  }

  predicate InBounds(data: seq<Byte>, p: nat, w: nat) {
    p + w <= 8 * |data|
  }

  /** Bit position `p` is one where an element of width `w` can start. */
  predicate Placeable(p: nat, w: Width) {
    if w < 8 then p % 8 + w <= 8 else p % 8 == 0
  }

  /** The bits of the element at bit position `p`. */
  function RawAt(data: seq<Byte>, p: nat, w: Width): (r: nat)
    requires InBounds(data, p, w) && Placeable(p, w)
    ensures r < Pow2(w)
  {
    if w == 0 then 0
    else if w < 8 then Field(data[p / 8], p % 8, w)
    else LittleEndian(data, p / 8, w / 8)
  }

  function Signed(w: Width, raw: nat): (r: int)
    requires raw < Pow2(w)
    ensures Fits(w, r)
  {
    if w < 8 || raw < Pow2(w - 1) then raw else raw - Pow2(w)
  }

  function Unsigned(w: Width, v: int): (r: nat)
    requires Fits(w, v)
    ensures r < Pow2(w)
  {
    if v < 0 then v + Pow2(w) else v
  }

  lemma SignedUnsigned(w: Width, v: int)
    requires Fits(w, v)
    ensures Signed(w, Unsigned(w, v)) == v
  {
  }

  lemma UnsignedSigned(w: Width, raw: nat)
    requires raw < Pow2(w)
    ensures Unsigned(w, Signed(w, raw)) == raw
  {
  }

  lemma SameValue(w: Width, raw: nat, value: int)
    requires raw < Pow2(w) && Fits(w, value)
    ensures Signed(w, raw) == value <==> raw == Unsigned(w, value)
  {
    SignedUnsigned(w, value);
    UnsignedSigned(w, raw);
  }

  /** The low bits of a value's 64-bit form are its form at its width. */
  lemma LowOfValue(w: Width, value: int)
    requires Fits(w, value)
    ensures Fits(64, value) && Low(Unsigned(64, value), w) == Unsigned(w, value)
  {
    Powers();
    Pow2Add(w, 64 - w);
    hide Pow2, Low, High;
    if value >= 0 {
      LowSmall(value, w);
    } else {
      Distrib(Pow2(w), Pow2(64 - w), 1);
      Parts(value + Pow2(64), w, value + Pow2(w), Pow2(64 - w) - 1);
    }
  }

  /** Where element `i` starts. */
  lemma Place(w: Width, i: nat)
    ensures Placeable(i * w, w)
  {
    var p := i * w;
    if w < 8 {
      PlaceNarrow(w, i, p);
    } else {
      var b := w / 8;
      assert w == 8 * b;
      Assoc(8, b, i);
      PlaceWide(p, b * i);
    }
  }

  lemma PlaceNarrow(w: Width, i: nat, p: nat)
    requires w < 8 && p == i * w
    ensures p % 8 + w <= 8
  {
    if w == 4 {
      assert p == 4 * i;
    } else if w == 2 {
      assert p == 2 * i;
    }
  }

  lemma PlaceWide(p: nat, q: nat)
    requires p == 8 * q
    ensures p % 8 == 0
  {
  }

  /** Elements of one width follow each other, and wider ones start later. */
  lemma Places(w: Width, w': Width, i: nat, j: nat)
    requires i < j && w <= w'
    ensures i * w + w <= j * w'
    ensures i * w <= i * w'
  {
    MulLe(w, i + 1, j);
    Distrib(w, i, 1);
    MulLe(j, w, w');
    MulLe(i, w, w');
  }

  predicate Holds(data: seq<Byte>, w: Width, size: nat) {
    size * w <= 8 * |data|
  }

  lemma HoldsElement(data: seq<Byte>, w: Width, size: nat, i: nat)
    requires Holds(data, w, size) && i < size
    ensures InBounds(data, i * w, w) && Placeable(i * w, w)
  {
    Place(w, i);
    Places(w, w, i, size);
  }

  /** get_direct */
  function Get(data: seq<Byte>, w: Width, i: nat): (r: int)
    requires InBounds(data, i * w, w)
    ensures Fits(w, r)
  {
    Place(w, i);
    Signed(w, RawAt(data, i * w, w))
  }

  function Elements(data: seq<Byte>, w: Width, size: nat): (r: seq<int>)
    requires Holds(data, w, size)
    ensures |r| == size
  {
    seq(size, i requires 0 <= i < size => HoldsElement(data, w, size, i); Get(data, w, i))
  }

  lemma ElementAt(data: seq<Byte>, w: Width, size: nat, i: nat)
    requires Holds(data, w, size) && i < size
    ensures InBounds(data, i * w, w) && Get(data, w, i) == Elements(data, w, size)[i]
  {
    HoldsElement(data, w, size, i);
  }

  // ----- writing -----

  /** The `n` lowest bytes of a number. */
  function Bytes(x: nat, n: nat): (r: seq<Byte>)
    ensures |r| == n
  {
    if n == 0 then [] else [x % 256] + Bytes(x / 256, n - 1)
  }

  /** set_direct: the bits of the element at `p` become `x`; nothing else changes. */
  function SetRaw(data: seq<Byte>, p: nat, w: Width, x: nat): (r: seq<Byte>)
    requires InBounds(data, p, w) && Placeable(p, w) && x < Pow2(w)
    ensures |r| == |data|
  {
    if w == 0 then data
    else if w < 8 then
      var b := data[p / 8];
      Powers();
      SetFieldAt(8, b, p % 8, w, x, p % 8, w);
      data[p / 8 := SetField(8, b, p % 8, w, x)]
    else
      var k, n := p / 8, w / 8;
      data[..k] + Bytes(x, n) + data[k + n..]
  }

  lemma {:induction false} BytesRead(before: seq<Byte>, x: nat, n: nat, after: seq<Byte>)
    requires x < Pow2(8 * n)
    ensures LittleEndian(before + Bytes(x, n) + after, |before|, n) == x
    decreases n
  {
    if n > 0 {
      Pow2Add(8, 8 * (n - 1));
      Powers();
      var data := before + Bytes(x, n) + after;
      assert data == (before + [x % 256]) + Bytes(x / 256, n - 1) + after;
      BytesRead(before + [x % 256], x / 256, n - 1, after);
      assert data[|before|] == x % 256;
    } else {
      assert Pow2(8 * n) == 1;
    }
  }

  /** The number read depends on the bytes read only. */
  lemma {:induction false} LittleEndianSame(data: seq<Byte>, pos: nat, data': seq<Byte>, pos': nat, n: nat)
    requires pos + n <= |data| && pos' + n <= |data'|
    requires data[pos..pos + n] == data'[pos'..pos' + n]
    ensures LittleEndian(data, pos, n) == LittleEndian(data', pos', n)
    decreases n
  {
    if n > 0 {
      assert data[pos] == data[pos..pos + n][0] == data'[pos'];
      assert data[pos + 1..pos + n] == data[pos..pos + n][1..] == data'[pos' + 1..pos' + n];
      LittleEndianSame(data, pos + 1, data', pos' + 1, n - 1);
    }
  }

  lemma {:induction false} LittleEndianFrame(data: seq<Byte>, data': seq<Byte>, pos: nat, n: nat)
    requires pos + n <= |data| && pos + n <= |data'|
    requires forall k :: pos <= k < pos + n ==> data'[k] == data[k]
    ensures LittleEndian(data', pos, n) == LittleEndian(data, pos, n)
    decreases n
  {
    if n > 0 {
      LittleEndianFrame(data, data', pos + 1, n - 1);
    }
  }

  /** What was written is read back. */
  lemma SetRawSame(data: seq<Byte>, p: nat, w: Width, x: nat)
    requires InBounds(data, p, w) && Placeable(p, w) && x < Pow2(w)
    ensures RawAt(SetRaw(data, p, w, x), p, w) == x
  {
    if w == 0 {
    } else if w < 8 {
      SameNarrow(data, p, w, x);
    } else {
      SameWide(data, p, w, x);
    }
  }

  lemma SameNarrow(data: seq<Byte>, p: nat, w: Width, x: nat)
    requires InBounds(data, p, w) && Placeable(p, w) && x < Pow2(w) && 0 < w < 8
    ensures RawAt(SetRaw(data, p, w, x), p, w) == x
  {
    Powers();
    hide Field, SetField, Pow2;
    SetFieldAt(8, data[p / 8], p % 8, w, x, p % 8, w);
  }

  lemma SameWide(data: seq<Byte>, p: nat, w: Width, x: nat)
    requires InBounds(data, p, w) && Placeable(p, w) && x < Pow2(w) && 8 <= w
    ensures RawAt(SetRaw(data, p, w, x), p, w) == x
  {
    hide Bytes, LittleEndian, Pow2;
    var k, n := p / 8, w / 8;
    assert 8 * n == w && 8 * k == p;
    var before, after := data[..k], data[k + n..];
    BytesRead(before, x, n, after);
    assert SetRaw(data, p, w, x) == before + Bytes(x, n) + after;
  }

  /** Elements at other bits, of whatever width, are not disturbed. */
  lemma SetRawOther(data: seq<Byte>, p: nat, w: Width, x: nat, q: nat, v: Width)
    requires InBounds(data, p, w) && Placeable(p, w) && x < Pow2(w)
    requires InBounds(data, q, v) && Placeable(q, v)
    requires q + v <= p || p + w <= q
    ensures RawAt(SetRaw(data, p, w, x), q, v) == RawAt(data, q, v)
  {
    if 0 < w && 0 < v {
      if w < 8 {
        OtherThanNarrow(data, p, w, x, q, v);
      } else {
        OtherThanWide(data, p, w, x, q, v);
      }
    }
  }

  lemma OtherThanNarrow(data: seq<Byte>, p: nat, w: Width, x: nat, q: nat, v: Width)
    requires InBounds(data, p, w) && Placeable(p, w) && x < Pow2(w) && 0 < w < 8
    requires InBounds(data, q, v) && Placeable(q, v) && 0 < v
    requires q + v <= p || p + w <= q
    ensures RawAt(SetRaw(data, p, w, x), q, v) == RawAt(data, q, v)
  {
    hide Field, SetField, Pow2, LittleEndian, SetRaw;
    if v >= 8 {
      WideBesideNarrow(data, p, w, x, q, v);
    } else {
      NarrowByte(data, p, w, x, q % 8, v);
    }
  }

  lemma WideBesideNarrow(data: seq<Byte>, p: nat, w: Width, x: nat, q: nat, v: Width)
    requires InBounds(data, p, w) && Placeable(p, w) && x < Pow2(w) && 0 < w < 8
    requires InBounds(data, q, v) && Placeable(q, v) && 8 <= v
    requires q + v <= p || p + w <= q
    ensures RawAt(SetRaw(data, p, w, x), q, v) == RawAt(data, q, v)
  {
    hide Field, SetField, Pow2, LittleEndian, SetRaw;
    NarrowByte(data, p, w, x, 0, 0);
    assert 8 * (v / 8) == v;
    LittleEndianFrame(data, SetRaw(data, p, w, x), q / 8, v / 8);
  }

  /** A narrow write changes one byte, and in it only the bits of the element. */
  lemma NarrowByte(data: seq<Byte>, p: nat, w: Width, x: nat, m: nat, v: nat)
    requires InBounds(data, p, w) && Placeable(p, w) && x < Pow2(w) && 0 < w < 8 && m + v <= 8
    ensures forall k :: 0 <= k < |data| && k != p / 8 ==> SetRaw(data, p, w, x)[k] == data[k]
    ensures m + v <= p % 8 || p % 8 + w <= m ==> Field(SetRaw(data, p, w, x)[p / 8], m, v) == Field(data[p / 8], m, v)
  {
    Powers();
    hide Field, SetField, Pow2;
    SetFieldAt(8, data[p / 8], p % 8, w, x, m, v);
  }

  lemma OtherThanWide(data: seq<Byte>, p: nat, w: Width, x: nat, q: nat, v: Width)
    requires InBounds(data, p, w) && Placeable(p, w) && x < Pow2(w) && 8 <= w
    requires InBounds(data, q, v) && Placeable(q, v) && 0 < v
    requires q + v <= p || p + w <= q
    ensures RawAt(SetRaw(data, p, w, x), q, v) == RawAt(data, q, v)
  {
    hide Field, Pow2, LittleEndian, Bytes;
    assert 8 * (w / 8) == w;
    if v >= 8 {
      assert 8 * (v / 8) == v;
      LittleEndianFrame(data, SetRaw(data, p, w, x), q / 8, v / 8);
    }
  }

  /** Writing one element of an array, seen by `Get`. */
  lemma SetGet(data: seq<Byte>, w: Width, i: nat, value: int, v: Width, j: nat)
    requires Fits(w, value) && InBounds(data, i * w, w) && InBounds(data, j * v, v)
    requires v == w || (v < w && j < i)
    ensures Placeable(i * w, w)
    ensures Get(SetRaw(data, i * w, w, Unsigned(w, value)), v, j) == if v == w && j == i then value else Get(data, v, j)
  {
    Place(w, i);
    Place(v, j);
    var x := Unsigned(w, value);
    if v == w && j == i {
      SetRawSame(data, i * w, w, x);
      SignedUnsigned(w, value);
    } else {
      if j < i {
        Places(v, w, j, i);
      } else {
        Places(w, w, i, j);
      }
      SetRawOther(data, i * w, w, x, j * v, v);
    }
  }
}
