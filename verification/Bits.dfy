/** Words as natural numbers: powers of two, bit fields, bitwise operators and lanes.

    A lane of a word is one of its consecutive `w`-bit fields, lowest first.
    `Lane(v, w, 0)` is `v` modulo 2^w and the other lanes are the lanes of `v`
    divided by 2^w, so facts about words of many lanes follow by peeling off the
    lowest lane.
 */
module Bits {

  function Pow2(n: nat): (r: nat)
    ensures r > 0
  {
    if n == 0 then 1 else 2 * Pow2(n - 1)
  }

  lemma {:induction false} Pow2Add(m: nat, n: nat)
    ensures Pow2(m + n) == Pow2(m) * Pow2(n)
  {
    if m > 0 {
      Pow2Add(m - 1, n);
    }
  }

  lemma {:induction false} Pow2Mono(m: nat, n: nat)
    requires m <= n
    ensures Pow2(m) <= Pow2(n)
    ensures m < n ==> 2 * Pow2(m) <= Pow2(n)
  {
    if m < n {
      Pow2Mono(m, n - 1);
    }
  }

  // ----- multiplication and division -----

  lemma MulLe(b: int, x: int, y: int)
    requires 0 <= b && x <= y
    ensures b * x <= b * y
  {
  }

  lemma Distrib(b: int, x: int, y: int)
    ensures b * (x + y) == b * x + b * y
    ensures b * (x - y) == b * x - b * y
  {
  }

  lemma Assoc(a: int, b: int, c: int)
    ensures a * b * c == a * (b * c)
  {
  }

  lemma MulSmall(b: int, d: int)
    requires -b < b * d < b
    ensures d == 0
  {
    if d >= 1 {
      MulLe(b, 1, d);
    }
    if d <= -1 {
      MulLe(b, d, -1);
    }
  }

  lemma DivMod(v: int, b: int)
    requires 0 < b
    ensures v == v % b + b * (v / b) && 0 <= v % b < b
  {
  }

  /** The two parts of a number split at `b` determine it, and every pair of parts occurs. */
  lemma Split(v: int, b: int, low: int, high: int)
    requires 0 < b && 0 <= low < b && v == low + b * high
    ensures v % b == low && v / b == high
  {
    var q := v / b;
    DivMod(v, b);
    Distrib(b, high, q);
    MulSmall(b, high - q);
  }

  lemma MulPos(a: int, b: int)
    requires 0 < a && 0 < b
    ensures 0 < a * b
  {
  }

  // ----- shifts and masks -----

  /** The low `w` bits of a number: masking with 2^w - 1. */
  function Low(v: nat, w: nat): (r: nat)
    ensures r < Pow2(w) && r <= v
  {
    if w == 0 then 0 else v % 2 + 2 * Low(v / 2, w - 1)
  }

  /** A right shift by `w` bits. */
  function High(v: nat, w: nat): (r: nat)
    ensures r <= v
  {
    if w == 0 then v else High(v / 2, w - 1)
  }

  lemma {:induction false} LowHigh(v: nat, w: nat)
    ensures v == Low(v, w) + Pow2(w) * High(v, w)
  {
    if w > 0 {
      LowHigh(v / 2, w - 1);
      Assoc(2, Pow2(w - 1), High(v, w));
    }
  }

  lemma Parts(v: nat, w: nat, low: nat, high: nat)
    requires low < Pow2(w) && v == low + Pow2(w) * high
    ensures Low(v, w) == low && High(v, w) == high
  {
    hide Pow2, Low, High;
    LowHigh(v, w);
    Distrib(Pow2(w), high, High(v, w));
    MulSmall(Pow2(w), high - High(v, w));
  }

  lemma {:induction false} HighHigh(v: nat, m: nat, n: nat)
    ensures High(High(v, m), n) == High(v, m + n)
  {
    if m > 0 {
      HighHigh(v / 2, m - 1, n);
    }
  }

  lemma {:induction false} LowLow(v: nat, m: nat, n: nat)
    requires m <= n
    ensures Low(Low(v, n), m) == Low(v, m)
  {
    if m > 0 {
      LowLow(v / 2, m - 1, n - 1);
    }
  }

  lemma {:induction false} HighLow(v: nat, m: nat, n: nat)
    requires m <= n
    ensures High(Low(v, n), m) == Low(High(v, m), n - m)
  {
    if m > 0 {
      HighLow(v / 2, m - 1, n - 1);
    }
  }

  /** The field of `w` bits that starts at bit `m`. */
  function Field(v: nat, m: nat, w: nat): (r: nat)
    ensures r < Pow2(w)
  {
    Low(High(v, m), w)
  }

  /** A field of a field. */
  lemma FieldField(v: nat, m: nat, n: nat, k: nat, w: nat)
    requires k + w <= n
    ensures Field(Field(v, m, n), k, w) == Field(v, m + k, w)
  {
    HighLow(High(v, m), k, n);
    LowLow(High(High(v, m), k), w, n - k);
    HighHigh(v, m, k);
  }

  /** Two neighbouring fields make up the field that spans them. */
  lemma FieldJoin(v: nat, m: nat, w: nat, w': nat)
    ensures Field(v, m, w + w') == Field(v, m, w) + Pow2(w) * Field(v, m + w, w')
  {
    hide Pow2, Low, High;
    LowHigh(Field(v, m, w + w'), w);
    LowLow(High(v, m), w, w + w');
    HighLow(High(v, m), w, w + w');
    HighHigh(v, m, w);
  }

  // ----- bitwise operators -----

  function And(a: nat, b: nat): (r: nat)
    ensures r <= a && r <= b
  {
    if a == 0 || b == 0 then 0 else 2 * And(a / 2, b / 2) + (if a % 2 == 1 && b % 2 == 1 then 1 else 0)
  }

  function Or(a: nat, b: nat): (r: nat)
    ensures r + And(a, b) == a + b
  {
    if a == 0 then b else if b == 0 then a
    else 2 * Or(a / 2, b / 2) + (if a % 2 == 1 || b % 2 == 1 then 1 else 0)
  }

  function Xor(a: nat, b: nat): (r: nat)
    ensures r + 2 * And(a, b) == a + b
  {
    if a == 0 then b else if b == 0 then a
    else 2 * Xor(a / 2, b / 2) + (if a % 2 != b % 2 then 1 else 0)
  }

  /** The complement of an `n`-bit word. */
  function Not(n: nat, a: nat): (r: nat)
    requires a < Pow2(n)
    ensures r < Pow2(n)
  {
    Pow2(n) - 1 - a
  }

  lemma AndZero(a: nat)
    ensures And(a, 0) == 0 && And(0, a) == 0
  {
  }

  lemma {:induction false} AndComm(a: nat, b: nat)
    ensures And(a, b) == And(b, a)
  {
    if a > 0 && b > 0 {
      AndComm(a / 2, b / 2);
    }
  }

  /** The operators work on the low `w` bits and the rest separately. */
  lemma {:induction false} AndSplit(w: nat, l: nat, r: nat, l': nat, r': nat)
    requires l < Pow2(w) && l' < Pow2(w)
    ensures And(l + Pow2(w) * r, l' + Pow2(w) * r') == And(l, l') + Pow2(w) * And(r, r')
  {
    if w > 0 {
      AndSplit(w - 1, l / 2, r, l' / 2, r');
      AndSplitStep(Pow2(w - 1), l, r, l', r');
    }
  }

  lemma AndSplitStep(b: nat, l: nat, r: nat, l': nat, r': nat)
    requires And(l / 2 + b * r, l' / 2 + b * r') == And(l / 2, l' / 2) + b * And(r, r')
    ensures And(l + 2 * b * r, l' + 2 * b * r') == And(l, l') + 2 * b * And(r, r')
  {
    hide And;
    Products(b, r, r');
    Assoc(2, b, r);
    Assoc(2, b, r');
    Assoc(2, b, And(r, r'));
    Products(b, And(r, r'), 0);
    AndShifted(l + 2 * (b * r), l' + 2 * (b * r'), l, l', b * r, b * r', b * And(r, r'));
  }

  lemma AndShifted(a: nat, a': nat, l: nat, l': nat, t: nat, t': nat, x: nat)
    requires a == l + 2 * t && a' == l' + 2 * t'
    requires And(l / 2 + t, l' / 2 + t') == And(l / 2, l' / 2) + x
    ensures And(a, a') == And(l, l') + 2 * x
  {
    assert a / 2 == l / 2 + t && a' / 2 == l' / 2 + t';
    assert a % 2 == l % 2 && a' % 2 == l' % 2;
    AndStep(a, a');
    AndStep(l, l');
  }

  lemma AndStep(a: nat, b: nat)
    ensures And(a, b) == 2 * And(a / 2, b / 2) + (if a % 2 == 1 && b % 2 == 1 then 1 else 0)
  {
    AndZero(a / 2);
    AndZero(b / 2);
  }

  lemma Products(b: nat, r: nat, r': nat)
    ensures 0 <= b * r && 0 <= b * r'
  {
  }

  lemma OrSplit(w: nat, l: nat, r: nat, l': nat, r': nat)
    requires l < Pow2(w) && l' < Pow2(w)
    ensures Or(l + Pow2(w) * r, l' + Pow2(w) * r') == Or(l, l') + Pow2(w) * Or(r, r')
    ensures Or(l, l') < Pow2(w)
  {
    hide Pow2, And, Or;
    var b := Pow2(w);
    AndSplit(w, l, r, l', r');
    Distrib(b, r, r');
    Distrib(b, Or(r, r'), And(r, r'));
    OrBound(w, l, l');
    Products(b, r, r');
  }

  lemma {:induction false} OrBound(w: nat, a: nat, b: nat)
    requires a < Pow2(w) && b < Pow2(w)
    ensures Or(a, b) < Pow2(w)
  {
    if w > 0 && a > 0 && b > 0 {
      OrBound(w - 1, a / 2, b / 2);
    }
  }

  lemma XorSplit(w: nat, l: nat, r: nat, l': nat, r': nat)
    requires l < Pow2(w) && l' < Pow2(w)
    ensures Xor(l + Pow2(w) * r, l' + Pow2(w) * r') == Xor(l, l') + Pow2(w) * Xor(r, r')
    ensures Xor(l, l') < Pow2(w)
  {
    hide Pow2, And, Xor;
    var b := Pow2(w);
    AndSplit(w, l, r, l', r');
    Distrib(b, r, r');
    Distrib(b, Xor(r, r'), 2 * And(r, r'));
    Distrib(b, And(r, r'), And(r, r'));
    XorBound(w, l, l');
    Products(b, r, r');
  }

  lemma {:induction false} XorBound(w: nat, a: nat, b: nat)
    requires a < Pow2(w) && b < Pow2(w)
    ensures Xor(a, b) < Pow2(w)
  {
    if w > 0 && a > 0 && b > 0 {
      XorBound(w - 1, a / 2, b / 2);
    }
  }

  lemma {:induction false} XorZero(a: nat, b: nat)
    ensures Xor(a, b) == 0 <==> a == b
  {
    if a > 0 && b > 0 {
      XorZero(a / 2, b / 2);
    }
  }

  /** Masking with ones keeps the low bits. */
  lemma {:induction false} AndMask(a: nat, w: nat)
    ensures And(a, Pow2(w) - 1) == Low(a, w)
  {
    hide Pow2, And, Low, High;
    LowHigh(a, w);
    AndSplit(w, Low(a, w), High(a, w), Pow2(w) - 1, 0);
    AndZero(High(a, w));
    AndOnes(Low(a, w), w);
  }

  lemma {:induction false} AndOnes(a: nat, w: nat)
    requires a < Pow2(w)
    ensures And(a, Pow2(w) - 1) == a
  {
    if w > 0 && a > 0 {
      AndOnes(a / 2, w - 1);
      AndStep(a, Pow2(w) - 1);
    }
  }

  /** The top bit of a `w`-bit number. */
  lemma {:induction false} AndTop(a: nat, w: nat)
    requires 0 < w && a < Pow2(w)
    ensures And(a, Pow2(w - 1)) == if a < Pow2(w - 1) then 0 else Pow2(w - 1)
  {
    var h := Pow2(w - 1);
    if a < h {
      AndSplit(w - 1, a, 0, 0, 1);
    } else {
      AndSplit(w - 1, a - h, 1, 0, 1);
      AndZero(a - h);
    }
    AndZero(a);
  }

  // ----- replacing a field -----

  lemma {:induction false} LowSmall(v: nat, w: nat)
    requires v < Pow2(w)
    ensures Low(v, w) == v && High(v, w) == 0
  {
    if w > 0 {
      LowSmall(v / 2, w - 1);
    }
  }

  lemma {:induction false} ZeroParts(w: nat)
    ensures Low(0, w) == 0 && High(0, w) == 0
  {
    if w > 0 {
      ZeroParts(w - 1);
    }
  }

  /** A left shift by `k` bits. */
  function Shl(x: nat, k: nat): (r: nat) {
    if k == 0 then x else 2 * Shl(x, k - 1)
  }

  lemma {:induction false} ShlParts(x: nat, k: nat, m: nat)
    ensures m <= k ==> High(Shl(x, k), m) == Shl(x, k - m) && Low(Shl(x, k), m) == 0
    ensures k <= m ==> High(Shl(x, k), m) == High(x, m - k)
  {
    if k > 0 && m > 0 {
      ShlParts(x, k - 1, m - 1);
    }
  }

  lemma {:induction false} ShlBound(x: nat, w: nat, k: nat)
    requires x < Pow2(w)
    ensures Shl(x, k) < Pow2(w + k)
  {
    if k > 0 {
      ShlBound(x, w, k - 1);
    }
  }

  /** A field of a shifted value: the value itself, or nothing of it. */
  lemma ShlField(x: nat, w: nat, k: nat, m: nat, n: nat)
    requires x < Pow2(w)
    ensures m == k && n == w ==> Field(Shl(x, k), m, n) == x
    ensures m + n <= k || k + w <= m ==> Field(Shl(x, k), m, n) == 0
  {
    ShlParts(x, k, m);
    LowSmall(x, w);
    if m + n <= k {
      ShlParts(x, k - m, n);
    } else if k + w <= m {
      HighHigh(x, w, m - k - w);
      ZeroParts(m - k - w);
      ZeroParts(n);
    }
  }

  /** A field of a complement is the complement of the field. */
  lemma {:induction false} NotParts(n: nat, a: nat, m: nat)
    requires a < Pow2(n) && m <= n
    ensures Low(Not(n, a), m) == Not(m, Low(a, m))
    ensures High(a, m) < Pow2(n - m) && High(Not(n, a), m) == Not(n - m, High(a, m))
  {
    hide Pow2, Low, High;
    var l, h, b, c := Low(a, m), High(a, m), Pow2(m), Pow2(n - m);
    Pow2Add(m, n - m);
    LowHigh(a, m);
    if h >= c {
      MulLe(b, c, h);
    }
    Distrib(b, c - 1, h);
    Distrib(b, c, 1);
    Parts(Not(n, a), m, b - 1 - l, c - 1 - h);
  }

  lemma NotField(n: nat, a: nat, m: nat, w: nat)
    requires a < Pow2(n) && m + w <= n
    ensures Field(Not(n, a), m, w) == Not(w, Field(a, m, w))
  {
    NotParts(n, a, m);
    NotParts(n - m, High(a, m), w);
  }

  /** The operators on the low bits and on the rest. */
  lemma AndParts(v: nat, v': nat, w: nat)
    ensures Low(And(v, v'), w) == And(Low(v, w), Low(v', w))
    ensures High(And(v, v'), w) == And(High(v, w), High(v', w))
  {
    hide Pow2, Low, High, And;
    var l, r, l', r' := Low(v, w), High(v, w), Low(v', w), High(v', w);
    LowHigh(v, w);
    LowHigh(v', w);
    AndSplit(w, l, r, l', r');
    Parts(And(v, v'), w, And(l, l'), And(r, r'));
  }

  lemma OrParts(v: nat, v': nat, w: nat)
    ensures Low(Or(v, v'), w) == Or(Low(v, w), Low(v', w))
    ensures High(Or(v, v'), w) == Or(High(v, w), High(v', w))
  {
    hide Pow2, Low, High, Or;
    var l, r, l', r' := Low(v, w), High(v, w), Low(v', w), High(v', w);
    LowHigh(v, w);
    LowHigh(v', w);
    OrSplit(w, l, r, l', r');
    Parts(Or(v, v'), w, Or(l, l'), Or(r, r'));
  }

  lemma XorParts(v: nat, v': nat, w: nat)
    ensures Low(Xor(v, v'), w) == Xor(Low(v, w), Low(v', w))
    ensures High(Xor(v, v'), w) == Xor(High(v, w), High(v', w))
  {
    hide Pow2, Low, High, Xor;
    var l, r, l', r' := Low(v, w), High(v, w), Low(v', w), High(v', w);
    LowHigh(v, w);
    LowHigh(v', w);
    XorSplit(w, l, r, l', r');
    Parts(Xor(v, v'), w, Xor(l, l'), Xor(r, r'));
  }

  /** `(p & ~(mask << k)) | (x << k)` on `n`-bit words: the field at `k` becomes `x`. */
  function SetField(n: nat, p: nat, k: nat, w: nat, x: nat): (r: nat)
    requires p < Pow2(n) && k + w <= n && x < Pow2(w)
  {
    ShlBound(Pow2(w) - 1, w, k);
    Pow2Mono(w + k, n);
    Or(And(p, Not(n, Shl(Pow2(w) - 1, k))), Shl(x, k))
  }

  lemma SetFieldAt(n: nat, p: nat, k: nat, w: nat, x: nat, m: nat, v: nat)
    requires p < Pow2(n) && k + w <= n && x < Pow2(w) && m + v <= n
    ensures SetField(n, p, k, w, x) < Pow2(n)
    ensures m == k && v == w ==> Field(SetField(n, p, k, w, x), m, v) == x
    ensures m + v <= k || k + w <= m ==> Field(SetField(n, p, k, w, x), m, v) == Field(p, m, v)
  {
    hide Pow2, And, Or, Field, Not, Shl, SetField;
    SetFieldParts(n, p, k, w, x, m, v);
    ShlField(Pow2(w) - 1, w, k, m, v);
    ShlField(x, w, k, m, v);
    SetFieldEnds(Field(p, m, v), v, Field(Shl(x, k), m, v));
  }

  lemma SetFieldParts(n: nat, p: nat, k: nat, w: nat, x: nat, m: nat, v: nat)
    requires p < Pow2(n) && k + w <= n && x < Pow2(w) && m + v <= n
    ensures SetField(n, p, k, w, x) < Pow2(n)
    ensures Field(SetField(n, p, k, w, x), m, v) ==
            Or(And(Field(p, m, v), Not(v, Field(Shl(Pow2(w) - 1, k), m, v))), Field(Shl(x, k), m, v))
  {
    hide Pow2, And, Or, Low, High, Not, Shl;
    var ones := Shl(Pow2(w) - 1, k);
    ShlBound(Pow2(w) - 1, w, k);
    ShlBound(x, w, k);
    Pow2Mono(w + k, n);
    var q := Not(n, ones);
    OrBound(n, And(p, q), Shl(x, k));
    OrParts(And(p, q), Shl(x, k), m);
    OrParts(High(And(p, q), m), High(Shl(x, k), m), v);
    AndParts(p, q, m);
    AndParts(High(p, m), High(q, m), v);
    NotField(n, ones, m, v);
  }

  lemma SetFieldEnds(f: nat, v: nat, x: nat)
    requires f < Pow2(v)
    ensures Or(And(f, Not(v, 0)), 0) == f
    ensures Or(And(f, Not(v, Pow2(v) - 1)), x) == x
  {
    AndOnes(f, v);
    AndZero(f);
  }
}
