/** Values of many types in one array of words.

    A word holds the type, the number of a payload array and either the value
    itself or an index into that array. Words and payload are kept in bijection.
 */
module MixedEntries {
  import Bits
  import D = DirectAccess

  // ----- values -----

  datatype Item = Word(word: int) | Pair(first: int, second: int) | Bytes(bytes: seq<int>) | Ref(ref: nat)

  datatype Mixed = Null | Int(value: int) | Bool(flag: bool) | Boxed(kind: nat, item: Item)

  const INT := 0
  const BOOL := 1
  const STRING := 2
  const BINARY := 4
  const TIMESTAMP := 8
  const FLOAT := 9
  const DOUBLE := 10
  const DECIMAL := 11
  const LINK := 12
  const OBJECT_ID := 15
  const TYPED_LINK := 16
  const UUID := 17
  const LIST := 19
  const DICTIONARY := 21

  /** Which payload array holds an item. */
  function Home(item: Item): (k: nat)
    ensures 1 <= k <= 4
  {
    match item
    case Word(_) => 1
    case Pair(_, _) => 2
    case Bytes(_) => 3
    case Ref(_) => 4
  }

  /** The payload array that a type is read from. */
  function Source(kind: nat): (k: nat) {
    if kind == INT || kind == FLOAT || kind == DOUBLE || kind == LINK then 1
    else if kind == TIMESTAMP || kind == DECIMAL || kind == TYPED_LINK then 2
    else if kind == STRING || kind == BINARY || kind == OBJECT_ID || kind == UUID then 3
    else if kind == LIST || kind == DICTIONARY then 4
    else 0
  }

  /** Numbers are 64 bits wide. */
  predicate Fits64(item: Item) {
    match item
    case Word(x) => D.Int64(x)
    case Pair(a, b) => D.Int64(a) && D.Int64(b)
    case _ => true
  }

  /** Each type has its kind of item. */
  predicate Matching(kind: nat, item: Item) {
    match item
    case Word(_) => kind == FLOAT || kind == DOUBLE || kind == LINK
    case Pair(_, _) => kind == TIMESTAMP || kind == DECIMAL || kind == TYPED_LINK
    case Bytes(_) => kind == STRING || kind == BINARY || kind == OBJECT_ID || kind == UUID
    case Ref(_) => kind == LIST || kind == DICTIONARY
  }

  /** The values there are. */
  predicate Proper(v: Mixed) {
    match v
    case Int(x) => D.Int64(x)
    case Boxed(kind, item) => Matching(kind, item) && Fits64(item)
    case _ => true
  }

  /** The type of a value, -1 for null. */
  function TypeOf(v: Mixed): (t: int) {
    match v
    case Null => -1
    case Int(_) => INT
    case Bool(_) => BOOL
    case Boxed(kind, _) => kind
  }

  /** The collection that a value owns, if any. */
  function Collection(v: Mixed): (r: seq<nat>) {
    if v.Boxed? && v.item.Ref? && v.item.ref != 0 then [v.item.ref] else []
  }

  predicate Narrow(x: int) {
    -0x8000_0000 <= x <= 0x7fff_ffff
  }

  // ----- words -----

  /** `data << 8 | array << 5`, plus the type and one. */
  function Make(data: int, array_: nat, kind: nat): (c: int) {
    data * 256 + array_ * 32 + kind + 1
  }

  function KindOf(c: int): (r: int) {
    c % 32 - 1
  }

  /** Whether a word carries a type at all. */
  predicate Typed(c: int) {
    c % 32 != 0
  }

  function ArrayOf(c: int): (r: nat)
    ensures r < 8
  {
    c % 256 / 32
  }

  function DataOf(c: int): (r: int) {
    c / 256
  }

  lemma ByteParts(c: int, q: int, low: int)
    requires c == 256 * q + low && 0 <= low < 256
    ensures c / 256 == q && c % 256 == low && c % 32 == low % 32
  {
    Bits.Split(c, 256, low, q);
    Bits.DivMod(low, 32);
    Bits.Split(c, 32, low % 32, 8 * q + low / 32);
  }

  lemma MakeParts(data: int, array_: nat, kind: nat)
    requires array_ < 8 && kind < 31
    ensures var c := Make(data, array_, kind);
            Typed(c) && c != 0 && KindOf(c) == kind && ArrayOf(c) == array_ && DataOf(c) == data
  {
    ByteParts(Make(data, array_, kind), data, array_ * 32 + kind + 1);
  }

  /** Replacing the index and keeping the rest of the word. */
  lemma Reindexed(c: int, data: int)
    ensures var c' := data * 256 + c % 256;
            Typed(c') == Typed(c) && KindOf(c') == KindOf(c) && ArrayOf(c') == ArrayOf(c) && DataOf(c') == data
  {
    ByteParts(c, c / 256, c % 256);
    ByteParts(data * 256 + c % 256, data, c % 256);
  }

  // ----- words and payload together -----

  /** Payload arrays 1 to 4 by number. */
  type Payload = p: seq<seq<Item>> | |p| == 5 witness [[], [], [], [], []]

  ghost predicate WellTyped(c: int, p: Payload) {
    || c == 0
    || (&& Typed(c) && ArrayOf(c) == 0
        && ((KindOf(c) == INT && Narrow(DataOf(c))) || (KindOf(c) == BOOL && 0 <= DataOf(c) <= 1)))
    || (&& Typed(c) && 1 <= ArrayOf(c) <= 4 && 0 <= KindOf(c) && 0 <= DataOf(c) < |p[ArrayOf(c)]|
        && Source(KindOf(c)) == ArrayOf(c) == Home(p[ArrayOf(c)][DataOf(c)])
        && Fits64(p[ArrayOf(c)][DataOf(c)]) && (KindOf(c) == INT ==> !Narrow(p[1][DataOf(c)].word)))
  }

  ghost predicate Owns(c: int, k: nat, d: int) {
    ArrayOf(c) == k && DataOf(c) == d
  }

  /** The value a word stands for. */
  ghost function Value(c: int, p: Payload): (v: Mixed)
    requires WellTyped(c, p)
    ensures Proper(v)
  {
    if c == 0 then Null
    else if ArrayOf(c) == 0 then (if KindOf(c) == INT then Int(DataOf(c)) else Bool(DataOf(c) == 1))
    else
      var item := p[ArrayOf(c)][DataOf(c)];
      if KindOf(c) == INT then Int(item.word) else Boxed(KindOf(c), item)
  }

  /** The type in a word is that of its value, and -1 for null. */
  lemma TypeOfWord(c: int, p: Payload)
    requires WellTyped(c, p)
    ensures TypeOf(Value(c, p)) == KindOf(c)
    ensures KindOf(c) == -1 <==> c == 0
  {
    ZeroWord();
  }

  /** Values have the same type exactly when they are of the same form, and of the same kind if they are boxed. */
  lemma SameType(v: Mixed, w: Mixed)
    requires Proper(v) && Proper(w)
    ensures TypeOf(v) == TypeOf(w) <==>
            (v.Null? && w.Null?) || (v.Int? && w.Int?) || (v.Bool? && w.Bool?) ||
            (v.Boxed? && w.Boxed? && v.kind == w.kind)
  {
  }

  /** Exactly the integers of 32 bits are kept in their words. */
  lemma InlineInts(c: int, p: Payload)
    requires WellTyped(c, p) && Value(c, p).Int?
    ensures ArrayOf(c) == 0 <==> -0x8000_0000 <= Value(c, p).value <= 0x7fff_ffff
  {
    ZeroWord();
  }

  /** Positions below `n` except `hole`. */
  predicate Live(n: nat, hole: int, i: int) {
    0 <= i < n && i != hole
  }

  ghost predicate Owned(comp: seq<int>, n: nat, hole: int, k: nat, d: int)
    requires n <= |comp|
  {
    exists i :: Live(n, hole, i) && Owns(comp[i], k, d)
  }

  /** The words at live positions and the payload items are in bijection: every word is
      well typed, no item has two owners, and every item has one. */
  ghost predicate Linked(comp: seq<int>, p: Payload, n: nat, hole: int) {
    && n <= |comp|
    && (forall i :: Live(n, hole, i) ==> WellTyped(comp[i], p))
    && (forall i, j :: Live(n, hole, i) && Live(n, hole, j) && i != j && ArrayOf(comp[i]) != 0 ==>
          !Owns(comp[j], ArrayOf(comp[i]), DataOf(comp[i])))
    && (forall k, d :: 1 <= k <= 4 && 0 <= d < |p[k]| ==> Owned(comp, n, hole, k, d))
  }

  /** Each item is used exactly once, so there are as many items as words that use one. */
  ghost function Values(comp: seq<int>, p: Payload): (r: seq<Mixed>)
    requires Linked(comp, p, |comp|, -1)
    ensures |r| == |comp|
  {
    seq(|comp|, i requires 0 <= i < |comp| => assert Live(|comp|, -1, i); Value(comp[i], p))
  }

  /** There are no more items in a payload array than words. */
  lemma FewItems(comp: seq<int>, p: Payload, k: nat)
    requires Linked(comp, p, |comp|, -1) && 1 <= k <= 4
    ensures |p[k]| <= |comp|
  {
    var data := seq(|comp|, i requires 0 <= i < |comp| => DataOf(comp[i]));
    forall d | 0 <= d < |p[k]| ensures d in data {
      assert Owned(comp, |comp|, -1, k, d);
      var i :| Live(|comp|, -1, i) && Owns(comp[i], k, d);
      assert data[i] == d;
    }
    Pigeonhole(data, |p[k]|);
  }

  lemma {:induction false} Pigeonhole(s: seq<int>, n: nat)
    requires forall d :: 0 <= d < n ==> d in s
    ensures n <= |s|
    decreases n
  {
    if n > 0 {
      assert n - 1 in s;
      var i :| 0 <= i < |s| && s[i] == n - 1;
      var t := s[..i] + s[i + 1..];
      forall d | 0 <= d < n - 1 ensures d in t {
        assert d in s;
        var j :| 0 <= j < |s| && s[j] == d;
        assert t[if j < i then j else j - 1] == d;
      }
      Pigeonhole(t, n - 1);
    }
  }

  /** Every word and every number is 64 bits wide. An array has at most 2^24 - 1 elements. */
  lemma AllFit64(comp: seq<int>, p: Payload, i: nat, k: nat, d: nat)
    requires Linked(comp, p, |comp|, -1) && |comp| <= 0xff_ffff
    ensures i < |comp| ==> D.Int64(comp[i])
    ensures 1 <= k <= 4 && d < |p[k]| ==> Fits64(p[k][d])
  {
    if i < |comp| {
      var c := comp[i];
      assert Live(|comp|, -1, i);
      Bits.DivMod(c, 256);
      if 1 <= ArrayOf(c) <= 4 {
        FewItems(comp, p, ArrayOf(c));
      }
      assert -0x8000_0000 <= DataOf(c) <= 0x7fff_ffff;
    }
    if 1 <= k <= 4 && d < |p[k]| {
      assert Owned(comp, |comp|, -1, k, d);
    }
  }

  // ----- taking an item out -----

  /** `s` with its last item moved over item `d`. */
  function LastOver<T>(s: seq<T>, d: nat): (r: seq<T>)
    requires d < |s|
    ensures |r| == |s| - 1
  {
    s[d := s[|s| - 1]][..|s| - 1]
  }

  /** The words after the owner of index `from` in array `k` was pointed to `to`; the first owner is the one changed. */
  ghost predicate Repointed(comp: seq<int>, comp': seq<int>, k: nat, from: int, to: int) {
    && |comp'| == |comp|
    && (forall i :: 0 <= i < |comp| ==>
          comp'[i] == if Owns(comp[i], k, from) && FirstOwner(comp, k, from, i) then to * 256 + comp[i] % 256
              else comp[i])
  }

  ghost predicate FirstOwner(comp: seq<int>, k: nat, d: int, i: nat)
    requires i <= |comp|
  {
    forall j :: 0 <= j < i ==> !Owns(comp[j], k, d)
  }

  /** Taking the item of a live word out leaves the other live words in bijection with the
      rest, reading the same values, even though words that are not live are left as they were. */
  lemma TakenOut(comp: seq<int>, comp': seq<int>, p: Payload, n: nat, x: nat, k: nat, d: nat)
    requires Linked(comp, p, n, -1) && x < n && 1 <= k <= 4 && Owns(comp[x], k, d) && d < |p[k]|
    requires if d == |p[k]| - 1 then comp' == comp else Repointed(comp, comp', k, |p[k]| - 1, d)
    ensures Linked(comp', p[k := LastOver(p[k], d)], n, x)
    ensures forall i :: Live(n, x, i) ==>
            WellTyped(comp[i], p) && Value(comp'[i], p[k := LastOver(p[k], d)]) == Value(comp[i], p)
  {
    var p' := p[k := LastOver(p[k], d)];
    var last := |p[k]| - 1;
    forall i | Live(n, x, i)
      ensures WellTyped(comp[i], p) && WellTyped(comp'[i], p') && Value(comp'[i], p') == Value(comp[i], p)
      ensures ArrayOf(comp'[i]) == ArrayOf(comp[i])
      ensures DataOf(comp'[i]) == if ArrayOf(comp[i]) == k && DataOf(comp[i]) == last then d else DataOf(comp[i])
    {
      TakenWord(comp, comp', p, n, x, k, d, i);
    }
    forall i, j | Live(n, x, i) && Live(n, x, j) && i != j && ArrayOf(comp'[i]) != 0
      ensures !Owns(comp'[j], ArrayOf(comp'[i]), DataOf(comp'[i]))
    {
      assert Live(n, -1, i) && Live(n, -1, j) && Live(n, -1, x);
      assert !Owns(comp[j], ArrayOf(comp[i]), DataOf(comp[i]));
      assert !Owns(comp[j], ArrayOf(comp[x]), DataOf(comp[x]));
      assert !Owns(comp[i], ArrayOf(comp[x]), DataOf(comp[x]));
    }
    forall k', d' | 1 <= k' <= 4 && 0 <= d' < |p'[k']| ensures Owned(comp', n, x, k', d') {
      StillOwned(comp, comp', p, n, x, k, d, k', d');
    }
  }

  lemma TakenWord(comp: seq<int>, comp': seq<int>, p: Payload, n: nat, x: nat, k: nat, d: nat, i: int)
    requires Linked(comp, p, n, -1) && x < n && 1 <= k <= 4 && Owns(comp[x], k, d) && d < |p[k]| && Live(n, x, i)
    requires if d == |p[k]| - 1 then comp' == comp else Repointed(comp, comp', k, |p[k]| - 1, d)
    ensures WellTyped(comp[i], p) && WellTyped(comp'[i], p[k := LastOver(p[k], d)])
    ensures Value(comp'[i], p[k := LastOver(p[k], d)]) == Value(comp[i], p)
    ensures ArrayOf(comp'[i]) == ArrayOf(comp[i])
    ensures DataOf(comp'[i]) == if ArrayOf(comp[i]) == k && DataOf(comp[i]) == |p[k]| - 1 then d else DataOf(comp[i])
  {
    var last := |p[k]| - 1;
    assert Live(n, -1, i) && Live(n, -1, x);
    assert !Owns(comp[i], ArrayOf(comp[x]), DataOf(comp[x]));
    if Owns(comp[i], k, last) {
      forall j | 0 <= j < i ensures !Owns(comp[j], k, last) {
        assert Live(n, -1, j);
        assert !Owns(comp[j], ArrayOf(comp[i]), DataOf(comp[i]));
      }
      Reindexed(comp[i], d);
    }
  }

  lemma StillOwned(comp: seq<int>, comp': seq<int>, p: Payload, n: nat, x: nat, k: nat, d: nat, k': nat, d': int)
    requires Linked(comp, p, n, -1) && x < n && 1 <= k <= 4 && Owns(comp[x], k, d) && d < |p[k]|
    requires if d == |p[k]| - 1 then comp' == comp else Repointed(comp, comp', k, |p[k]| - 1, d)
    requires 1 <= k' <= 4 && 0 <= d' < |p[k := LastOver(p[k], d)][k']|
    ensures Owned(comp', n, x, k', d')
  {
    var from := if k' == k && d' == d then |p[k]| - 1 else d';
    assert Owned(comp, n, -1, k', from);
    var i :| Live(n, -1, i) && Owns(comp[i], k', from);
    assert i != x;
    TakenWord(comp, comp', p, n, x, k, d, i);
    assert Live(n, x, i) && Owns(comp'[i], k', d');
  }

  // ----- putting a value in -----

  /** Word `c` and payload `p'` are how `v` is stored next to payload `p`. */
  ghost predicate StoredAs(v: Mixed, c: int, p: Payload, p': Payload) {
    match v
    case Null => c == 0 && p' == p
    case Bool(b) => c == Make(if b then 1 else 0, 0, BOOL) && p' == p
    case Int(x) =>
      if Narrow(x) then c == Make(x, 0, INT) && p' == p
      else c == Make(|p[1]|, 1, INT) && p' == p[1 := p[1] + [Word(x)]]
    case Boxed(kind, item) =>
      c == Make(|p[Home(item)]|, Home(item), kind) && p' == p[Home(item) := p[Home(item)] + [item]]
  }

  lemma ZeroWord()
    ensures ArrayOf(0) == 0 && !Typed(0)
  {
  }

  /** Words are not disturbed by an item added at the end. */
  lemma KeptWord(w: int, p: Payload, k: nat, item: Item)
    requires WellTyped(w, p) && k < 5
    ensures WellTyped(w, p[k := p[k] + [item]]) && Value(w, p[k := p[k] + [item]]) == Value(w, p)
  {
    hide KindOf, ArrayOf, DataOf, Typed;
  }

  /** The word for an item at the end. */
  lemma NewWord(kind: nat, item: Item, p: Payload)
    requires Source(kind) == Home(item) && Fits64(item) && (kind == INT ==> !Narrow(item.word))
    ensures var k := Home(item);
            var c, p' := Make(|p[k]|, k, kind), p[k := p[k] + [item]];
            WellTyped(c, p') && Value(c, p') == (if kind == INT then Int(item.word) else Boxed(kind, item)) &&
                Owns(c, k, |p[k]|)
  {
    hide Make, KindOf, ArrayOf, DataOf, Typed;
    MakeParts(|p[Home(item)]|, Home(item), kind);
  }

  /** A stored value is read back; values stored before are not disturbed. */
  lemma StoredValue(v: Mixed, c: int, p: Payload, p': Payload, w: int)
    requires Proper(v) && StoredAs(v, c, p, p')
    ensures WellTyped(c, p') && Value(c, p') == v
    ensures ArrayOf(c) != 0 ==> DataOf(c) == |p[ArrayOf(c)]|
    ensures WellTyped(w, p) ==> WellTyped(w, p') && Value(w, p') == Value(w, p)
  {
    hide Make, KindOf, ArrayOf, DataOf, Typed;
    ZeroWord();
    match v {
      case Null =>
      case Bool(b) => MakeParts(if b then 1 else 0, 0, BOOL);
      case Int(x) =>
        if Narrow(x) {
          MakeParts(x, 0, INT);
        } else {
          StoredItem(INT, Word(x), c, p, p', w);
        }
      case Boxed(kind, item) => StoredItem(kind, item, c, p, p', w);
    }
  }

  lemma StoredItem(kind: nat, item: Item, c: int, p: Payload, p': Payload, w: int)
    requires Source(kind) == Home(item) && Fits64(item) && (kind == INT ==> !Narrow(item.word))
    requires c == Make(|p[Home(item)]|, Home(item), kind) && p' == p[Home(item) := p[Home(item)] + [item]]
    ensures WellTyped(c, p') && Value(c, p') == if kind == INT then Int(item.word) else Boxed(kind, item)
    ensures Owns(c, Home(item), |p[Home(item)]|)
    ensures WellTyped(w, p) ==> WellTyped(w, p') && Value(w, p') == Value(w, p)
  {
    hide Make, WellTyped, Value;
    NewWord(kind, item, p);
    if WellTyped(w, p) {
      KeptWord(w, p, Home(item), item);
    }
  }

  /** Filling the hole. */
  lemma Filled(comp: seq<int>, p: Payload, x: nat, v: Mixed, c: int, p': Payload)
    requires Linked(comp, p, |comp|, x) && x < |comp| && Proper(v) && StoredAs(v, c, p, p')
    ensures Linked(comp[x := c], p', |comp|, -1)
    ensures Values(comp[x := c], p')[x] == v
    ensures forall i :: Live(|comp|, x, i) ==>
              WellTyped(comp[i], p) && Values(comp[x := c], p')[i] == Value(comp[i], p)
  {
    hide WellTyped, Value, Owns, StoredAs, Proper, ArrayOf, DataOf;
    var comp', n := comp[x := c], |comp|;
    StoredValue(v, c, p, p', c);
    forall i | Live(n, x, i)
      ensures WellTyped(comp[i], p) && WellTyped(comp[i], p') && Value(comp[i], p') == Value(comp[i], p)
    {
      StoredValue(v, c, p, p', comp[i]);
    }
    forall i, j | Live(n, -1, i) && Live(n, -1, j) && i != j && ArrayOf(comp'[i]) != 0
      ensures !Owns(comp'[j], ArrayOf(comp'[i]), DataOf(comp'[i]))
    {
      OneOwner(comp, p, x, v, c, p', i, j);
    }
    forall k, d | 1 <= k <= 4 && 0 <= d < |p'[k]| ensures Owned(comp', n, -1, k, d) {
      FilledOwned(comp, p, x, v, c, p', k, d);
    }
  }

  lemma OneOwner(comp: seq<int>, p: Payload, x: nat, v: Mixed, c: int, p': Payload, i: int, j: int)
    requires Linked(comp, p, |comp|, x) && x < |comp| && Proper(v) && StoredAs(v, c, p, p')
    requires Live(|comp|, -1, i) && Live(|comp|, -1, j) && i != j && ArrayOf(comp[x := c][i]) != 0
    ensures !Owns(comp[x := c][j], ArrayOf(comp[x := c][i]), DataOf(comp[x := c][i]))
  {
    hide WellTyped, Value, StoredAs, Proper, ArrayOf, DataOf;
    StoredValue(v, c, p, p', c);
    if i != x && j != x {
      assert Live(|comp|, x, i) && Live(|comp|, x, j);
    } else {
      var y := if i == x then j else i;
      assert Live(|comp|, x, y);
      InReach(comp[y], p);
    }
  }

  lemma InReach(c: int, p: Payload)
    requires WellTyped(c, p)
    ensures ArrayOf(c) != 0 ==> ArrayOf(c) <= 4 && DataOf(c) < |p[ArrayOf(c)]|
  {
    ZeroWord();
  }

  lemma FilledOwned(comp: seq<int>, p: Payload, x: nat, v: Mixed, c: int, p': Payload, k: nat, d: int)
    requires Linked(comp, p, |comp|, x) && x < |comp| && Proper(v) && StoredAs(v, c, p, p')
    requires 1 <= k <= 4 && 0 <= d < |p'[k]|
    ensures Owned(comp[x := c], |comp|, -1, k, d)
  {
    hide WellTyped, Owns, StoredAs, Proper, ArrayOf, DataOf;
    var comp', n := comp[x := c], |comp|;
    if d < |p[k]| {
      assert Owned(comp, n, x, k, d);
      var i :| Live(n, x, i) && Owns(comp[i], k, d);
      assert Live(n, -1, i) && Owns(comp'[i], k, d);
    } else {
      NewOwner(v, c, p, p', k, d);
      assert Live(n, -1, x) && Owns(comp'[x], k, d);
    }
  }

  lemma NewOwner(v: Mixed, c: int, p: Payload, p': Payload, k: nat, d: int)
    requires Proper(v) && StoredAs(v, c, p, p') && 1 <= k <= 4 && |p[k]| <= d < |p'[k]|
    ensures Owns(c, k, d)
  {
    if v.Int? {
      MakeParts(|p[1]|, 1, INT);
    } else {
      MakeParts(|p[Home(v.item)]|, Home(v.item), v.kind);
    }
  }

  /** Where position `i` is found after position `x` was opened. */
  function Shifted(x: nat, i: int): (r: int) {
    if i < x then i else i + 1
  }

  /** Opening a position, and closing one that is not live, keep the bijection. */
  lemma Opened(comp: seq<int>, p: Payload, x: nat)
    requires Linked(comp, p, |comp|, -1) && x <= |comp|
    ensures Linked(comp[..x] + [0] + comp[x..], p, |comp| + 1, x)
  {
    var comp', n, m := comp[..x] + [0] + comp[x..], |comp|, |comp| + 1;
    forall i | Live(m, x, i)
      ensures exists j :: Live(n, -1, j) && Shifted(x, j) == i && comp'[i] == comp[j]
    {
      var j := if i < x then i else i - 1;
      assert Live(n, -1, j) && Shifted(x, j) == i && comp'[i] == comp[j];
    }
    forall k, d | 1 <= k <= 4 && 0 <= d < |p[k]| ensures Owned(comp', m, x, k, d) {
      assert Owned(comp, n, -1, k, d);
      var j :| Live(n, -1, j) && Owns(comp[j], k, d);
      assert Live(m, x, Shifted(x, j)) && Owns(comp'[Shifted(x, j)], k, d);
    }
  }

  lemma Closed(comp: seq<int>, p: Payload, x: nat)
    requires Linked(comp, p, |comp|, x) && x < |comp|
    ensures Linked(comp[..x] + comp[x + 1..], p, |comp| - 1, -1)
  {
    var comp', n := comp[..x] + comp[x + 1..], |comp| - 1;
    forall i | Live(n, -1, i)
      ensures Live(n + 1, x, Shifted(x, i)) && comp'[i] == comp[Shifted(x, i)]
    {
    }
    forall k, d | 1 <= k <= 4 && 0 <= d < |p[k]| ensures Owned(comp', n, -1, k, d) {
      assert Owned(comp, n + 1, x, k, d);
      var j :| Live(n + 1, x, j) && Owns(comp[j], k, d);
      var i := if j < x then j else j - 1;
      assert Live(n, -1, i) && Owns(comp'[i], k, d);
    }
  }

  /** Dropping the positions from `n` on when none of them is live. */
  lemma Dropped(comp: seq<int>, p: Payload, n: nat)
    requires Linked(comp, p, n, -1)
    ensures Linked(comp[..n], p, n, -1)
  {
    forall k, d | 1 <= k <= 4 && 0 <= d < |p[k]| ensures Owned(comp[..n], n, -1, k, d) {
      assert Owned(comp, n, -1, k, d);
      var j :| Live(n, -1, j) && Owns(comp[j], k, d);
      assert Live(n, -1, j) && Owns(comp[..n][j], k, d);
    }
  }
}
