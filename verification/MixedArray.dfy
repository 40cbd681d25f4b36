/** The array of mixed values: words, and payload arrays that are deleted from by moving the last item over. */
module MixedArray {
  import opened Options
  import opened MixedEntries
  import D = DirectAccess
  import P = PackedArray

  function Words(s: seq<int>): (r: seq<Item>)
    ensures |r| == |s|
  {
    seq(|s|, i requires 0 <= i < |s| => Word(s[i]))
  }

  /** Pairs are stored flat, two numbers each. */
  function Pairs(s: seq<int>): (r: seq<Item>)
    ensures |r| == |s| / 2
  {
    seq(|s| / 2, i requires 0 <= i < |s| / 2 => Pair(s[2 * i], s[2 * i + 1]))
  }

  function Strings(s: seq<seq<int>>): (r: seq<Item>)
    ensures |r| == |s|
  {
    seq(|s|, i requires 0 <= i < |s| => Bytes(s[i]))
  }

  function Refs(s: seq<nat>): (r: seq<Item>)
    ensures |r| == |s|
  {
    seq(|s|, i requires 0 <= i < |s| => Ref(s[i]))
  }

  lemma WordsTaken(s: seq<int>, d: nat)
    requires d < |s|
    ensures Words(LastOver(s, d)) == LastOver(Words(s), d)
  {
  }

  lemma StringsTaken(s: seq<seq<int>>, d: nat)
    requires d < |s|
    ensures Strings(LastOver(s, d)) == LastOver(Strings(s), d)
  {
  }

  lemma RefsTaken(s: seq<nat>, d: nat)
    requires d < |s|
    ensures Refs(LastOver(s, d)) == LastOver(Refs(s), d)
  {
  }

  lemma PairsTaken(s: seq<int>, d: nat)
    requires |s| % 2 == 0 && 2 * d < |s|
    ensures var last := |s| - 2;
            last >= 0 && Pairs(s[2 * d := s[last]][2 * d + 1 := s[last + 1]][..last]) == LastOver(Pairs(s), d)
  {
    var last := |s| - 2;
    var t := s[2 * d := s[last]][2 * d + 1 := s[last + 1]][..last];
    forall i | 0 <= i < |s| / 2 - 1 ensures Pairs(t)[i] == LastOver(Pairs(s), d)[i] {
      assert 2 * i != 2 * d + 1 && 2 * i + 1 != 2 * d;
    }
  }

  lemma Appended(s: seq<int>, a: int, b: int)
    requires |s| % 2 == 0
    ensures Pairs(s + [a, b]) == Pairs(s) + [Pair(a, b)]
  {
    var t := s + [a, b];
    forall i | 0 <= i < |s| / 2 ensures t[2 * i] == s[2 * i] && t[2 * i + 1] == s[2 * i + 1] {
    }
  }

  class ArrayMixed {
    var composite: seq<int>
    var ints: seq<int>
    var pairs: seq<int>
    var strings: seq<seq<int>>
    var refs: seq<nat>
    /** A key for each of the first elements, if any element was given one. */
    var keys: Option<seq<int>>
    /** The refs of the collections that were destroyed. */
    var destroyed: seq<nat>

    ghost function Items(): (p: Payload)
      reads this
    {
      [[], Words(ints), Pairs(pairs), Strings(strings), Refs(refs)]
    }

    ghost predicate Valid()
      reads this
    {
      |pairs| % 2 == 0 && Linked(composite, Items(), |composite|, -1) && (keys.Some? ==> |keys.value| <= |composite|)
    }

    ghost function Contents(): (r: seq<Mixed>)
      requires Valid()
      reads this
    {
      Values(composite, Items())
    }

    /** The keys of all elements. */
    ghost function Keys(): (r: seq<int>)
      reads this
    {
      KeysOf(keys, |composite|)
    }

    constructor ()
      ensures Valid() && Contents() == [] && keys == None && destroyed == []
    {
      composite, ints, pairs, strings, refs := [], [], [], [], [];
      keys, destroyed := None, [];
    }

    /** Every word and every number stored in the payload arrays is an int64_t. */
    lemma AllWords()
      requires Valid() && |composite| <= P.MAX_ARRAY_SIZE
      ensures forall i :: 0 <= i < |composite| ==> D.Int64(composite[i])
      ensures forall i :: 0 <= i < |ints| ==> D.Int64(ints[i])
      ensures forall i :: 0 <= i < |pairs| ==> D.Int64(pairs[i])
    {
      var p := Items();
      forall i | 0 <= i < |composite| ensures D.Int64(composite[i]) {
        AllFit64(composite, p, i, 1, 0);
      }
      forall i | 0 <= i < |ints| ensures D.Int64(ints[i]) {
        AllFit64(composite, p, 0, 1, i);
        assert p[1][i] == Word(ints[i]);
      }
      forall i | 0 <= i < |pairs| ensures D.Int64(pairs[i]) {
        AllFit64(composite, p, 0, 2, i / 2);
        assert p[2][i / 2] == Pair(pairs[2 * (i / 2)], pairs[2 * (i / 2) + 1]);
      }
    }

    // ----- keys -----

    method GetKey(ndx: nat) returns (key: int)
      requires ndx < |composite|
      ensures key == Keys()[ndx]
    {
      key := if keys.Some? && ndx < |keys.value| then keys.value[ndx] else 0;
    }

    method EnsureKeys()
      modifies this`keys
      ensures keys.Some? && Keys() == old(Keys())
      ensures old(keys).Some? ==> keys == old(keys)
      ensures old(keys).None? ==> |keys.value| == |composite|
    {
      if keys.None? {
        keys := Some(seq(|composite|, _ => 0));
      }
    }

    method SetKey(ndx: nat, key: int)
      requires ndx < |composite| && (keys.Some? ==> |keys.value| <= |composite|)
      modifies this`keys
      ensures keys.Some? && |keys.value| <= |composite| && Keys() == old(Keys())[ndx := key]
      ensures old(keys).Some? && ndx < |old(keys).value| ==> |keys.value| == |old(keys).value|
    {
      var ks := if keys.Some? then keys.value else [];
      while |ks| <= ndx
        invariant (if keys.Some? then keys.value else []) <= ks && |ks| <= |composite|
        invariant keys.Some? && ndx < |keys.value| ==> ks == keys.value
        invariant forall i :: 0 <= i < |composite| ==> KeyAt(Some(ks), i) == KeyAt(keys, i)
        decreases ndx + 1 - |ks|
      {
        ks := ks + [0];
      }
      keys := Some(ks[ndx := key]);
    }

    // ----- values -----

    /** Reading dispatches on the type, not on the payload array named in the word. */
    method Get(ndx: nat) returns (v: Mixed)
      requires Valid() && ndx < |composite|
      ensures v == Contents()[ndx]
    {
      assert Live(|composite|, -1, ndx);
      var val := composite[ndx];
      if val == 0 {
        return Null;
      }
      var data, kind := DataOf(val), KindOf(val);
      if kind == INT {
        v := if ArrayOf(val) != 0 then Int(ints[data]) else Int(data);
      } else if kind == BOOL {
        v := Bool(data != 0);
      } else if Source(kind) == 1 {
        v := Boxed(kind, Word(ints[data]));
      } else if Source(kind) == 2 {
        v := Boxed(kind, Pair(pairs[2 * data], pairs[2 * data + 1]));
      } else if Source(kind) == 3 {
        v := Boxed(kind, Bytes(strings[data]));
      } else {
        v := Boxed(kind, Ref(refs[data]));
      }
    }

    /** The word under which a value is stored; its item goes to the end of its payload array. */
    method Store(v: Mixed) returns (val: int)
      requires Proper(v) && v != Null && |pairs| % 2 == 0
      modifies this`ints, this`pairs, this`strings, this`refs
      ensures |pairs| % 2 == 0 && StoredAs(v, val, old(Items()), Items())
    {
      ghost var p := Items();
      match v {
        case Int(x) =>
          if Narrow(x) {
            val := Make(x, 0, INT);
          } else {
            val := Make(|ints|, 1, INT);
            ints := ints + [x];
            assert Words(ints) == p[1] + [Word(x)];
          }
        case Bool(b) =>
          val := Make(if b then 1 else 0, 0, BOOL);
        case Boxed(kind, item) =>
          val := StoreItem(kind, item);
      }
    }

    method StoreItem(kind: nat, item: Item) returns (val: int)
      requires |pairs| % 2 == 0
      modifies this`ints, this`pairs, this`strings, this`refs
      ensures |pairs| % 2 == 0 && StoredAs(Boxed(kind, item), val, old(Items()), Items())
    {
      ghost var p := Items();
      match item {
        case Word(x) =>
          val := Make(|ints|, 1, kind);
          ints := ints + [x];
          assert Words(ints) == p[1] + [item];
        case Pair(a, b) =>
          val := Make(|pairs| / 2, 2, kind);
          Appended(pairs, a, b);
          pairs := pairs + [a, b];
        case Bytes(s) =>
          val := Make(|strings|, 3, kind);
          strings := strings + [s];
          assert Strings(strings) == p[3] + [item];
        case Ref(r) =>
          val := Make(|refs|, 4, kind);
          refs := refs + [r];
          assert Refs(refs) == p[4] + [item];
      }
    }

    /** Points the first word that refers to index `from` of array `k` to index `to`. */
    method ReplaceIndex(from: nat, to: nat, k: nat)
      requires from != to
      modifies this`composite
      ensures Repointed(old(composite), composite, k, from, to)
    {
      var i := 0;
      while i != |composite|
        invariant 0 <= i <= |composite| && composite == old(composite)
        invariant FirstOwner(composite, k, from, i)
      {
        var val := composite[i];
        if ArrayOf(val) == k && DataOf(val) == from {
          composite := composite[i := to * 256 + val % 256];
          return;
        }
        i := i + 1;
      }
    }

    /** Takes the item of word `ndx` out, and destroys a collection if asked to. Only the words below
        `n` count; those above may be stale. */
    method EraseLinkedPayload(ndx: nat, destroy: bool, ghost n: nat)
      requires |pairs| % 2 == 0 && Linked(composite, Items(), n, -1) && ndx < n
      modifies this`composite, this`ints, this`pairs, this`strings, this`refs, this`destroyed
      ensures WellTyped(old(composite)[ndx], old(Items()))
      ensures destroyed == old(destroyed) +
              (if destroy then Collection(Value(old(composite)[ndx], old(Items()))) else [])
      ensures |pairs| % 2 == 0 && |composite| == |old(composite)| && Linked(composite, Items(), n, ndx)
      ensures forall i :: Live(n, ndx, i) ==>
                WellTyped(old(composite)[i], old(Items())) &&
                    Value(composite[i], Items()) == Value(old(composite)[i], old(Items()))
    {
      ghost var p, comp := Items(), composite;
      assert Live(n, -1, ndx);
      var val := composite[ndx];
      var k := ArrayOf(val);
      WordCollection(val, p, refs);
      if k == 0 {
        Unowned(composite, p, n, ndx);
        return;
      }
      var d: nat := DataOf(val);
      if k == 4 && destroy && refs[d] != 0 {
        destroyed := destroyed + [refs[d]];
      }
      TakePayload(ndx, k, d, n);
    }

    /** Moves the last item over that of word `ndx` and repoints its owner. */
    method TakePayload(ndx: nat, k: nat, d: nat, ghost n: nat)
      requires |pairs| % 2 == 0 && Linked(composite, Items(), n, -1) && ndx < n
      requires 1 <= k <= 4 && Owns(composite[ndx], k, d) && d < |Items()[k]|
      modifies this`composite, this`ints, this`pairs, this`strings, this`refs
      ensures |pairs| % 2 == 0 && |composite| == |old(composite)| && Linked(composite, Items(), n, ndx)
      ensures forall i :: Live(n, ndx, i) ==>
                WellTyped(old(composite)[i], old(Items())) &&
                    Value(composite[i], Items()) == Value(old(composite)[i], old(Items()))
    {
      hide Linked, WellTyped, Value;
      ghost var p, comp := Items(), composite;
      var last := if k == 1 then |ints| - 1 else if k == 2 then |pairs| / 2 - 1 else if k == 3 then |strings| - 1
          else |refs| - 1;
      if d != last {
        ReplaceIndex(last, d, k);
      }
      TakenOut(comp, composite, p, n, ndx, k, d);
      TakeItem(k, d);
    }

    /** Moves the last item of payload array `k` over item `d`. */
    method TakeItem(k: nat, d: nat)
      requires |pairs| % 2 == 0 && 1 <= k <= 4 && d < |Items()[k]|
      modifies this`ints, this`pairs, this`strings, this`refs
      ensures |pairs| % 2 == 0 && Items() == old(Items())[k := LastOver(old(Items())[k], d)]
    {
      if k == 1 {
        WordsTaken(ints, d);
        ints := ints[d := ints[|ints| - 1]][..|ints| - 1];
      } else if k == 2 {
        PairsTaken(pairs, d);
        var last := |pairs| - 2;
        pairs := pairs[2 * d := pairs[last]][2 * d + 1 := pairs[last + 1]][..last];
      } else if k == 3 {
        StringsTaken(strings, d);
        strings := strings[d := strings[|strings| - 1]][..|strings| - 1];
      } else {
        RefsTaken(refs, d);
        refs := refs[d := refs[|refs| - 1]][..|refs| - 1];
      }
    }

    method InsertValue(ndx: nat, v: Mixed)
      requires |pairs| % 2 == 0 && Linked(composite, Items(), |composite|, -1) && ndx <= |composite| && Proper(v)
      modifies this`composite, this`ints, this`pairs, this`strings, this`refs
      ensures |pairs| % 2 == 0 && Linked(composite, Items(), |composite|, -1)
      ensures Values(composite, Items()) == old(Values(composite, Items()))[..ndx] + [v] +
              old(Values(composite, Items()))[ndx..]
    {
      ghost var comp, p := composite, Items();
      var val := 0;
      if v != Null {
        val := Store(v);
      }
      hide Linked, StoredAs, WellTyped, Value;
      composite := composite[..ndx] + [val] + composite[ndx..];
      ValueInserted(comp, p, ndx, v, val, Items());
    }

    /** A new element has key 0; the keys must reach as far as the place. */
    method Insert(ndx: nat, v: Mixed)
      requires Valid() && ndx <= |composite| && Proper(v) && (keys.Some? ==> ndx <= |keys.value|)
      modifies this`composite, this`ints, this`pairs, this`strings, this`refs, this`keys
      ensures Valid() && Contents() == old(Contents())[..ndx] + [v] + old(Contents())[ndx..]
      ensures Keys() == old(Keys())[..ndx] + [0] + old(Keys())[ndx..]
    {
      hide Linked, Value, WellTyped, KeysOf;
      InsertValue(ndx, v);
      KeyInserted(keys, |old(composite)|, ndx);
      if keys.Some? {
        keys := Some(keys.value[..ndx] + [0] + keys.value[ndx..]);
      }
    }

    /** Adding leaves the keys alone. */
    method Add(v: Mixed)
      requires Valid() && Proper(v)
      modifies this`composite, this`ints, this`pairs, this`strings, this`refs
      ensures Valid() && Contents() == old(Contents()) + [v] && Keys() == old(Keys()) + [0]
      ensures |composite| == |old(composite)| + 1
    {
      hide Linked, Value, WellTyped;
      InsertValue(|composite|, v);
    }

    method SetValue(ndx: nat, v: Mixed, destroy: bool)
      requires |pairs| % 2 == 0 && Linked(composite, Items(), |composite|, -1) && ndx < |composite| && Proper(v)
      modifies this`composite, this`ints, this`pairs, this`strings, this`refs, this`destroyed
      ensures |pairs| % 2 == 0 && Linked(composite, Items(), |composite|, -1)
      ensures Values(composite, Items()) == old(Values(composite, Items()))[ndx := v]
      ensures destroyed == old(destroyed) +
              (if destroy || v == Null then Collection(old(Values(composite, Items()))[ndx]) else [])
    {
      hide Linked, StoredAs, WellTyped, Value;
      OneRead(composite, Items(), ndx);
      if v == Null {
        if composite[ndx] != 0 {
          EraseLinkedPayload(ndx, true, |composite|);
          NullStored(Items());
          Filled(composite, Items(), ndx, Null, 0, Items());
          composite := composite[ndx := 0];
        } else {
          NullRead(composite, Items(), ndx);
        }
      } else {
        EraseLinkedPayload(ndx, destroy, |composite|);
        ghost var p := Items();
        var val := Store(v);
        Filled(composite, p, ndx, v, val, Items());
        composite := composite[ndx := val];
      }
    }

    /** A collection that is replaced by a value of another type is destroyed and loses its key. */
    method Set(ndx: nat, v: Mixed)
      requires Valid() && ndx < |composite| && Proper(v)
      modifies this
      ensures Valid() && Contents() == old(Contents())[ndx := v]
      ensures var was := old(Contents())[ndx];
              var destroy := !((v.Null? && was.Null?) || (v.Int? && was.Int?) || (v.Bool? && was.Bool?) ||
                               (v.Boxed? && was.Boxed? && v.kind == was.kind));
              && destroyed == old(destroyed) + (if destroy then Collection(old(Contents())[ndx]) else [])
              && Keys() == if destroy then old(Keys())[ndx := 0] else old(Keys())
    {
      hide Linked, WellTyped, Value;
      var oldType := KindOf(composite[ndx]);
      var destroy := TypeOf(v) != oldType;
      TypeAt(composite, Items(), ndx);
      SameType(v, Contents()[ndx]);
      SetValue(ndx, v, destroy);
      if destroy && keys.Some? && ndx < |keys.value| {
        keys := Some(keys.value[ndx := 0]);
      }
    }

    method EraseValue(ndx: nat)
      requires |pairs| % 2 == 0 && Linked(composite, Items(), |composite|, -1) && ndx < |composite|
      modifies this`composite, this`ints, this`pairs, this`strings, this`refs, this`destroyed
      ensures |pairs| % 2 == 0 && Linked(composite, Items(), |composite|, -1)
      ensures var all := old(Values(composite, Items()));
              && Values(composite, Items()) == all[..ndx] + all[ndx + 1..]
              && destroyed == old(destroyed) + Collection(all[ndx])
    {
      hide Linked, WellTyped, Value;
      ghost var all := Values(composite, Items());
      AllRead(composite, Items());
      EraseLinkedPayload(ndx, true, |composite|);
      Closed(composite, Items(), ndx);
      ghost var comp := composite;
      composite := composite[..ndx] + composite[ndx + 1..];
      forall i | 0 <= i < |composite|
        ensures Values(composite, Items())[i] == (all[..ndx] + all[ndx + 1..])[i]
      {
        assert Live(|comp|, ndx, Shifted(ndx, i));
      }
    }

    method Erase(ndx: nat)
      requires Valid() && ndx < |composite| && (keys.Some? ==> ndx < |keys.value|)
      modifies this
      ensures Valid() && Contents() == old(Contents())[..ndx] + old(Contents())[ndx + 1..]
      ensures Keys() == old(Keys())[..ndx] + old(Keys())[ndx + 1..]
      ensures destroyed == old(destroyed) + Collection(old(Contents())[ndx])
    {
      hide Linked, WellTyped, Value, KeysOf;
      EraseValue(ndx);
      KeyErased(keys, |old(composite)|, ndx);
      if keys.Some? {
        keys := Some(keys.value[..ndx] + keys.value[ndx + 1..]);
      }
    }

    /** Moves the values and keys from `ndx` on to the end of another array. The words are dropped
        only after all their items were taken out, so words already handled stay behind meanwhile. */
    method MoveTo(dst: ArrayMixed, ndx: nat)
      requires Valid() && dst.Valid() && dst != this && ndx <= |composite|
      requires keys.Some? ==> |keys.value| == |composite|
      modifies this, dst
      ensures Valid() && Contents() == old(Contents())[..ndx] && Keys() == old(Keys())[..ndx]
      ensures dst.Valid() && dst.Contents() == old(dst.Contents()) + old(Contents())[ndx..]
      ensures dst.Keys() == old(dst.Keys()) + old(Keys())[ndx..]
      ensures destroyed == old(destroyed) && dst.destroyed == old(dst.destroyed)
    {
      hide Linked, WellTyped, Value, KeysOf;
      var originalSize := |dst.composite|;
      CopyValues(dst, ndx);
      MoveKeys(dst, ndx, originalSize);
      DropFrom(ndx);
    }

    /** Adds the values from `ndx` on to another array. */
    method CopyValues(dst: ArrayMixed, ndx: nat)
      requires Valid() && dst.Valid() && dst != this && ndx <= |composite|
      modifies dst`composite, dst`ints, dst`pairs, dst`strings, dst`refs
      ensures dst.Valid() && dst.Contents() == old(dst.Contents()) + Contents()[ndx..]
      ensures dst.Keys() == old(dst.Keys()) + Zeros(|composite| - ndx)
      ensures |dst.composite| == |old(dst.composite)| + (|composite| - ndx)
    {
      hide Linked, WellTyped, Value, KeysOf;
      ghost var all := Contents();
      var sz := |composite|;
      var i := ndx;
      assert dst.Keys() == old(dst.Keys()) + Zeros(0);
      while i < sz
        invariant ndx <= i <= sz && dst.Valid()
        invariant dst.Contents() == old(dst.Contents()) + all[ndx..i]
        invariant dst.Keys() == old(dst.Keys()) + Zeros(i - ndx)
        invariant |dst.composite| == |old(dst.composite)| + (i - ndx)
      {
        var v := Get(i);
        ProperAt(composite, Items(), i);
        dst.Add(v);
        assert Zeros(i - ndx) + [0] == Zeros(i + 1 - ndx);
        i := i + 1;
      }
    }

    /** Sets the keys of the elements from `at` on in another array to those from `ndx` on here,
        and drops these. */
    method MoveKeys(dst: ArrayMixed, ndx: nat, at: nat)
      requires dst != this && ndx <= |composite| && (keys.Some? ==> |keys.value| == |composite|)
      requires dst.keys.Some? ==> |dst.keys.value| <= |dst.composite|
      requires |dst.composite| == at + (|composite| - ndx) && dst.Keys()[at..] == Zeros(|composite| - ndx)
      modifies this`keys, dst`keys
      ensures keys.Some? ==> |keys.value| <= ndx
      ensures KeysOf(keys, ndx) == old(Keys())[..ndx]
      ensures dst.keys.Some? ==> |dst.keys.value| <= |dst.composite|
      ensures dst.Keys() == old(dst.Keys())[..at] + old(Keys())[ndx..]
    {
      hide KeysOf;
      KeysBelow(keys, |composite|, ndx);
      if keys.Some? {
        dst.EnsureKeys();
        var i, j := ndx, at;
        while i < |composite|
          invariant ndx <= i <= |composite| && j == at + (i - ndx)
          invariant dst.keys.Some? && |dst.keys.value| <= |dst.composite| && keys == old(keys)
          invariant dst.Keys() == old(dst.Keys())[..at] + old(Keys())[ndx..i] + old(dst.Keys())[j..]
        {
          KeyIs(keys, |composite|, i);
          dst.SetKey(j, keys.value[i]);
          i, j := i + 1, j + 1;
        }
        keys := Some(keys.value[..ndx]);
      }
    }

    method DropFrom(ndx: nat)
      requires |pairs| % 2 == 0 && Linked(composite, Items(), |composite|, -1) && ndx <= |composite|
      modifies this`composite, this`ints, this`pairs, this`strings, this`refs, this`destroyed
      ensures |pairs| % 2 == 0 && Linked(composite, Items(), |composite|, -1) && |composite| == ndx
      ensures Values(composite, Items()) == old(Values(composite, Items()))[..ndx] && destroyed == old(destroyed)
    {
      hide Linked, WellTyped, Value;
      ghost var all := Values(composite, Items());
      var i := |composite|;
      AllRead(composite, Items());
      while i > ndx
        invariant ndx <= i <= |composite| == |old(composite)| && |pairs| % 2 == 0 && Linked(composite, Items(), i, -1)
        invariant destroyed == old(destroyed)
        invariant forall j :: 0 <= j < i ==>
                  WellTyped(composite[j], Items()) && Value(composite[j], Items()) == all[j]
      {
        i := i - 1;
        var n := i + 1;
        EraseLinkedPayload(i, false, n);
        assert forall j :: 0 <= j < i ==> Live(n, i, j);
        LastHole(composite, Items(), i);
      }
      Dropped(composite, Items(), ndx);
      composite := composite[..ndx];
    }
  }

  // ----- keys and collections -----

  /** The collection a word owns is named in the last payload array. */
  lemma WordCollection(c: int, p: Payload, refs: seq<nat>)
    requires WellTyped(c, p) && p[4] == Refs(refs) && forall k, d :: 1 <= k <= 3 && 0 <= d < |p[k]| ==> !p[k][d].Ref?
    ensures ArrayOf(c) == 4 ==> 0 <= DataOf(c) < |refs|
    ensures Collection(Value(c, p)) ==
            if ArrayOf(c) == 4 && refs[DataOf(c)] != 0 then [refs[DataOf(c)]] else []
  {
  }

  lemma KeyIs(keys: Option<seq<int>>, n: nat, i: nat)
    requires i < n
    ensures KeysOf(keys, n)[i] == KeyAt(keys, i)
  {
  }

  lemma KeysBelow(keys: Option<seq<int>>, n: nat, ndx: nat)
    requires ndx <= n && (keys.Some? ==> |keys.value| == n)
    ensures var keys' := if keys.Some? then Some(keys.value[..ndx]) else keys;
            KeysOf(keys', ndx) == KeysOf(keys, n)[..ndx]
    ensures keys.None? ==> KeysOf(keys, n)[ndx..] == Zeros(n - ndx)
  {
  }

  /** The key of an element; elements beyond the keys have key 0. */
  function KeyAt(keys: Option<seq<int>>, i: nat): (key: int) {
    if keys.Some? && i < |keys.value| then keys.value[i] else 0
  }

  ghost function KeysOf(keys: Option<seq<int>>, n: nat): (r: seq<int>)
    ensures |r| == n
  {
    seq(n, i requires 0 <= i < n => KeyAt(keys, i))
  }

  ghost function Zeros(n: nat): (r: seq<int>)
    ensures |r| == n
  {
    seq(n, _ => 0)
  }

  lemma KeyInserted(keys: Option<seq<int>>, n: nat, ndx: nat)
    requires ndx <= n && (keys.Some? ==> ndx <= |keys.value| <= n)
    ensures var keys' := if keys.Some? then Some(keys.value[..ndx] + [0] + keys.value[ndx..]) else keys;
            KeysOf(keys', n + 1) == KeysOf(keys, n)[..ndx] + [0] + KeysOf(keys, n)[ndx..]
  {
  }

  lemma KeyErased(keys: Option<seq<int>>, n: nat, ndx: nat)
    requires ndx < n && (keys.Some? ==> ndx < |keys.value| <= n)
    ensures var keys' := if keys.Some? then Some(keys.value[..ndx] + keys.value[ndx + 1..]) else keys;
            KeysOf(keys', n - 1) == KeysOf(keys, n)[..ndx] + KeysOf(keys, n)[ndx + 1..]
  {
  }

  /** A word without an item can be dropped from the live ones. */
  lemma Unowned(comp: seq<int>, p: Payload, n: nat, x: nat)
    requires Linked(comp, p, n, -1) && x < n && ArrayOf(comp[x]) == 0
    ensures Linked(comp, p, n, x)
    ensures forall i :: Live(n, x, i) ==> WellTyped(comp[i], p)
  {
    forall i | Live(n, x, i) ensures Live(n, -1, i) && WellTyped(comp[i], p) {
    }
    forall k, d | 1 <= k <= 4 && 0 <= d < |p[k]| ensures Owned(comp, n, x, k, d) {
      assert Owned(comp, n, -1, k, d);
      var i :| Live(n, -1, i) && Owns(comp[i], k, d);
      assert Live(n, x, i) && Owns(comp[i], k, d);
    }
  }

  lemma ValueInserted(comp: seq<int>, p: Payload, x: nat, v: Mixed, c: int, p': Payload)
    requires Linked(comp, p, |comp|, -1) && x <= |comp| && Proper(v) && StoredAs(v, c, p, p')
    ensures var comp' := comp[..x] + [c] + comp[x..];
            Linked(comp', p', |comp'|, -1) && Values(comp', p') == Values(comp, p)[..x] + [v] + Values(comp, p)[x..]
  {
    hide Linked, WellTyped, Value, StoredAs;
    var gap := comp[..x] + [0] + comp[x..];
    Opened(comp, p, x);
    Filled(gap, p, x, v, c, p');
    var comp' := comp[..x] + [c] + comp[x..];
    assert gap[x := c] == comp';
    var r := Values(comp, p)[..x] + [v] + Values(comp, p)[x..];
    forall i | 0 <= i < |comp'| ensures Values(comp', p')[i] == r[i] {
      if i != x {
        assert Live(|gap|, x, i);
      }
    }
  }

  lemma NullStored(p: Payload)
    ensures StoredAs(Null, 0, p, p)
  {
  }

  lemma NullRead(comp: seq<int>, p: Payload, x: nat)
    requires Linked(comp, p, |comp|, -1) && x < |comp| && comp[x] == 0
    ensures Values(comp, p)[x] == Null
  {
  }

  lemma ProperAt(comp: seq<int>, p: Payload, x: nat)
    requires Linked(comp, p, |comp|, -1) && x < |comp|
    ensures Proper(Values(comp, p)[x])
  {
  }

  lemma TypeAt(comp: seq<int>, p: Payload, x: nat)
    requires Linked(comp, p, |comp|, -1) && x < |comp|
    ensures TypeOf(Values(comp, p)[x]) == KindOf(comp[x]) && Proper(Values(comp, p)[x])
  {
    assert Live(|comp|, -1, x);
    TypeOfWord(comp[x], p);
  }

  lemma OneRead(comp: seq<int>, p: Payload, x: nat)
    requires Linked(comp, p, |comp|, -1) && x < |comp|
    ensures WellTyped(comp[x], p) && Value(comp[x], p) == Values(comp, p)[x]
  {
    assert Live(|comp|, -1, x);
  }

  lemma AllRead(comp: seq<int>, p: Payload)
    requires Linked(comp, p, |comp|, -1)
    ensures forall j :: 0 <= j < |comp| ==> WellTyped(comp[j], p) && Value(comp[j], p) == Values(comp, p)[j]
  {
    forall j | 0 <= j < |comp| ensures WellTyped(comp[j], p) {
      assert Live(|comp|, -1, j);
    }
  }

  /** A hole at the last live position makes one fewer live position. */
  lemma LastHole(comp: seq<int>, p: Payload, n: nat)
    requires Linked(comp, p, n + 1, n)
    ensures Linked(comp, p, n, -1)
    ensures forall j :: 0 <= j < n ==> WellTyped(comp[j], p)
  {
    var m := n + 1;
    forall i | Live(n, -1, i) ensures Live(m, n, i) {
    }
    forall j | 0 <= j < n ensures WellTyped(comp[j], p) {
      assert Live(m, n, j);
    }
    forall k, d | 1 <= k <= 4 && 0 <= d < |p[k]| ensures Owned(comp, n, -1, k, d) {
      assert Owned(comp, m, n, k, d);
      var i :| Live(m, n, i) && Owns(comp[i], k, d);
      assert Live(n, -1, i) && Owns(comp[i], k, d);
    }
  }
}
