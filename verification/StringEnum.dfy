/** Turning a column of strings into indices of its distinct strings.

    A column is given by the strings of its leaves, in order. The distinct
    strings are kept sorted, and each leaf is replaced by the positions of its
    strings among them.
 */
module StringEnum {
  import opened StringData
  import S = Strings

  ghost predicate InColumn(column: seq<seq<Str>>, v: Str) {
    exists k :: 0 <= k < |column| && v in column[k]
  }

  /** Puts `v` where `LowerBound` says it belongs. */
  lemma SortedInsert(s: seq<Str>, v: Str, pos: nat)
    requires Sorted(s) && pos <= |s| && (pos == |s| || s[pos] != v)
    requires forall j :: 0 <= j < pos ==> Less(s[j], v)
    requires forall j :: pos <= j < |s| ==> !Less(s[j], v)
    ensures Sorted(s[..pos] + [v] + s[pos..])
  {
    hide Less;
    forall j | pos <= j < |s| ensures Less(v, s[j]) {
      LessTotal(s[j], v);
    }
  }

  /** Adds the strings of one leaf. */
  method CollectLeaf(leaf: seq<Str>, keys: seq<Str>) returns (keys': seq<Str>)
    requires Sorted(keys)
    ensures Sorted(keys')
    ensures forall v :: v in keys' <==> v in keys || v in leaf
  {
    hide Less, Sorted;
    keys' := keys;
    var i := 0;
    while i < |leaf|
      invariant 0 <= i <= |leaf| && Sorted(keys')
      invariant forall v :: v in keys' <==> v in keys || v in leaf[..i]
    {
      var v := leaf[i];
      var pos := LowerBound(keys', v);
      if pos == |keys'| || keys'[pos] != v {
        SortedInsert(keys', v, pos);
        assert keys' == keys'[..pos] + keys'[pos..];
        keys' := keys'[..pos] + [v] + keys'[pos..];
      }
      assert leaf[..i + 1] == leaf[..i] + [v];
      i := i + 1;
    }
    assert leaf[..i] == leaf;
  }

  /** The distinct strings of a column, sorted. */
  method Collect(column: seq<seq<Str>>) returns (keys: seq<Str>)
    ensures Sorted(keys)
    ensures forall v :: v in keys <==> InColumn(column, v)
  {
    hide Less;
    keys := [];
    var k := 0;
    while k < |column|
      invariant 0 <= k <= |column| && Sorted(keys)
      invariant forall v :: v in keys <==> InColumn(column[..k], v)
    {
      hide Sorted;
      keys := CollectLeaf(column[k], keys);
      forall v ensures InColumn(column[..k + 1], v) <==> InColumn(column[..k], v) || v in column[k] {
        OneLeafMore(column, k, v);
      }
      k := k + 1;
    }
    assert column[..k] == column;
  }

  lemma OneLeafMore(column: seq<seq<Str>>, k: nat, v: Str)
    requires k < |column|
    ensures InColumn(column[..k + 1], v) <==> InColumn(column[..k], v) || v in column[k]
  {
    var cs, ds := column[..k + 1], column[..k];
    if InColumn(ds, v) {
      var i :| 0 <= i < |ds| && v in ds[i];
      assert v in cs[i];
    }
    if v in column[k] {
      assert v in cs[k];
    }
    if InColumn(cs, v) {
      var i :| 0 <= i < |cs| && v in cs[i];
      assert i < k ==> v in ds[i];
    }
  }

  /** `v` is not greater than all keys. */
  predicate Within(keys: seq<Str>, v: Str) {
    |keys| > 0 && !Less(keys[|keys| - 1], v)
  }

  lemma WithinAt(keys: seq<Str>, v: Str, pos: nat)
    requires Sorted(keys) && pos <= |keys|
    requires forall j :: 0 <= j < pos ==> Less(keys[j], v)
    requires pos < |keys| ==> !Less(keys[pos], v)
    ensures pos < |keys| <==> Within(keys, v)
  {
    hide Less;
    if pos < |keys| {
      Halves(keys, v, pos);
    }
  }

  /** The positions of the strings of a leaf; `ok` reports the assertions that none lies past the end. */
  method Upgrade(values: seq<Str>, keys: seq<Str>) returns (ok: bool, indices: seq<nat>)
    requires Sorted(keys)
    ensures ok <==> forall i :: 0 <= i < |values| ==> Within(keys, values[i])
    ensures (forall v :: v in values ==> v in keys) ==> ok
    ensures ok ==> |indices| == |values| && forall i :: 0 <= i < |indices| ==> indices[i] < |keys|
    ensures ok ==> forall i :: 0 <= i < |values| && values[i] in keys ==> keys[indices[i]] == values[i]
  {
    hide Less, Sorted, Within;
    indices := [];
    var i := 0;
    while i < |values|
      invariant 0 <= i <= |values| && |indices| == i
      invariant forall j :: 0 <= j < i ==> Within(keys, values[j])
      invariant forall j :: 0 <= j < i ==> indices[j] < |keys|
      invariant forall j :: 0 <= j < i && values[j] in keys ==> keys[indices[j]] == values[j]
    {
      var pos := LowerBound(keys, values[i]);
      WithinAt(keys, values[i], pos);
      if pos == |keys| {
        assert values[i] in values && !Within(keys, values[i]);
        return false, indices;
      }
      indices := indices + [pos];
      i := i + 1;
    }
    ok := true;
  }

  /** Every leaf is turned into indices that stand for the same strings. */
  method EnumerateColumn(column: seq<seq<Str>>) returns (keys: seq<Str>, enums: seq<seq<nat>>)
    ensures Sorted(keys) && forall v :: v in keys <==> InColumn(column, v)
    ensures |enums| == |column|
    ensures forall k :: 0 <= k < |column| ==> StandsFor(enums[k], keys, column[k])
  {
    hide Less, Sorted, StandsFor;
    keys := Collect(column);
    enums := [];
    while |enums| < |column|
      invariant |enums| <= |column|
      invariant forall k :: 0 <= k < |enums| ==> StandsFor(enums[k], keys, column[k])
    {
      var leaf := column[|enums|];
      forall v | v in leaf ensures v in keys {
        assert InColumn(column, v);
      }
      var ok, indices := Upgrade(leaf, keys);
      SameStrings(indices, keys, leaf);
      enums := enums + [indices];
    }
  }

  ghost predicate StandsFor(indices: seq<nat>, keys: seq<Str>, values: seq<Str>) {
    |indices| == |values| && forall i :: 0 <= i < |values| ==> indices[i] < |keys| && keys[indices[i]] == values[i]
  }

  lemma SameStrings(indices: seq<nat>, keys: seq<Str>, values: seq<Str>)
    requires |indices| == |values| && forall i :: 0 <= i < |indices| ==> indices[i] < |keys|
    requires forall i :: 0 <= i < |values| ==> values[i] in keys
    requires forall i :: 0 <= i < |values| && values[i] in keys ==> keys[indices[i]] == values[i]
    ensures StandsFor(indices, keys, values)
  {
  }

  /** Indices compare as the strings they stand for, across all leaves of the column. */
  lemma IndexOrder(keys: seq<Str>, a: seq<nat>, va: seq<Str>, b: seq<nat>, vb: seq<Str>, i: nat, j: nat)
    requires Sorted(keys) && StandsFor(a, keys, va) && StandsFor(b, keys, vb) && i < |a| && j < |b|
    ensures a[i] < b[j] <==> Less(va[i], vb[j])
    ensures a[i] == b[j] <==> va[i] == vb[j]
  {
    hide Less;
    LessTotal(va[i], vb[j]);
    assert a[i] < b[j] ==> Less(keys[a[i]], keys[b[j]]);
    assert b[j] < a[i] ==> Less(keys[b[j]], keys[a[i]]);
  }

  /** The strings of a leaf, one by one. */
  method ReadLeaf(leaf: S.ArrayString) returns (values: seq<Str>)
    requires leaf.Valid()
    ensures values == leaf.Contents()
  {
    hide S.MediumOk, S.MediumStrings, S.BigOk, S.BigStrings, S.Looked;
    values := [];
    var n := leaf.Size();
    while |values| < n
      invariant |values| <= n && values == leaf.Contents()[..|values|]
    {
      var v := leaf.Get(|values|);
      values := values + [v];
    }
    assert leaf.Contents()[..n] == leaf.Contents();
  }

  /** The enumerated leaf reads as the leaf it replaces. */
  method EnumerateLeaf(leaf: S.ArrayString, keys: seq<Str>) returns (enum: S.ArrayString)
    requires leaf.Valid() && leaf.kind != S.Enum && Sorted(keys)
    requires forall i :: 0 <= i < |leaf.Contents()| ==> leaf.Contents()[i] in keys
    ensures fresh(enum) && enum.Valid() && enum.kind == S.Enum && enum.keys == keys
    ensures enum.Contents() == leaf.Contents()
  {
    hide Less, Sorted, Within, S.MediumOk, S.MediumStrings, S.BigOk, S.BigStrings, S.Looked;
    var values := ReadLeaf(leaf);
    var ok, indices := Upgrade(values, keys);
    enum := new S.ArrayString.Enumerated(leaf.nullable, indices, keys);
    assert enum.Contents() == values;
  }
}
