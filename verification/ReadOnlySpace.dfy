/** Space freed in the read-only part of the file.

    `m_free_read_only` maps the ref of each freed run to its length.  Freeing a
    chunk merges it with the run that starts where it ends and with the run that
    ends where it starts.  The map therefore always holds the maximal runs of
    freed bytes, and so is determined by which bytes were freed.
 */
module ReadOnlySpace {
  import opened Options

  type Chunks = map<int, int>

  /** Non-empty runs, no two of which touch. */
  ghost predicate Runs(m: Chunks) {
    && (forall k :: k in m ==> m[k] > 0)
    && (forall j, k :: j in m && k in m && j < k ==> j + m[j] < k)
  }

  ghost predicate Holds(m: Chunks, k: int, b: int) {
    k in m && k <= b < k + m[k]
  }

  /** Byte `b` is free. */
  ghost predicate Covers(m: Chunks, b: int) {
    exists k :: Holds(m, k, b)
  }

  ghost predicate Untouched(m: Chunks, ref: int, size: int) {
    forall b :: ref <= b < ref + size ==> !Covers(m, b)
  }

  lemma HasMember(s: set<int>)
    ensures |s| > 0 ==> exists k :: k in s
  {
    assert (forall k :: k !in s) ==> s == {};
  }

  /** `std::map::lower_bound`: the least key that is at least `x`. */
  method LowerBound(keys: set<int>, x: int) returns (r: Option<int>)
    ensures r.Some? ==> r.value in keys && x <= r.value
    ensures forall k :: k in keys && x <= k ==> r.Some? && r.value <= k
  {
    r := None;
    var left := keys;
    while |left| > 0
      invariant left <= keys
      invariant r.Some? ==> r.value in keys && x <= r.value
      invariant forall k :: k in keys && k !in left && x <= k ==> r.Some? && r.value <= k
      decreases left
    {
      HasMember(left);
      var k :| k in left;
      left := left - {k};
      if x <= k && (r.None? || k < r.value) {
        r := Some(k);
      }
    }
  }

  /** The element before `lower_bound(x)`, if that is not the first one. */
  method Before(keys: set<int>, x: int) returns (r: Option<int>)
    ensures r.Some? ==> r.value in keys && r.value < x
    ensures forall k :: k in keys && k < x ==> r.Some? && k <= r.value
  {
    r := None;
    var left := keys;
    while |left| > 0
      invariant left <= keys
      invariant r.Some? ==> r.value in keys && r.value < x
      invariant forall k :: k in keys && k !in left && k < x ==> r.Some? && k <= r.value
      decreases left
    {
      HasMember(left);
      var k :| k in left;
      left := left - {k};
      if k < x && (r.None? || r.value < k) {
        r := Some(k);
      }
    }
  }

  /** Frees one chunk.  The source asserts that the ref is not null and a multiple of eight, that the
      chunk ends no later than the next run starts and that it starts no earlier than the previous
      run ends; `ok` reports those assertions. */
  method FreeChunk(m: Chunks, ref: int, size0: int) returns (ok: bool, m': Chunks)
    requires Runs(m) && 0 < size0
    ensures ok <==> ref != 0 && ref % 8 == 0 && Untouched(m, ref, size0)
    ensures ok ==> Runs(m') && forall b :: Covers(m', b) <==> Covers(m, b) || ref <= b < ref + size0
  {
    m' := m;
    if ref == 0 || ref % 8 != 0 {
      return false, m';
    }
    var size := size0;
    var next := LowerBound(m.Keys, ref);
    if next.Some? {
      if ref + size > next.value {
        assert Holds(m, next.value, next.value) && Covers(m, next.value);
        return false, m';
      }
      if ref + size == next.value {
        size := size + m[next.value];
        m' := m - {next.value};
        RunRemoved(m, next.value);
      }
    }
    assert forall k :: k in m' && ref <= k ==> ref + size < k;
    assert forall b :: Covers(m, b) || ref <= b < ref + size0 <==> Covers(m', b) || ref <= b < ref + size;
    var prev := Before(m'.Keys, ref);
    if prev.Some? && prev.value + m'[prev.value] > ref {
      assert Holds(m, prev.value, ref) && Covers(m, ref);
      return false, m';
    }
    ClearOf(m', ref, size, prev);
    ghost var mid := m';
    if prev.Some? && prev.value + m'[prev.value] == ref {
      m' := m'[prev.value := m'[prev.value] + size];
      RunExtended(mid, prev.value, size, m');
    } else {
      m' := m'[ref := size];
      RunAdded(mid, ref, size, m');
    }
    ok := true;
  }

  /** Every run ends before the chunk or starts after it. */
  ghost predicate Clear(m: Chunks, ref: int, size: int) {
    forall k :: k in m ==> k + m[k] <= ref || ref + size < k
  }

  lemma ClearOf(m: Chunks, ref: int, size: int, prev: Option<int>)
    requires Runs(m) && 0 < size
    requires forall k :: k in m && ref <= k ==> ref + size < k
    requires prev.Some? ==> prev.value in m && prev.value + m[prev.value] <= ref
    requires forall k :: k in m && k < ref ==> prev.Some? && k <= prev.value
    ensures Clear(m, ref, size) && Untouched(m, ref, size)
  {
  }

  lemma RunRemoved(m: Chunks, k: int)
    requires Runs(m) && k in m
    ensures Runs(m - {k})
    ensures forall b :: Covers(m, b) <==> Covers(m - {k}, b) || k <= b < k + m[k]
  {
    forall b ensures Covers(m, b) <==> Covers(m - {k}, b) || Holds(m, k, b) {
      if Covers(m, b) {
        var j :| Holds(m, j, b);
        assert j != k ==> Holds(m - {k}, j, b);
      }
      if Covers(m - {k}, b) {
        var j :| Holds(m - {k}, j, b);
        assert Holds(m, j, b);
      }
    }
  }

  lemma RunAdded(m: Chunks, ref: int, size: int, m': Chunks)
    requires Runs(m) && 0 < size && Clear(m, ref, size)
    requires forall k :: k in m && k < ref ==> k + m[k] < ref
    requires m' == m[ref := size]
    ensures Runs(m')
    ensures forall b :: Covers(m', b) <==> Covers(m, b) || ref <= b < ref + size
  {
    assert ref !in m;
    assert m' - {ref} == m;
    RunRemoved(m', ref);
  }

  lemma RunExtended(m: Chunks, p: int, size: int, m': Chunks)
    requires Runs(m) && 0 < size && p in m && Clear(m, p + m[p], size)
    requires m' == m[p := m[p] + size]
    ensures Runs(m')
    ensures forall b :: Covers(m', b) <==> Covers(m, b) || p + m[p] <= b < p + m[p] + size
  {
    assert m' - {p} == m - {p};
    RunRemoved(m, p);
    RunRemoved(m', p);
  }

  /** Maximal runs are determined by the bytes they cover. */
  lemma RunsUnique(m: Chunks, m': Chunks)
    requires Runs(m) && Runs(m')
    requires forall b :: Covers(m, b) <==> Covers(m', b)
    ensures m == m'
  {
    forall k | k in m ensures k in m' && m'[k] == m[k] {
      RunUnique(m, m', k);
    }
    forall k | k in m' ensures k in m {
      RunUnique(m', m, k);
    }
  }

  lemma RunUnique(m: Chunks, m': Chunks, k: int)
    requires Runs(m) && Runs(m') && k in m
    requires forall b :: Covers(m, b) <==> Covers(m', b)
    ensures k in m' && m'[k] == m[k]
  {
    assert Holds(m, k, k) && Covers(m, k);
    var j :| Holds(m', j, k);
    NotCovered(m, k);
    assert !Covers(m', k - 1);
    assert j < k ==> Holds(m', j, k - 1);
    assert j == k;
    var e, e' := k + m[k], k + m'[k];
    NotCovered(m', k);
    assert Holds(m, k, e - 1) && Holds(m', k, e' - 1);
    assert !Covers(m, e) && !Covers(m', e');
    assert e < e' ==> Holds(m', k, e);
    assert e' < e ==> Holds(m, k, e');
  }

  /** The bytes just outside a run are not free. */
  lemma NotCovered(m: Chunks, k: int)
    requires Runs(m) && k in m
    ensures !Covers(m, k - 1) && !Covers(m, k + m[k])
  {
  }

  /** Freeing chunks one after the other. */
  method FreeAll(chunks: seq<(int, int)>) returns (ok: bool, m: Chunks)
    requires forall i :: 0 <= i < |chunks| ==> 0 < chunks[i].1
    ensures ok <==> ProperChunks(chunks) && DisjointChunks(chunks)
    ensures ok ==> Runs(m) && forall b :: Covers(m, b) <==> InSome(chunks, b)
  {
    m := map[];
    ok := true;
    var i := 0;
    while i < |chunks|
      invariant 0 <= i <= |chunks| && ok
      invariant ProperChunks(chunks[..i]) && DisjointChunks(chunks[..i])
      invariant Runs(m) && forall b :: Covers(m, b) <==> InSome(chunks[..i], b)
    {
      ghost var m0 := m;
      ok, m := FreeChunk(m, chunks[i].0, chunks[i].1);
      AppendChunk(chunks, i);
      if !ok {
        return;
      }
      i := i + 1;
    }
    assert chunks[..i] == chunks;
  }

  ghost predicate In(chunk: (int, int), b: int) {
    chunk.0 <= b < chunk.0 + chunk.1
  }

  ghost predicate InSome(chunks: seq<(int, int)>, b: int) {
    exists i :: 0 <= i < |chunks| && In(chunks[i], b)
  }

  ghost predicate ProperChunks(chunks: seq<(int, int)>) {
    forall i :: 0 <= i < |chunks| ==> chunks[i].0 != 0 && chunks[i].0 % 8 == 0
  }

  ghost predicate DisjointChunks(chunks: seq<(int, int)>) {
    forall i, j, b :: 0 <= i < j < |chunks| && In(chunks[i], b) ==> !In(chunks[j], b)
  }

  lemma AppendChunk(chunks: seq<(int, int)>, n: nat)
    requires n < |chunks| && DisjointChunks(chunks[..n])
    ensures forall b :: InSome(chunks[..n + 1], b) <==> InSome(chunks[..n], b) || In(chunks[n], b)
    ensures DisjointChunks(chunks[..n + 1]) <==> forall b :: In(chunks[n], b) ==> !InSome(chunks[..n], b)
    ensures !DisjointChunks(chunks[..n + 1]) ==> !DisjointChunks(chunks)
  {
    var cs, ds := chunks[..n + 1], chunks[..n];
    forall b ensures InSome(cs, b) <==> InSome(ds, b) || In(chunks[n], b) {
      if InSome(ds, b) {
        var i :| 0 <= i < |ds| && In(ds[i], b);
        assert In(cs[i], b);
      }
      if In(chunks[n], b) {
        assert In(cs[n], b);
      }
      if InSome(cs, b) {
        var i :| 0 <= i < |cs| && In(cs[i], b);
        assert i < n ==> In(ds[i], b);
      }
    }
    if forall b :: In(chunks[n], b) ==> !InSome(ds, b) {
      forall i, j, b | 0 <= i < j < |cs| && In(cs[i], b) ensures !In(cs[j], b) {
        assert In(ds[i], b);
        assert j < n ==> ds[j] == cs[j];
      }
    } else {
      var b :| In(chunks[n], b) && InSome(ds, b);
      var i :| 0 <= i < |ds| && In(ds[i], b);
      assert In(cs[i], b) && In(cs[n], b) && In(chunks[i], b);
    }
  }

  /** Any order of freeing the same bytes gives the same map. */
  lemma OrderIrrelevant(chunks: seq<(int, int)>, chunks': seq<(int, int)>, m: Chunks, m': Chunks)
    requires multiset(chunks) == multiset(chunks')
    requires Runs(m) && forall b :: Covers(m, b) <==> InSome(chunks, b)
    requires Runs(m') && forall b :: Covers(m', b) <==> InSome(chunks', b)
    ensures m == m'
  {
    forall b ensures Covers(m, b) <==> Covers(m', b) {
      if InSome(chunks, b) {
        SameBytes(chunks, chunks', b);
      }
      if InSome(chunks', b) {
        SameBytes(chunks', chunks, b);
      }
    }
    RunsUnique(m, m');
  }

  lemma SameBytes(chunks: seq<(int, int)>, chunks': seq<(int, int)>, b: int)
    requires multiset(chunks) == multiset(chunks') && InSome(chunks, b)
    ensures InSome(chunks', b)
  {
    var i :| 0 <= i < |chunks| && In(chunks[i], b);
    assert chunks[i] in multiset(chunks);
    assert chunks[i] in chunks';
  }
}
