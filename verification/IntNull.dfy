/** Optional integers in a packed array.

    Slot 0 holds the value that stands for null. Below width 64 it is the upper
    bound of the width; at width 64 it is any value that is not stored. Storing a
    value that would be read as null first moves the nulls to another value.
 */
module IntNull {
  import opened Options
  import opened Bits
  import opened DirectAccess
  import opened Find
  import opened FindOptimized
  import P = PackedArray

  const INT32_MAX := 0x7fff_ffff
  const STEP := 0xffff_fffb

  // ----- what the slots mean -----

  /** The optional integers that the slots after the first stand for. */
  ghost function View(c: seq<int>): (r: seq<Option<int>>)
    requires |c| > 0
    ensures |r| == |c| - 1
  {
    seq(|c| - 1, i requires 0 <= i < |c| - 1 => Read(c, i))
  }

  ghost function Read(c: seq<int>, i: nat): (r: Option<int>)
    requires i + 1 < |c|
  {
    if c[i + 1] == c[0] then None else Some(c[i + 1])
  }

  /** Below width 64 the null is the upper bound of the width. */
  ghost predicate Sentinel(w: Width, c: seq<int>) {
    |c| > 0 && (w < 64 ==> c[0] == UpperBound(w))
  }

  /** The slots after every null was replaced. */
  ghost function Replaced(c: seq<int>, null': int): (r: seq<int>)
    requires |c| > 0
    ensures |r| == |c|
  {
    seq(|c|, i requires 0 <= i < |c| => if c[i] == c[0] then null' else c[i])
  }

  /** Moving the nulls to a value that is not stored changes no optional integer. */
  lemma ReplacedView(c: seq<int>, null': int)
    requires |c| > 0 && (null' == c[0] || null' !in c)
    ensures View(Replaced(c, null')) == View(c)
  {
    forall i | 0 <= i < |c| - 1 ensures Read(Replaced(c, null'), i) == Read(c, i) {
    }
  }

  // ----- choosing a null at width 64 -----

  /** A number as an int64_t. */
  function Wrapped(x: int): (r: int)
    ensures Int64(r)
  {
    var m := x % WORD64;
    if m < WORD64 / 2 then m else m - WORD64
  }

  function Candidate(seed: int, k: nat): (r: int)
    ensures Int64(r)
  {
    Wrapped(seed + k * STEP)
  }

  lemma NextCandidate(seed: int, k: nat)
    requires Int64(seed)
    ensures Candidate(seed, k + 1) == Wrapped(Candidate(seed, k) + STEP)
  {
    var x, y := seed + k * STEP, seed + (k + 1) * STEP;
    assert y == x + STEP;
    var m := x % WORD64;
    assert (x + STEP) % WORD64 == (m + STEP) % WORD64;
  }

  /** No two of the first 2^25 candidates are the same. */
  lemma CandidatesDiffer(seed: int, j: nat, k: nat)
    requires j < k <= 0x200_0000
    ensures Candidate(seed, j) != Candidate(seed, k)
  {
    var x, d := seed + j * STEP, (k - j) * STEP;
    assert seed + k * STEP == x + d;
    assert 0 < d < WORD64;
    Apart(x, d);
  }

  lemma Apart(x: int, d: int)
    requires 0 < d < WORD64
    ensures Wrapped(x) != Wrapped(x + d)
  {
    var a, b := x / WORD64, (x + d) / WORD64;
    if Wrapped(x) == Wrapped(x + d) {
      assert d == WORD64 * (b - a);
      MulSmall(WORD64, b - a);
    }
  }

  /** All of `tried` are among the first `k` candidates. */
  ghost predicate Tried(tried: set<int>, seed: int, k: nat) {
    forall x :: x in tried ==> exists j: nat :: 1 <= j <= k && x == Candidate(seed, j)
  }

  lemma NewCandidate(tried: set<int>, seed: int, k: nat)
    requires 1 <= k <= 0x200_0000 && Tried(tried, seed, k - 1)
    ensures Candidate(seed, k) !in tried && Tried(tried + {Candidate(seed, k)}, seed, k)
  {
    hide Candidate;
    forall x | x in tried ensures x != Candidate(seed, k) {
      var j: nat :| 1 <= j <= k - 1 && x == Candidate(seed, j);
      CandidatesDiffer(seed, j, k);
    }
  }

  /** A candidate is refused when it is the incoming value or is stored as an ordinary value. */
  predicate Usable(c: seq<int>, incoming: int, x: int)
    requires |c| > 0
  {
    x != incoming && (x == c[0] || x !in c)
  }

  ghost predicate Refused(seed: int, incoming: int, c: seq<int>, k: nat)
    requires |c| > 0
  {
    forall j: nat :: 1 <= j < k ==> !Usable(c, incoming, Candidate(seed, j))
  }

  /** The first `k` candidates were refused, and are the `k` values in `tried`. */
  ghost predicate Failed(seed: int, incoming: int, c: seq<int>, k: nat, tried: set<int>)
    requires |c| > 0
  {
    && Refused(seed, incoming, c, k + 1) && Tried(tried, seed, k)
    && |tried| == k && tried <= {incoming} + Members(c[1..])
  }

  lemma NoneFailed(seed: int, incoming: int, c: seq<int>)
    requires |c| > 0
    ensures Failed(seed, incoming, c, 0, {})
  {
  }

  lemma FewFailed(seed: int, incoming: int, c: seq<int>, k: nat, tried: set<int>)
    requires |c| > 0 && Failed(seed, incoming, c, k, tried)
    ensures k <= |c| && Refused(seed, incoming, c, k + 1)
  {
    hide Refused, Tried;
    FewMembers(c[1..]);
    Subset(tried, {incoming} + Members(c[1..]));
  }

  lemma OneMoreFailed(seed: int, incoming: int, c: seq<int>, k: nat, tried: set<int>)
    requires |c| > 0 && 1 <= k <= 0x200_0000 && Failed(seed, incoming, c, k - 1, tried)
    requires !Usable(c, incoming, Candidate(seed, k))
    ensures Failed(seed, incoming, c, k, tried + {Candidate(seed, k)})
    ensures k <= |c|
  {
    hide Candidate;
    NewCandidate(tried, seed, k);
    hide Tried;
    var tried' := tried + {Candidate(seed, k)};
    assert Refused(seed, incoming, c, k + 1);
    hide Refused;
    assert Candidate(seed, k) in {incoming} + Members(c[1..]);
    FewFailed(seed, incoming, c, k, tried');
  }

  lemma UsableHere(c: seq<int>, incoming: int, x: int)
    requires |c| > 0
    ensures Usable(c, incoming, x) <==> x != incoming && (x == c[0] || x !in c)
  {
  }

  /** The number of the first usable candidate from the `k`-th on; candidate `|c| + 1` is the
      last that can be needed. */
  function FirstFree(seed: int, incoming: int, c: seq<int>, k: nat): (r: nat)
    requires 1 <= k <= |c| + 1 && |c| > 0
    decreases |c| - k
  {
    if k > |c| || Usable(c, incoming, Candidate(seed, k)) then k else FirstFree(seed, incoming, c, k + 1)
  }

  lemma {:induction false} FirstFreeFound(seed: int, incoming: int, c: seq<int>, i: nat, k: nat)
    requires |c| > 0 && 1 <= i <= k <= |c| + 1
    requires Refused(seed, incoming, c, k) && Usable(c, incoming, Candidate(seed, k))
    ensures FirstFree(seed, incoming, c, i) == k
    decreases k - i
  {
    hide Usable, Candidate;
    if i < k {
      FirstFreeFound(seed, incoming, c, i + 1, k);
    }
  }

  /** The null that a seed, the incoming value and the slots lead to. */
  function FirstNull(seed: int, incoming: int, c: seq<int>): (r: int)
    requires |c| > 0
    ensures Int64(r)
  {
    Candidate(seed, FirstFree(seed, incoming, c, 1))
  }

  /** Where a stack variable can lie. */
  predicate UserAddress(x: int) {
    0 <= x < 0x4000_0000_0000_0000
  }

  predicate UserAddresses(seeds: seq<int>) {
    forall i :: 0 <= i < |seeds| ==> UserAddress(seeds[i])
  }

  /** From an address in user space, no candidate within reach fits 32 bits. */
  lemma CandidateNeeds64(seed: int, k: nat)
    requires UserAddress(seed) && 1 <= k <= 0x200_0000
    ensures !Fits(32, Candidate(seed, k))
  {
    Powers();
    hide Pow2;
    var x := seed + k * STEP;
    assert STEP <= x < WORD64 / 2;
  }

  ghost function Members(c: seq<int>): (r: set<int>) {
    set x | x in c
  }

  lemma {:induction false} FewMembers(c: seq<int>)
    ensures |Members(c)| <= |c|
  {
    if |c| > 0 {
      FewMembers(c[1..]);
      assert Members(c) == Members(c[1..]) + {c[0]};
    }
  }

  lemma Subset(a: set<int>, b: set<int>)
    requires a <= b
    ensures |a| <= |b|
  {
    assert b == a + (b - a);
  }

  // ----- searching the slots -----

  /** A scan that may report one element finds the first, if any. */
  lemma {:induction false} ScanFirst(sel: seq<bool>, lo: nat, hi: nat)
    requires lo <= hi <= |sel|
    ensures var r := Scan([], 1, sel, lo, hi, 0);
            if r.1 then r.0 == [] && (forall i :: lo <= i < hi ==> !sel[i])
            else |r.0| == 1 && lo <= r.0[0] < hi && sel[r.0[0]] && (forall i :: lo <= i < r.0[0] ==> !sel[i])
    decreases hi - lo
  {
    if lo < hi && !sel[lo] {
      ScanFirst(sel, lo + 1, hi);
    }
  }

  method FindFirst(arr: P.Array, value: int, start: nat) returns (r: nat)
    requires arr.Valid() && start <= arr.size
    ensures start <= r <= arr.size
    ensures r < arr.size ==> arr.Contents()[r] == value
    ensures forall i :: start <= i < r ==> arr.Contents()[i] != value
  {
    hide Holds, Elements;
    ghost var s := arr.Contents();
    var st := new QueryState(1, map i | 0 <= i < |s| :: s[i]);
    var go := Optimized(Equal, arr.data[..], arr.width, arr.size, value, start, NPOS, 0, st);
    ScanFirst(Selection(Equal, value, arr.Contents()), start, arr.size);
    assert forall i :: 0 <= i < arr.size ==> Selection(Equal, value, arr.Contents())[i] == (arr.Contents()[i] == value);
    r := if go then arr.size else st.found[0];
  }

  // ----- the width that holds a value and leaves room for the null -----

  /** Whether a value below width 64 makes the array wider first. */
  predicate Collides(w: Width, value: int) {
    value < LowerBound(w) || value >= UpperBound(w)
  }

  /** The width chosen for it: one more step when the value is the null of its own width. */
  function Roomy(value: int): (r: Width)
    requires Int64(value)
  {
    var w := BitWidth(value);
    if w < 64 && value == UpperBound(w) then (if w == 0 then 1 else 2 * w) else w
  }

  lemma RoomyFits(w: Width, value: int)
    requires Int64(value) && w < 64 && Collides(w, value)
    ensures w < Roomy(value) && Fits(Roomy(value), value)
    ensures Roomy(value) < 64 ==> !Collides(Roomy(value), value)
    ensures Roomy(value) == 64 ==> value == INT32_MAX || !Fits(32, value)
  {
    BitWidthLeast(value, w);
    BitWidthLeast(value, 32);
    BitWidthLeast(value, BitWidth(value));
    BitWidthLeast(value, Roomy(value));
    Powers();
    hide Pow2, BitWidth;
  }

  /** No narrower width holds the value and leaves its upper bound free. */
  lemma RoomyLeast(w: Width, value: int)
    requires Int64(value) && LowerBound(w) <= value < UpperBound(w)
    ensures Roomy(value) <= w
  {
    BitWidthLeast(value, w);
    Powers();
    hide Pow2;
  }

  /** A value that is stored as it is although it is the null: below width 64, inside the bounds. */
  ghost predicate Lost(w: Width, c: seq<int>, value: int) {
    |c| > 0 && w < 64 && !Collides(w, value) && value == c[0]
  }

  /** What an element reads as after it was stored. */
  ghost function Taken(w: Width, c: seq<int>, value: Option<int>): (r: Option<int>) {
    if value.Some? && Lost(w, c, value.value) then None else value
  }

  /** With the upper bound of the width as null nothing is lost. */
  lemma NothingLost(w: Width, c: seq<int>, value: Option<int>)
    ensures Sentinel(w, c) ==> Taken(w, c, value) == value
  {
  }

  lemma TopCollides(w: Width)
    ensures w < 64 ==> Collides(w, INT32_MAX) && Roomy(INT32_MAX) == 64
  {
    Powers();
    hide Pow2;
  }

  predicate KeptBy(w: Width, value: int, null': int) {
    !(w < 64 && value == INT32_MAX && Fits(32, null'))
  }

  /** When the null is again the upper bound after `value` was stored: unless INT32_MAX
      makes the array look for a null that needs 64 bits and the first free candidate does not. */
  predicate Kept(w: Width, value: int, seed: int, c: seq<int>)
    requires |c| > 0
  {
    KeptBy(w, value, FirstNull(seed, value, c))
  }

  lemma StoredSentinel(w: Width, null': int, value: int)
    requires Int64(null') && Int64(value) && null' != value && (w == 64 || value == INT32_MAX || !Fits(32, value))
    ensures var w' := P.Widened(P.Widened(w, null'), value);
            (w' == 64 || null' == UpperBound(w')) <==> KeptBy(w, value, null')
  {
    BitWidthLeast(null', w);
    BitWidthLeast(null', 32);
    BitWidthLeast(null', BitWidth(null'));
    BitWidthLeast(value, 32);
    BitWidthLeast(value, P.Widened(w, null'));
    Powers();
    assert BitWidth(INT32_MAX) == 32 && UpperBound(32) == INT32_MAX;
    hide Pow2, BitWidth, Fits, UpperBound;
  }

  /** With the null lying inside the bounds, the value equal to it is stored unchanged and reads back as null. */
  lemma InnerNullCollides(w: Width, c: seq<int>, ndx: nat)
    requires w < 64 && |c| > 0 && Fits(w, c[0]) && !Sentinel(w, c) && ndx < |c|
    ensures !Collides(w, c[0])
    ensures View(c[..ndx + 1] + [c[0]] + c[ndx + 1..])[ndx] == None
  {
    var c' := c[..ndx + 1] + [c[0]] + c[ndx + 1..];
    assert c'[0] == c[0] && c'[ndx + 1] == c[0];
  }

  /** `Kept` can fail, though not for a `UserAddress`: with a seed in the upper half of the address
      space whose first candidate is 5, an empty array of width 8 takes 5 as its null when INT32_MAX
      is stored, and a later 5 reads back as null. */
  lemma NarrowNullExample()
    ensures Int64(5 - STEP) && !UserAddress(5 - STEP) && FirstNull(5 - STEP, INT32_MAX, [127]) == 5
    ensures Sentinel(8, [127]) && !Kept(8, INT32_MAX, 5 - STEP, [127])
    ensures P.Widened(8, INT32_MAX) == 32 && !Sentinel(32, [5, INT32_MAX])
    ensures !Collides(32, 5) && View([5, INT32_MAX, 5]) == [Some(INT32_MAX), None]
  {
    Powers();
    hide Pow2;
    assert Wrapped(5) == 5;
    assert Candidate(5 - STEP, 1) == Wrapped(5);
    assert Usable([127], INT32_MAX, 5);
  }

  lemma ViewInserted(c: seq<int>, ndx: nat, v: int)
    requires |c| > 0 && ndx < |c|
    ensures View(c[..ndx + 1] + [v] + c[ndx + 1..]) ==
            View(c)[..ndx] + [if v == c[0] then None else Some(v)] + View(c)[ndx..]
  {
    var c' := c[..ndx + 1] + [v] + c[ndx + 1..];
    var r := View(c)[..ndx] + [if v == c[0] then None else Some(v)] + View(c)[ndx..];
    assert c'[0] == c[0];
    forall i | 0 <= i < |c| ensures View(c')[i] == r[i] {
      assert c'[i + 1] == if i < ndx then c[i + 1] else if i == ndx then v else c[i];
    }
  }

  lemma ViewUpdated(c: seq<int>, ndx: nat, v: int)
    requires ndx + 1 < |c|
    ensures View(c[ndx + 1 := v]) == View(c)[ndx := if v == c[0] then None else Some(v)]
  {
  }

  lemma ViewErased(c: seq<int>, begin: nat, end: nat)
    requires begin <= end < |c|
    ensures View(c[..begin + 1] + c[end + 1..]) == View(c)[..begin] + View(c)[end..]
  {
    var c' := c[..begin + 1] + c[end + 1..];
    var r := View(c)[..begin] + View(c)[end..];
    assert c'[0] == c[0];
    forall i | 0 <= i < |r| ensures View(c')[i] == r[i] {
      assert c'[i + 1] == if i < begin then c[i + 1] else c[i + 1 + (end - begin)];
    }
  }

  lemma ViewPrefix(w: Width, c: seq<int>, n: nat)
    requires n < |c| && Sentinel(w, c)
    ensures View(c[..n + 1]) == View(c)[..n] && Sentinel(w, c[..n + 1])
  {
  }

  lemma ViewMoved(c: seq<int>, begin: nat, end: nat, dest: nat)
    requires begin <= end < |c| && dest + (end - begin) < |c|
    ensures View(P.Moved(c, begin + 1, end + 1, dest + 1)) == P.Moved(View(c), begin, end, dest)
  {
    var c' := P.Moved(c, begin + 1, end + 1, dest + 1);
    P.MovedElement(c, begin + 1, end + 1, dest + 1, 0);
    forall i | 0 <= i < |c| - 1 ensures View(c')[i] == P.Moved(View(c), begin, end, dest)[i] {
      P.MovedElement(c, begin + 1, end + 1, dest + 1, i + 1);
      P.MovedElement(View(c), begin, end, dest, i);
    }
  }

  /** The elements `more` were appended, where some may have turned into nulls. */
  ghost predicate Received(was: seq<Option<int>>, now: seq<Option<int>>, more: seq<Option<int>>) {
    && |now| == |was| + |more| && now[..|was|] == was
    && forall i :: 0 <= i < |more| ==> now[|was| + i] == more[i] || now[|was| + i] == None
  }

  // ----- the array -----

  class ArrayIntNull {
    const arr: P.Array

    ghost predicate Ready()
      reads arr, arr.data
    {
      arr.Valid() && arr.size > 0
    }

    ghost predicate Valid()
      reads arr, arr.data
    {
      Ready() && Sentinel(arr.width, arr.Contents())
    }

    ghost function Values(): (r: seq<Option<int>>)
      requires Ready()
      reads arr, arr.data
    {
      View(arr.Contents())
    }

    constructor ()
      ensures Valid() && Values() == [] && fresh(arr) && fresh(arr.data)
    {
      arr := new P.Array();
      new;
      arr.Add(0);
      assert UpperBound(0) == 0 by { Powers(); }
    }

    method NullValue() returns (v: int)
      requires Ready()
      ensures v == arr.Contents()[0]
    {
      v := arr.GetAt(0);
    }

    /** Whether no stored value would be taken for the null. */
    method CanUseAsNull(candidate: int) returns (r: bool)
      requires Ready()
      ensures r <==> candidate == arr.Contents()[0] || candidate !in arr.Contents()
    {
      var null' := NullValue();
      if candidate == null' {
        return true;
      }
      var found := FindFirst(arr, candidate, 1);
      r := found == arr.size;
      assert found < arr.size ==> arr.Contents()[found] in arr.Contents();
    }

    /** Tries candidates until one is free. As they are all different and only the incoming
        and the stored values are refused, at most `arr.size + 1` are tried. */
    method ChooseRandomNull(incoming: int, seed: int) returns (c: int, ghost k: nat)
      requires Ready() && Int64(seed)
      ensures c == Candidate(seed, k) && 1 <= k <= arr.size + 1
      ensures Usable(arr.Contents(), incoming, c) && Refused(seed, incoming, arr.Contents(), k)
      ensures c == FirstNull(seed, incoming, arr.Contents())
    {
      hide Wrapped, Candidate, Usable, Refused, Failed;
      ghost var tried: set<int> := {};
      c, k := seed, 0;
      NoneFailed(seed, incoming, arr.Contents());
      SeedIsFirst(seed);
      while true
        invariant c == Candidate(seed, k) && Failed(seed, incoming, arr.Contents(), k, tried)
        decreases arr.size - k
      {
        FewFailed(seed, incoming, arr.Contents(), k, tried);
        NextCandidate(seed, k);
        c := Wrapped(c + STEP);
        k := k + 1;
        UsableHere(arr.Contents(), incoming, c);
        if c != incoming {
          var free := CanUseAsNull(c);
          if free {
            FirstFreeFound(seed, incoming, arr.Contents(), 1, k);
            return;
          }
        }
        OneMoreFailed(seed, incoming, arr.Contents(), k, tried);
        tried := tried + {c};
      }
    }

    /** Replaces the null in slot 0 and everywhere after it. */
    method ReplaceNullsWith(null': int)
      requires Ready() && Int64(null')
      modifies arr, arr.data
      ensures Ready() && arr.Contents() == Replaced(old(arr.Contents()), null')
      ensures arr.width == P.Widened(old(arr.width), null')
      ensures arr.data == old(arr.data) || fresh(arr.data)
    {
      ghost var c := arr.Contents();
      var oldNull := NullValue();
      arr.Set(0, null');
      var i := 1;
      while true
        invariant 1 <= i <= arr.size == |c| && arr.Valid() && Int64(null')
        invariant arr.width == P.Widened(old(arr.width), null')
        invariant arr.data == old(arr.data) || fresh(arr.data)
        invariant forall j :: 0 <= j < i ==> arr.Contents()[j] == if c[j] == oldNull then null' else c[j]
        invariant forall j :: i <= j < |c| ==> arr.Contents()[j] == c[j]
        decreases arr.size - i
      {
        var found := FindFirst(arr, oldNull, i);
        if found < arr.size {
          arr.Set(found, null');
          i := found + 1;
        } else {
          break;
        }
      }
      assert arr.Contents() == Replaced(c, null');
    }

    /** Makes the null differ from `value`, and the width hold it, without changing any optional integer. */
    method AvoidNullCollision(value: int, seed: int) returns (ghost chosen: Option<int>)
      requires Ready() && Int64(value) && Int64(seed)
      modifies arr, arr.data
      ensures Ready() && Values() == old(Values()) && arr.size == old(arr.size)
      ensures arr.data == old(arr.data) || fresh(arr.data)
      ensures arr.Contents()[0] == value <==> Lost(old(arr.width), old(arr.Contents()), value)
      ensures chosen.Some? ==> chosen.value != value
      ensures chosen.None? ==> Fits(arr.width, value) && (old(Valid()) ==> Sentinel(arr.width, arr.Contents()))
      ensures chosen.Some? ==>
                && chosen.value == FirstNull(seed, value, old(arr.Contents())) && arr.Contents()[0] == chosen.value
                && arr.width == P.Widened(old(arr.width), chosen.value)
                && (old(arr.width) == 64 || value == INT32_MAX || !Fits(32, value))
      ensures chosen.None? ==> !(old(arr.width) < 64 && value == INT32_MAX)
      ensures chosen.Some? && UserAddress(seed) ==> !Fits(32, chosen.value)
    {
      hide Fits, UpperBound, LowerBound, BitWidth, Candidate, Replaced, FirstNull, Collides;
      chosen := None;
      ghost var c, w := arr.Contents(), arr.width;
      TopCollides(arr.width);
      if arr.width == 64 {
        var null' := NullValue();
        if value == null' {
          chosen := MoveNulls(value, seed);
        } else {
          FitsWidest(value);
        }
      } else if Collides(arr.width, value) {
        RoomyFits(arr.width, value);
        var newWidth := Roomy(value);
        if newWidth == 64 {
          chosen := MoveNulls(value, seed);
        } else {
          P.UpperBoundWidth(newWidth, arr.width);
          NotStored(arr.width, c, UpperBound(newWidth));
          ReplacedView(c, UpperBound(newWidth));
          FirstReplaced(c, UpperBound(newWidth));
          ReplaceNullsWith(UpperBound(newWidth));
          BelowTop(newWidth, value);
        }
      } else {
        BelowTop(arr.width, value);
      }
    }

    /** Replaces the nulls by a random value that is not stored. */
    method MoveNulls(value: int, seed: int) returns (ghost chosen: Option<int>)
      requires Ready() && Int64(seed)
      modifies arr, arr.data
      ensures Ready() && Values() == old(Values()) && arr.size == old(arr.size)
      ensures arr.data == old(arr.data) || fresh(arr.data)
      ensures chosen == Some(FirstNull(seed, value, old(arr.Contents())))
      ensures chosen.value != value && arr.Contents()[0] == chosen.value
      ensures arr.width == P.Widened(old(arr.width), chosen.value)
      ensures UserAddress(seed) ==> !Fits(32, chosen.value)
    {
      hide Fits, Candidate, Replaced, FirstNull;
      ghost var c := arr.Contents();
      var null', k := ChooseRandomNull(value, seed);
      if UserAddress(seed) {
        CandidateNeeds64(seed, k);
      }
      ReplacedView(c, null');
      FirstReplaced(c, null');
      ReplaceNullsWith(null');
      chosen := Some(null');
    }

    /** Inserting an optional integer; `seed` is the address the random null starts from. */
    method Insert(ndx: nat, value: Option<int>, seed: int)
      requires Ready() && Int64(seed) && ndx < arr.size < P.MAX_ARRAY_SIZE && (value.Some? ==> Int64(value.value))
      modifies arr, arr.data
      ensures Ready() && Values() ==
              old(Values())[..ndx] + [Taken(old(arr.width), old(arr.Contents()), value)] + old(Values())[ndx..]
      ensures old(Valid()) ==> Taken(old(arr.width), old(arr.Contents()), value) == value
      ensures old(Valid()) && value.None? ==> Valid()
      ensures old(Valid()) && value.Some? ==>
                (Valid() <==> Kept(old(arr.width), value.value, seed, old(arr.Contents())))
      ensures old(Valid()) && UserAddress(seed) ==> Valid()
      ensures arr.data == old(arr.data) || fresh(arr.data)
    {
      hide Fits, UpperBound, LowerBound, BitWidth, FirstNull, Lost;
      NothingLost(arr.width, arr.Contents(), value);
      if value.Some? {
        ghost var chosen := AvoidNullCollision(value.value, seed);
        InsertSlot(ndx, value.value);
        if chosen.Some? {
          StoredSentinel(old(arr.width), chosen.value, value.value);
        }
      } else {
        var null' := NullValue();
        NullFits(arr.width, arr.Contents());
        InsertSlot(ndx, null');
      }
    }

    method InsertSlot(ndx: nat, v: int)
      requires Ready() && ndx < arr.size < P.MAX_ARRAY_SIZE && Int64(v)
      modifies arr, arr.data
      ensures Ready() && arr.Contents()[0] == old(arr.Contents())[0] && arr.width == P.Widened(old(arr.width), v)
      ensures Values() ==
              old(Values())[..ndx] + [if v == arr.Contents()[0] then None else Some(v)] + old(Values())[ndx..]
      ensures arr.data == old(arr.data) || fresh(arr.data)
    {
      hide View, Fits, BitWidth;
      ghost var c := arr.Contents();
      ViewInserted(c, ndx, v);
      arr.Insert(ndx + 1, v);
      assert arr.Contents()[0] == c[0];
    }

    method Set(ndx: nat, value: Option<int>, seed: int)
      requires Ready() && Int64(seed) && ndx + 1 < arr.size && (value.Some? ==> Int64(value.value))
      modifies arr, arr.data
      ensures Ready() && Values() == old(Values())[ndx := Taken(old(arr.width), old(arr.Contents()), value)]
      ensures old(Valid()) ==> Taken(old(arr.width), old(arr.Contents()), value) == value
      ensures old(Valid()) && value.None? ==> Valid()
      ensures old(Valid()) && value.Some? ==>
                (Valid() <==> Kept(old(arr.width), value.value, seed, old(arr.Contents())))
      ensures old(Valid()) && UserAddress(seed) ==> Valid()
      ensures arr.data == old(arr.data) || fresh(arr.data)
    {
      hide Fits, UpperBound, LowerBound, BitWidth, FirstNull, Lost;
      NothingLost(arr.width, arr.Contents(), value);
      if value.Some? {
        ghost var chosen := AvoidNullCollision(value.value, seed);
        ViewUpdated(arr.Contents(), ndx, value.value);
        arr.Set(ndx + 1, value.value);
        if chosen.Some? {
          StoredSentinel(old(arr.width), chosen.value, value.value);
        }
      } else {
        var null' := NullValue();
        NullFits(arr.width, arr.Contents());
        ViewUpdated(arr.Contents(), ndx, null');
        arr.Set(ndx + 1, null');
      }
    }

    method Add(value: Option<int>, seed: int)
      requires Ready() && Int64(seed) && arr.size < P.MAX_ARRAY_SIZE && (value.Some? ==> Int64(value.value))
      modifies arr, arr.data
      ensures Ready() && Values() == old(Values()) + [Taken(old(arr.width), old(arr.Contents()), value)]
      ensures old(Valid()) ==> Taken(old(arr.width), old(arr.Contents()), value) == value
      ensures old(Valid()) && value.Some? ==>
                (Valid() <==> Kept(old(arr.width), value.value, seed, old(arr.Contents())))
      ensures old(Valid()) && (UserAddress(seed) || value.None?) ==> Valid()
      ensures arr.data == old(arr.data) || fresh(arr.data)
    {
      Insert(arr.size - 1, value, seed);
    }

    method Get(ndx: nat) returns (r: Option<int>)
      requires Ready() && ndx + 1 < arr.size
      ensures r == Values()[ndx]
    {
      var v := arr.GetAt(ndx + 1);
      var null' := NullValue();
      r := if v == null' then None else Some(v);
    }

    method EraseRange(begin: nat, end: nat)
      requires Valid() && begin <= end < arr.size
      modifies arr, arr.data
      ensures Valid() && Values() == old(Values())[..begin] + old(Values())[end..]
    {
      ViewErased(arr.Contents(), begin, end);
      arr.EraseRange(begin + 1, end + 1);
    }

    method Move(begin: nat, end: nat, dest: nat)
      requires Valid() && begin <= end < arr.size && dest + (end - begin) < arr.size && (dest < begin || end <= dest)
      modifies arr.data
      ensures Valid() && Values() == P.Moved(old(Values()), begin, end, dest)
    {
      hide View, P.Moved;
      ViewMoved(arr.Contents(), begin, end, dest);
      P.MovedElement(arr.Contents(), begin + 1, end + 1, dest + 1, 0);
      arr.Move(begin + 1, end + 1, dest + 1);
    }

    /** Appends the elements from `ndx` on to `dst` and drops them here; `seeds` are the
        addresses that the additions choose their nulls from. */
    method MoveTo(dst: ArrayIntNull, ndx: nat, seeds: seq<int>)
      requires Valid() && dst.Valid() && dst.arr != arr && dst.arr.data != arr.data && ndx < arr.size
      requires dst.arr.size + (arr.size - 1 - ndx) <= P.MAX_ARRAY_SIZE
      requires |seeds| == arr.size && forall i :: 0 <= i < |seeds| ==> Int64(seeds[i])
      modifies arr, dst.arr, dst.arr.data
      ensures Valid() && Values() == old(Values())[..ndx]
      ensures dst.Ready() && Received(old(dst.Values()), dst.Values(), old(Values())[ndx..])
      ensures UserAddresses(seeds) ==>
                dst.Valid() && dst.Values() == old(dst.Values()) + old(Values())[ndx..]
    {
      hide View, UserAddress, Sentinel, Kept, Taken, UserAddresses;
      assert Received(dst.Values(), dst.Values(), []);
      hide Received;
      ghost var v := Values();
      var sz := arr.size - 1;
      var i := ndx;
      assert v[ndx..ndx] == [] && dst.Values() == old(dst.Values()) + [];
      while i < sz
        invariant ndx <= i <= sz && dst.Ready() && dst.arr.size == old(dst.arr.size) + (i - ndx)
        invariant dst.arr.data == old(dst.arr.data) || fresh(dst.arr.data)
        invariant Received(old(dst.Values()), dst.Values(), v[ndx..i])
        invariant UserAddresses(seeds) ==> dst.Valid() && dst.Values() == old(dst.Values()) + v[ndx..i]
        invariant unchanged(arr) && unchanged(arr.data)
        modifies dst.arr, dst.arr.data
      {
        var value := Get(i);
        ValuesFit(arr.width, arr.Contents(), i);
        assert v[ndx..i + 1] == v[ndx..i] + [v[i]];
        TakenOrLost(dst.arr.width, dst.arr.Contents(), value);
        ReceivedNext(old(dst.Values()), dst.Values(), v[ndx..i], value,
                     Taken(dst.arr.width, dst.arr.Contents(), value));
        if UserAddresses(seeds) {
          OneAddress(seeds, i);
        }
        dst.Add(value, seeds[i]);
        i := i + 1;
      }
      ViewPrefix(arr.width, arr.Contents(), ndx);
      assert old(Values())[ndx..sz] == old(Values())[ndx..];
      arr.Truncate(ndx + 1);
    }

    method Clear()
      requires Valid()
      modifies arr, arr.data
      ensures Valid() && Values() == []
      ensures arr.data == old(arr.data) || fresh(arr.data)
    {
      arr.Truncate(0);
      arr.Add(0);
      assert UpperBound(0) == 0 by { Powers(); }
    }
  }

  lemma FirstReplaced(c: seq<int>, null': int)
    requires |c| > 0
    ensures Replaced(c, null')[0] == null'
  {
  }

  lemma FitsWidest(value: int)
    requires Int64(value)
    ensures Fits(64, value)
  {
    Powers();
  }

  lemma BelowTop(w: Width, value: int)
    requires !Collides(w, value)
    ensures Fits(w, value) && value != UpperBound(w)
  {
  }

  /** A value that does not fit the width is not stored. */
  lemma NotStored(w: Width, c: seq<int>, x: int)
    requires P.AllFit(w, c) && !Fits(w, x)
    ensures x !in c
  {
  }

  lemma NullFits(w: Width, c: seq<int>)
    requires P.AllFit(w, c) && |c| > 0
    ensures Fits(w, c[0]) && Int64(c[0])
  {
    Powers();
    hide Pow2;
    assert Fits(w, c[0]);
  }

  lemma ValuesFit(w: Width, c: seq<int>, i: nat)
    requires P.AllFit(w, c) && i + 1 < |c|
    ensures View(c)[i].Some? ==> Int64(View(c)[i].value)
  {
    Powers();
    hide Pow2;
    assert Fits(w, c[i + 1]);
  }

  lemma ReceivedNext(was: seq<Option<int>>, now: seq<Option<int>>, more: seq<Option<int>>, x: Option<int>,
                     y: Option<int>)
    requires Received(was, now, more) && (y == x || y == None)
    ensures Received(was, now + [y], more + [x])
  {
  }

  lemma OneAddress(seeds: seq<int>, i: nat)
    requires i < |seeds| && UserAddresses(seeds)
    ensures UserAddress(seeds[i])
  {
  }

  lemma TakenOrLost(w: Width, c: seq<int>, value: Option<int>)
    ensures Taken(w, c, value) == value || Taken(w, c, value) == None
  {
  }

  lemma SeedIsFirst(seed: int)
    requires Int64(seed)
    ensures Candidate(seed, 0) == seed
  {
  }

}
