/** Optional byte strings and their order. */
module StringData {
  import opened Options
  import opened DirectAccess

  /** A string, or null. */
  type Str = Option<seq<Byte>>

  function Length(v: Str): (n: nat) {
    if v.Some? then |v.value| else 0
  }

  /** How a value is seen where there are no nulls: null as the empty string. */
  function Shown(nullable: bool, v: Str): (r: Str)
    ensures Length(r) == Length(v)
  {
    if v.None? && !nullable then Some([]) else v
  }

  /** The first place, from `i` on, where two strings differ or one of them ends. */
  function Mismatch(a: seq<Byte>, b: seq<Byte>, i: nat): (r: nat)
    requires i <= |a| && i <= |b|
    ensures i <= r <= |a| && r <= |b|
    ensures forall j :: i <= j < r ==> a[j] == b[j]
    ensures r < |a| && r < |b| ==> a[r] != b[r]
    decreases |a| - i
  {
    if i < |a| && i < |b| && a[i] == b[i] then Mismatch(a, b, i + 1) else i
  }

  /** Null is less than every string; strings are compared as `memcmp` compares their common
      part, and then by length. */
  predicate Less(a: Str, b: Str) {
    if a.None? || b.None? then a.None? && b.Some?
    else
      var d := Mismatch(a.value, b.value, 0);
      if d < |a.value| && d < |b.value| then a.value[d] < b.value[d] else |a.value| < |b.value|
  }

  /** Exactly one of less, equal and greater holds. */
  lemma LessTotal(a: Str, b: Str)
    ensures Less(a, b) || a == b || Less(b, a)
    ensures !(Less(a, b) && Less(b, a)) && !Less(a, a)
  {
    if a.Some? && b.Some? {
      SameMismatch(a.value, b.value);
      if !Less(a, b) && !Less(b, a) {
        assert a.value == b.value;
      }
    }
  }

  lemma MismatchAt(a: seq<Byte>, b: seq<Byte>, d: nat)
    requires d <= |a| && d <= |b|
    requires forall j :: 0 <= j < d ==> a[j] == b[j]
    requires d < |a| && d < |b| ==> a[d] != b[d]
    ensures Mismatch(a, b, 0) == d
  {
  }

  lemma SameMismatch(a: seq<Byte>, b: seq<Byte>)
    ensures Mismatch(a, b, 0) == Mismatch(b, a, 0)
  {
    MismatchAt(b, a, Mismatch(a, b, 0));
  }

  /** The order: null first, a string before all that begin with it and are longer, and strings that
      differ in the order of the first bytes that do. By `LessTotal` there is no other such order. */
  lemma LessIs(p: seq<Byte>, x: seq<Byte>, y: seq<Byte>, c: Byte, d: Byte)
    requires c < d
    ensures Less(None, Some(p))
    ensures y != [] ==> Less(Some(p), Some(p + y))
    ensures Less(Some(p + [c] + x), Some(p + [d] + y))
  {
    MismatchAt(p, p + y, |p|);
    MismatchAt(p + [c] + x, p + [d] + y, |p|);
  }

  lemma LessTransitive(a: Str, b: Str, c: Str)
    requires Less(a, b) && Less(b, c)
    ensures Less(a, c)
  {
    if a.Some? {
      var x, y, z := a.value, b.value, c.value;
      var d, e := Mismatch(x, y, 0), Mismatch(y, z, 0);
      MismatchAt(x, z, if d < e then d else e);
    }
  }

  // ----- sorted sequences -----

  ghost predicate Sorted(s: seq<Str>) {
    forall i, j :: 0 <= i < j < |s| ==> Less(s[i], s[j])
  }

  /** Binary search: the number of elements less than `v`. */
  method LowerBound(s: seq<Str>, v: Str) returns (i: nat)
    requires Sorted(s)
    ensures i <= |s|
    ensures forall j :: 0 <= j < i ==> Less(s[j], v)
    ensures forall j :: i <= j < |s| ==> !Less(s[j], v)
    ensures v in s ==> i < |s| && s[i] == v
  {
    hide Less;
    i := 0;
    var size := |s|;
    while 0 < size
      invariant 0 <= i && 0 <= size && i + size <= |s|
      invariant forall j :: 0 <= j < i ==> Less(s[j], v)
      invariant forall j :: i + size <= j < |s| ==> !Less(s[j], v)
      decreases size
    {
      var half := size / 2;
      var mid := i + half;
      Halves(s, v, mid);
      if Less(s[mid], v) {
        i := mid + 1;
        size := size - (half + 1);
      } else {
        size := half;
      }
    }
    if v in s {
      var k :| 0 <= k < |s| && s[k] == v;
      LessTotal(v, v);
      assert i <= k;
    }
  }

  lemma Halves(s: seq<Str>, v: Str, mid: nat)
    requires Sorted(s) && mid < |s|
    ensures Less(s[mid], v) ==> forall j :: 0 <= j < mid ==> Less(s[j], v)
    ensures !Less(s[mid], v) ==> forall j :: mid <= j < |s| ==> !Less(s[j], v)
  {
    hide Less;
    if Less(s[mid], v) {
      forall j | 0 <= j < mid ensures Less(s[j], v) {
        LessTransitive(s[j], s[mid], v);
      }
    } else {
      forall j | mid <= j < |s| ensures !Less(s[j], v) {
        if Less(s[j], v) && mid < j {
          LessTransitive(s[mid], s[j], v);
        }
      }
    }
  }
}
