/** Binary search over a packed array whose range shrinks independently of the data. */
module Bounds {
  import opened DirectAccess

  ghost predicate Sorted(s: seq<int>) {
    forall i, j :: 0 <= i <= j < |s| ==> s[i] <= s[j]
  }

  /** Whether an element lies before the wanted bound. */
  predicate Before(upper: bool, x: int, value: int) {
    if upper then x <= value else x < value
  }

  /** The bound lies in `[low, low + size]`. */
  ghost predicate Bracket(s: seq<int>, upper: bool, value: int, low: nat, size: nat) {
    && low + size <= |s|
    && (forall i :: 0 <= i < low ==> Before(upper, s[i], value))
    && (forall i :: low + size <= i < |s| ==> !Before(upper, s[i], value))
  }

  /** Keeping `size / 2` elements on either outcome of the probe never loses the bound. */
  lemma Narrow(s: seq<int>, upper: bool, value: int, low: nat, size: nat)
    requires Sorted(s) && Bracket(s, upper, value, low, size) && 0 < size
    ensures low + size / 2 < |s|
    ensures Bracket(s, upper, value,
                    if Before(upper, s[low + size / 2], value) then low + (size - size / 2) else low, size / 2)
  {
    var half := size / 2;
    var probe := low + half;
    if Before(upper, s[probe], value) {
      forall i | 0 <= i < low + (size - half) ensures Before(upper, s[i], value) {
        assert i <= probe && s[i] <= s[probe];
      }
    } else {
      forall i | probe <= i < |s| ensures !Before(upper, s[i], value) {
        assert s[probe] <= s[i];
      }
    }
  }

  lemma Done(s: seq<int>, upper: bool, value: int, low: nat)
    requires Bracket(s, upper, value, low, 0)
    ensures low <= |s|
    ensures forall i :: 0 <= i < low ==> Before(upper, s[i], value)
    ensures forall i :: low <= i < |s| ==> !Before(upper, s[i], value)
  {
  }

  /** One instance of the search step; its new size does not depend on the probe. */
  method Step(data: seq<Byte>, w: Width, size: nat, upper: bool, value: int, low: nat, n: nat)
    returns (low': nat, half: nat)
    requires Holds(data, w, size) && Sorted(Elements(data, w, size)) && 0 < n
    requires Bracket(Elements(data, w, size), upper, value, low, n)
    ensures half == n / 2 && Bracket(Elements(data, w, size), upper, value, low', half)
  {
    Narrow(Elements(data, w, size), upper, value, low, n);
    half := n / 2;
    var otherHalf := n - half;
    var probe := low + half;
    var otherLow := low + otherHalf;
    ElementAt(data, w, size, probe);
    var v := Get(data, w, probe);
    low' := if Before(upper, v, value) then otherLow else low;
  }

  /** The search, three steps at a time while at least eight elements are left. */
  method Search(data: seq<Byte>, w: Width, size: nat, upper: bool, value: int) returns (low: nat)
    requires Holds(data, w, size) && Sorted(Elements(data, w, size))
    ensures Bracket(Elements(data, w, size), upper, value, low, 0)
  {
    var n := size;
    low := 0;
    while n >= 8
      invariant Bracket(Elements(data, w, size), upper, value, low, n)
    {
      low, n := Step(data, w, size, upper, value, low, n);
      low, n := Step(data, w, size, upper, value, low, n);
      low, n := Step(data, w, size, upper, value, low, n);
    }
    while n > 0
      invariant Bracket(Elements(data, w, size), upper, value, low, n)
    {
      low, n := Step(data, w, size, upper, value, low, n);
    }
  }

  method LowerBound(data: seq<Byte>, w: Width, size: nat, value: int) returns (low: nat)
    requires Holds(data, w, size) && Sorted(Elements(data, w, size))
    ensures low <= size
    ensures forall i :: 0 <= i < low ==> Elements(data, w, size)[i] < value
    ensures forall i :: low <= i < size ==> value <= Elements(data, w, size)[i]
  {
    low := Search(data, w, size, false, value);
    Done(Elements(data, w, size), false, value, low);
  }

  method UpperBound(data: seq<Byte>, w: Width, size: nat, value: int) returns (low: nat)
    requires Holds(data, w, size) && Sorted(Elements(data, w, size))
    ensures low <= size
    ensures forall i :: 0 <= i < low ==> Elements(data, w, size)[i] <= value
    ensures forall i :: low <= i < size ==> value < Elements(data, w, size)[i]
  {
    low := Search(data, w, size, true, value);
    Done(Elements(data, w, size), true, value, low);
  }
}
