/** Writing a tree of nodes to the file.

    A node with refs holds in each slot a ref (even, not zero) or a plain number.
    Nodes that are already in the file are read-only and are not written again.
 */
module DeepWrite {

  type Ref = int

  datatype Node = Node(hasRefs: bool, inner: bool, context: bool, slots: seq<int>)

  type Heap = map<Ref, Node>

  predicate IsRef(v: int) {
    v != 0 && v % 2 == 0
  }

  /** Every ref leads to a node of lower rank, so the heap holds no cycle. */
  ghost predicate Ranked(h: Heap, rank: map<Ref, nat>) {
    forall r, i :: r in h && h[r].hasRefs && 0 <= i < |h[r].slots| && IsRef(h[r].slots[i]) ==>
      h[r].slots[i] in h && r in rank && h[r].slots[i] in rank && rank[h[r].slots[i]] < rank[r]
  }

  ghost function Rank(rank: map<Ref, nat>, r: Ref): (n: nat) {
    if r in rank then rank[r] else 0
  }

  // ----- what a ref means -----

  datatype Slot = Number(value: int) | Sub(tree: Tree)

  datatype Tree = Tree(inner: bool, context: bool, hasRefs: bool, slots: seq<Slot>)

  /** The tree that a ref stands for. */
  ghost function Denote(h: Heap, rank: map<Ref, nat>, r: Ref): (t: Tree)
    requires Ranked(h, rank) && r in h
    decreases Rank(rank, r), 1
  {
    Tree(h[r].inner, h[r].context, h[r].hasRefs, Slots(h, rank, r, |h[r].slots|))
  }

  /** The first `n` slots of a node. */
  ghost function Slots(h: Heap, rank: map<Ref, nat>, r: Ref, n: nat): (s: seq<Slot>)
    requires Ranked(h, rank) && r in h && n <= |h[r].slots|
    ensures |s| == n
    decreases Rank(rank, r), 0, n
  {
    if n == 0 then []
    else
      var v := h[r].slots[n - 1];
      Slots(h, rank, r, n - 1) + [if h[r].hasRefs && IsRef(v) then Sub(Denote(h, rank, v)) else Number(v)]
  }

  // ----- how the copy looks -----

  /** The tree at `r'` in `f` is the tree at `r` in `h` with everything outside `kept` written to
      refs outside `before`, and everything in `kept` referred to by its old ref. */
  ghost predicate Copies(h: Heap, rank: map<Ref, nat>, kept: set<Ref>, before: set<Ref>, f: Heap, r: Ref, r': Ref)
    requires Ranked(h, rank) && r in h
    decreases Rank(rank, r), 1
  {
    if r in kept then r' == r
    else
      && r' in f && r' !in before
      && f[r'].hasRefs == h[r].hasRefs && f[r'].inner == h[r].inner && f[r'].context == h[r].context
      && |f[r'].slots| == |h[r].slots|
      && CopiedSlots(h, rank, kept, before, f, r, f[r'].slots, |h[r].slots|)
  }

  ghost predicate CopiedSlots(h: Heap, rank: map<Ref, nat>, kept: set<Ref>, before: set<Ref>, f: Heap, r: Ref,
                              slots: seq<int>, n: nat)
    requires Ranked(h, rank) && r in h && n <= |h[r].slots| && n <= |slots|
    decreases Rank(rank, r), 0, n
  {
    n == 0 ||
    (&& CopiedSlots(h, rank, kept, before, f, r, slots, n - 1)
     && var v := h[r].slots[n - 1];
        if h[r].hasRefs && IsRef(v)
        then IsRef(slots[n - 1]) && Copies(h, rank, kept, before, f, v, slots[n - 1])
        else slots[n - 1] == v)
  }

  /** More nodes in the file change nothing that was there. */
  lemma {:induction false} CopiesGrow(h: Heap, rank: map<Ref, nat>, kept: set<Ref>, before: set<Ref>, f: Heap, f': Heap,
      r: Ref, r': Ref)
    requires Ranked(h, rank) && r in h && Copies(h, rank, kept, before, f, r, r')
    requires forall x :: x in f ==> x in f' && f'[x] == f[x]
    ensures Copies(h, rank, kept, before, f', r, r')
    decreases Rank(rank, r), 1
  {
    if r !in kept {
      SlotsGrow(h, rank, kept, before, f, f', r, f[r'].slots, |h[r].slots|);
    }
  }

  lemma {:induction false} SlotsGrow(h: Heap, rank: map<Ref, nat>, kept: set<Ref>, before: set<Ref>, f: Heap, f': Heap,
      r: Ref, slots: seq<int>, n: nat)
    requires Ranked(h, rank) && r in h && n <= |h[r].slots| && n <= |slots|
    requires CopiedSlots(h, rank, kept, before, f, r, slots, n)
    requires forall x :: x in f ==> x in f' && f'[x] == f[x]
    ensures CopiedSlots(h, rank, kept, before, f', r, slots, n)
    decreases Rank(rank, r), 0, n
  {
    if n > 0 {
      SlotsGrow(h, rank, kept, before, f, f', r, slots, n - 1);
      var v := h[r].slots[n - 1];
      if h[r].hasRefs && IsRef(v) {
        CopiesGrow(h, rank, kept, before, f, f', v, slots[n - 1]);
      }
    }
  }

  /** Only the first `n` slots matter to the first `n` slots. */
  lemma {:induction false} SlotsExtend(h: Heap, rank: map<Ref, nat>, kept: set<Ref>, before: set<Ref>, f: Heap, r: Ref,
                                       slots: seq<int>, more: seq<int>, n: nat)
    requires Ranked(h, rank) && r in h && n <= |h[r].slots| && n <= |slots|
    requires CopiedSlots(h, rank, kept, before, f, r, slots, n)
    ensures CopiedSlots(h, rank, kept, before, f, r, slots + more, n)
    decreases n
  {
    if n > 0 {
      SlotsExtend(h, rank, kept, before, f, r, slots, more, n - 1);
      assert (slots + more)[n - 1] == slots[n - 1];
    }
  }

  // ----- the copy means the same -----

  /** The read-only nodes are in the file as they are in memory, and lead to read-only nodes only. */
  ghost predicate ReadOnly(h: Heap, kept: set<Ref>, f: Heap) {
    && (forall r :: r in kept ==> r in h && r in f && f[r] == h[r])
    && (forall r, i :: r in kept && h[r].hasRefs && 0 <= i < |h[r].slots| && IsRef(h[r].slots[i]) ==>
        h[r].slots[i] in kept)
  }

  lemma {:induction false} KeptSame(h: Heap, rank: map<Ref, nat>, kept: set<Ref>, f: Heap, rank': map<Ref, nat>, r: Ref)
    requires Ranked(h, rank) && Ranked(f, rank') && ReadOnly(h, kept, f) && r in kept
    ensures Denote(f, rank', r) == Denote(h, rank, r)
    decreases Rank(rank, r), 1
  {
    KeptSlotsSame(h, rank, kept, f, rank', r, |h[r].slots|);
  }

  lemma {:induction false} KeptSlotsSame(h: Heap, rank: map<Ref, nat>, kept: set<Ref>, f: Heap, rank': map<Ref, nat>,
      r: Ref, n: nat)
    requires Ranked(h, rank) && Ranked(f, rank') && ReadOnly(h, kept, f) && r in kept && n <= |h[r].slots|
    ensures Slots(f, rank', r, n) == Slots(h, rank, r, n)
    decreases Rank(rank, r), 0, n
  {
    if n > 0 {
      KeptSlotsSame(h, rank, kept, f, rank', r, n - 1);
      var v := h[r].slots[n - 1];
      if h[r].hasRefs && IsRef(v) {
        KeptSame(h, rank, kept, f, rank', v);
      }
    }
  }

  /** A copy stands for the same tree as the original. */
  lemma {:induction false} CopyMeansSame(h: Heap, rank: map<Ref, nat>, kept: set<Ref>, before: set<Ref>, f: Heap,
      rank': map<Ref, nat>, r: Ref, r': Ref)
    requires Ranked(h, rank) && Ranked(f, rank') && ReadOnly(h, kept, f) && r in h
    requires Copies(h, rank, kept, before, f, r, r')
    ensures r' in f && Denote(f, rank', r') == Denote(h, rank, r)
    decreases Rank(rank, r), 1
  {
    if r in kept {
      KeptSame(h, rank, kept, f, rank', r);
    } else {
      CopiedSlotsSame(h, rank, kept, before, f, rank', r, r', |h[r].slots|);
    }
  }

  lemma {:induction false} CopiedSlotsSame(h: Heap, rank: map<Ref, nat>, kept: set<Ref>, before: set<Ref>, f: Heap,
      rank': map<Ref, nat>, r: Ref, r': Ref, n: nat)
    requires Ranked(h, rank) && Ranked(f, rank') && ReadOnly(h, kept, f) && r in h && r' in f
    requires f[r'].hasRefs == h[r].hasRefs && n <= |h[r].slots| && n <= |f[r'].slots|
    requires CopiedSlots(h, rank, kept, before, f, r, f[r'].slots, n)
    ensures Slots(f, rank', r', n) == Slots(h, rank, r, n)
    decreases Rank(rank, r), 0, n
  {
    if n > 0 {
      CopiedSlotsSame(h, rank, kept, before, f, rank', r, r', n - 1);
      var v := h[r].slots[n - 1];
      if h[r].hasRefs && IsRef(v) {
        CopyMeansSame(h, rank, kept, before, f, rank', v, f[r'].slots[n - 1]);
      }
    }
  }

  // ----- writing -----

  ghost predicate Kept(f: Heap, f': Heap) {
    forall x :: x in f ==> x in f' && f'[x] == f[x]
  }

  /** The file that nodes are written to, one after the other. */
  class Writer {
    var file: Heap
    var next: Ref
    ghost var rank: map<Ref, nat>
    ghost var top: nat

    ghost predicate Valid()
      reads this
    {
      && Ranked(file, rank)
      && next > 0 && next % 8 == 0
      && (forall r :: r in file ==> r < next && r in rank && rank[r] < top)
    }

    method WriteArray(node: Node) returns (r: Ref)
      requires Valid()
      requires node.hasRefs ==> forall i :: 0 <= i < |node.slots| && IsRef(node.slots[i]) ==> node.slots[i] in file
      modifies this
      ensures Valid() && r !in old(file) && file == old(file)[r := node] && IsRef(r) && r % 8 == 0
    {
      hide Ranked, IsRef;
      r := next;
      RankedAdded(file, rank, r, node, top);
      NextRef(next, |node.slots|);
      file := file[r := node];
      rank, top := rank[r := top], top + 1;
      next := next + 8 * (1 + |node.slots|);
    }
  }

  lemma NextRef(next: int, n: nat)
    requires next > 0 && next % 8 == 0
    ensures IsRef(next) && next < next + 8 * (1 + n) && (next + 8 * (1 + n)) % 8 == 0
  {
  }

  lemma RankedAdded(h: Heap, rank: map<Ref, nat>, r: Ref, node: Node, top: nat)
    requires Ranked(h, rank) && r !in h && forall x :: x in h ==> x in rank && rank[x] < top
    requires node.hasRefs ==> forall i :: 0 <= i < |node.slots| && IsRef(node.slots[i]) ==> node.slots[i] in h
    ensures Ranked(h[r := node], rank[r := top])
  {
  }

  /** Writes the tree at `r`. Nodes in `readOnly` are kept when only modified ones are wanted. */
  method Write(h: Heap, ghost rank: map<Ref, nat>, readOnly: set<Ref>, onlyIfModified: bool, r: Ref, out: Writer,
               ghost before: set<Ref>)
    returns (r': Ref)
    requires Ranked(h, rank) && r in h && IsRef(r) && out.Valid() && before <= out.file.Keys
    requires ReadOnly(h, if onlyIfModified then readOnly else {}, out.file)
    modifies out
    ensures out.Valid() && Kept(old(out.file), out.file) && IsRef(r') && r' in out.file
    ensures Copies(h, rank, if onlyIfModified then readOnly else {}, before, out.file, r, r')
    decreases Rank(rank, r), 1
  {
    if onlyIfModified && r in readOnly {
      return r;
    }
    if !h[r].hasRefs {
      PlainSlots(h, rank, if onlyIfModified then readOnly else {}, before, out.file, r, |h[r].slots|);
      r' := out.WriteArray(h[r]);
      SlotsGrow(h, rank, if onlyIfModified then readOnly else {}, before, old(out.file), out.file,
                r, h[r].slots, |h[r].slots|);
    } else {
      r' := WriteDeep(h, rank, readOnly, onlyIfModified, r, out, before);
    }
  }

  method WriteDeep(h: Heap, ghost rank: map<Ref, nat>, readOnly: set<Ref>, onlyIfModified: bool, r: Ref, out: Writer,
                   ghost before: set<Ref>)
    returns (r': Ref)
    requires Ranked(h, rank) && r in h && h[r].hasRefs && out.Valid() && before <= out.file.Keys
    requires ReadOnly(h, if onlyIfModified then readOnly else {}, out.file)
    requires !(onlyIfModified && r in readOnly)
    modifies out
    ensures out.Valid() && Kept(old(out.file), out.file) && IsRef(r') && r' in out.file
    ensures Copies(h, rank, if onlyIfModified then readOnly else {}, before, out.file, r, r')
    decreases Rank(rank, r), 0
  {
    ghost var kept := if onlyIfModified then readOnly else {};
    var slots: seq<int> := [];
    var i, n := 0, |h[r].slots|;
    while i < n
      invariant 0 <= i <= n && |slots| == i && out.Valid() && Kept(old(out.file), out.file) && before <= out.file.Keys
      invariant forall j :: 0 <= j < i && IsRef(slots[j]) ==> slots[j] in out.file
      invariant CopiedSlots(h, rank, kept, before, out.file, r, slots, i)
    {
      var value := h[r].slots[i];
      ghost var f := out.file;
      if value != 0 && value % 2 == 0 {
        value := Write(h, rank, readOnly, onlyIfModified, value, out, before);
        SlotsGrow(h, rank, kept, before, f, out.file, r, slots, i);
      }
      SlotsExtend(h, rank, kept, before, out.file, r, slots, [value], i);
      slots := slots + [value];
      i := i + 1;
    }
    ghost var f := out.file;
    r' := out.WriteArray(Node(true, h[r].inner, h[r].context, slots));
    SlotsGrow(h, rank, kept, before, f, out.file, r, slots, n);
  }

  lemma {:induction false} PlainSlots(h: Heap, rank: map<Ref, nat>, kept: set<Ref>, before: set<Ref>, f: Heap, r: Ref,
      n: nat)
    requires Ranked(h, rank) && r in h && !h[r].hasRefs && n <= |h[r].slots|
    ensures CopiedSlots(h, rank, kept, before, f, r, h[r].slots, n)
  {
    if n > 0 {
      PlainSlots(h, rank, kept, before, f, r, n - 1);
    }
  }

  /** The written ref stands for the same tree; it is the old ref exactly when the tree is read-only and
      only modified nodes are wanted. */
  method WriteTree(h: Heap, ghost rank: map<Ref, nat>, readOnly: set<Ref>, onlyIfModified: bool, r: Ref, out: Writer)
    returns (r': Ref)
    requires Ranked(h, rank) && r in h && IsRef(r) && out.Valid()
    requires ReadOnly(h, if onlyIfModified then readOnly else {}, out.file)
    modifies out
    ensures out.Valid() && Kept(old(out.file), out.file) && r' in out.file
    ensures Denote(out.file, out.rank, r') == Denote(h, rank, r)
    ensures r' in old(out.file) <==> onlyIfModified && r in readOnly
    ensures r' in old(out.file) ==> r' == r
    ensures Copies(h, rank, if onlyIfModified then readOnly else {}, old(out.file.Keys), out.file, r, r')
  {
    ghost var before := out.file.Keys;
    r' := Write(h, rank, readOnly, onlyIfModified, r, out, before);
    CopyMeansSame(h, rank, if onlyIfModified then readOnly else {}, before, out.file, out.rank, r, r');
  }
}
