/** The size-keyed free lists of the slab allocator, seen as mathematical rings.

    A free block starts with three words: its ref and the `prev`/`next` links of
    a circular doubly linked list.  `m_block_map` sends each size to the header
    of the circle of free blocks of that size.  `Lists` ties the links to a map
    from sizes to sequences (the circle read from its header) and to the set of
    free blocks the lists are meant to hold.
 */
module FreeRings {

  type Addr = int

  /** A null pointer. */
  const NULL: Addr := 0

  datatype FreeBlock = FreeBlock(ref: int, prev: Addr, next: Addr)

  type Nodes = map<Addr, FreeBlock>
  type Rings = map<int, seq<Addr>>

  function Succ(i: nat, n: nat): (r: nat)
    requires i < n
    ensures r < n
  {
    if i + 1 == n then 0 else i + 1
  }

  function Pred(i: nat, n: nat): (r: nat)
    requires i < n
    ensures r < n
  {
    if i == 0 then n - 1 else i - 1
  }

  ghost predicate Distinct(ring: seq<Addr>) {
    forall i, j :: 0 <= i < j < |ring| ==> ring[i] != ring[j]
  }

  /** Following `next` walks `ring` upwards and `prev` walks it downwards, both round the corner. */
  ghost predicate Linked(node: Nodes, ring: seq<Addr>) {
    && (forall i :: 0 <= i < |ring| ==> ring[i] in node)
    && (forall i, j {:trigger ring[i], ring[j]} :: 0 <= i < |ring| && 0 <= j < |ring| && j == Succ(i, |ring|) ==>
          node[ring[i]].next == ring[j] && node[ring[j]].prev == ring[i])
  }

  ghost predicate Ring(node: Nodes, header: Addr, ring: seq<Addr>) {
    ring != [] && ring[0] == header && Distinct(ring) && Linked(node, ring)
  }

  /** `rings` are the circles reachable from `heads`, and together they hold exactly
      the blocks of `free`, each in the circle of its own size. */
  ghost predicate Lists(node: Nodes, heads: map<int, Addr>, rings: Rings, free: map<Addr, int>) {
    Circles(node, heads, rings) && Listing(rings, free)
  }

  ghost predicate Circles(node: Nodes, heads: map<int, Addr>, rings: Rings) {
    heads.Keys == rings.Keys && forall k :: k in rings ==> Ring(node, heads[k], rings[k])
  }

  ghost predicate Listing(rings: Rings, free: map<Addr, int>) {
    && (forall k, a :: k in rings && a in rings[k] ==> a in free && free[a] == k)
    && (forall a :: a in free ==> free[a] in rings && a in rings[free[a]])
  }

  /** The links after `entry->unlink()`. */
  function Unlinked(node: Nodes, entry: Addr): (r: Nodes)
    requires entry in node && node[entry].next in node && node[entry].prev in node
    ensures r.Keys == node.Keys
  {
    var n, p := node[entry].next, node[entry].prev;
    var node1 := node[n := node[n].(prev := p)];
    var node2 := node1[p := node1[p].(next := n)];
    node2[entry := node2[entry].(prev := NULL, next := NULL)]
  }

  /** The links after `entry` was put in front of `header` in its circle. */
  function LinkedBefore(node: Nodes, entry: Addr, header: Addr): (r: Nodes)
    requires entry in node && header in node && node[header].prev in node
    ensures r.Keys == node.Keys
  {
    var p := node[header].prev;
    var node1 := node[entry := node[entry].(prev := p, next := header)];
    var node2 := node1[p := node1[p].(next := entry)];
    node2[header := node2[header].(prev := entry)]
  }

  function Without(ring: seq<Addr>, j: nat): (r: seq<Addr>)
    requires j < |ring|
    ensures |r| == |ring| - 1
  {
    ring[..j] + ring[j + 1..]
  }

  lemma WithoutMembers(ring: seq<Addr>, j: nat)
    requires j < |ring| && Distinct(ring)
    ensures Distinct(Without(ring, j))
    ensures forall a :: a in Without(ring, j) <==> a in ring && a != ring[j]
  {
    var r := Without(ring, j);
    forall a | a in ring && a != ring[j]
      ensures a in r
    {
      var i :| 0 <= i < |ring| && ring[i] == a;
      assert r[if i < j then i else i - 1] == a;
    }
  }

  lemma Beside(node: Nodes, ring: seq<Addr>, j: nat)
    requires j < |ring| && Linked(node, ring)
    ensures ring[j] in node && ring[Succ(j, |ring|)] in node && ring[Pred(j, |ring|)] in node
    ensures node[ring[j]].next == ring[Succ(j, |ring|)] && node[ring[j]].prev == ring[Pred(j, |ring|)]
  {
    assert Succ(Pred(j, |ring|), |ring|) == j;
  }

  /** Unlinking one member of a circle of two or more leaves the circle without it. */
  lemma UnlinkedRing(node: Nodes, ring: seq<Addr>, j: nat)
    requires j < |ring| && 2 <= |ring|
    requires Distinct(ring) && Linked(node, ring)
    ensures node[ring[j]].next == ring[Succ(j, |ring|)] && node[ring[j]].prev == ring[Pred(j, |ring|)]
    ensures Linked(Unlinked(node, ring[j]), Without(ring, j))
  {
    hide Distinct, Unlinked;
    var r := Without(ring, j);
    Beside(node, ring, j);
    var node' := Unlinked(node, ring[j]);
    forall i | 0 <= i < |r| ensures r[i] in node' {
      assert r[i] == ring[if i < j then i else i + 1];
    }
    forall i, i' {:trigger r[i], r[i']} | 0 <= i < |r| && 0 <= i' < |r| && i' == Succ(i, |r|)
      ensures node'[r[i]].next == r[i'] && node'[r[i']].prev == r[i]
    {
      UnlinkedPair(node, ring, j, i, i');
    }
  }

  lemma UnlinkedPair(node: Nodes, ring: seq<Addr>, j: nat, i: nat, i': nat)
    requires j < |ring| && 2 <= |ring| && Distinct(ring) && Linked(node, ring)
    requires i < |ring| - 1 && i' == Succ(i, |ring| - 1)
    ensures ring[j] in node && node[ring[j]].next in node && node[ring[j]].prev in node
    ensures var r, node' := Without(ring, j), Unlinked(node, ring[j]);
            && r[i] in node' && r[i'] in node'
            && node'[r[i]].next == r[i'] && node'[r[i']].prev == r[i]
  {
    hide Linked;
    var n, r := |ring|, Without(ring, j);
    var o, o' := if i < j then i else i + 1, if i' < j then i' else i' + 1;
    assert r[i] == ring[o] && r[i'] == ring[o'];
    Beside(node, ring, j);
    Beside(node, ring, o);
    Beside(node, ring, o');
    assert o == Pred(j, n) <==> o' == Succ(j, n);
    assert o != Pred(j, n) ==> o' == Succ(o, n);
  }

  /** Linking a fresh block before the header makes it the first of the circle. */
  lemma LinkedBeforeRing(node: Nodes, ring: seq<Addr>, entry: Addr)
    requires ring != [] && Distinct(ring) && Linked(node, ring)
    requires entry in node && entry !in ring
    ensures ring[0] in node && node[ring[0]].prev == ring[|ring| - 1] && ring[|ring| - 1] in node
    ensures Linked(LinkedBefore(node, entry, ring[0]), [entry] + ring)
  {
    var n, r := |ring|, [entry] + ring;
    assert Succ(n - 1, n) == 0;
    assert node[ring[0]].prev == ring[n - 1];
    var node' := LinkedBefore(node, entry, ring[0]);
    forall i, i' {:trigger r[i], r[i']} | 0 <= i < |r| && 0 <= i' < |r| && i' == Succ(i, |r|)
      ensures node'[r[i]].next == r[i'] && node'[r[i']].prev == r[i]
    {
      if 0 < i < n {
        assert r[i] == ring[i - 1] && r[i'] == ring[i];
        assert ring[i - 1] != ring[n - 1] && ring[i] != ring[0];
      }
    }
  }

  /** A circle whose members' links are untouched is still a circle. */
  lemma RingFrame(node: Nodes, node': Nodes, header: Addr, ring: seq<Addr>)
    requires Ring(node, header, ring)
    requires forall a :: a in ring ==>
             a in node && a in node' && node'[a].next == node[a].next && node'[a].prev == node[a].prev
    ensures Ring(node', header, ring)
  {
    forall i | 0 <= i < |ring| ensures ring[i] in node' {
      assert ring[i] in ring;
    }
    forall i, j {:trigger ring[i], ring[j]} | 0 <= i < |ring| && 0 <= j < |ring| && j == Succ(i, |ring|)
      ensures node'[ring[i]].next == ring[j] && node'[ring[j]].prev == ring[i]
    {
      assert ring[i] in ring && ring[j] in ring;
    }
  }

  /** The memory of blocks that are on no list may change freely. */
  lemma ListsFrame(node: Nodes, node': Nodes, heads: map<int, Addr>, rings: Rings, free: map<Addr, int>)
    requires Lists(node, heads, rings, free)
    requires forall a :: a in free ==>
             a in node && a in node' && node'[a].next == node[a].next && node'[a].prev == node[a].prev
    ensures Lists(node', heads, rings, free)
  {
    hide Ring;
    forall k | k in rings ensures Ring(node', heads[k], rings[k]) {
      assert forall a :: a in rings[k] ==> a in free;
      RingFrame(node, node', heads[k], rings[k]);
    }
  }

  /** Every listed block's links lead to listed blocks of the same size. */
  lemma NeighboursListed(node: Nodes, heads: map<int, Addr>, rings: Rings, free: map<Addr, int>, a: Addr)
    requires Lists(node, heads, rings, free) && a in free
    ensures a in node && node[a].next in free && node[a].prev in free
    ensures free[node[a].next] == free[a] == free[node[a].prev]
    ensures node[a].next in node && node[a].prev in node
  {
    var k := free[a];
    assert k in rings && a in rings[k];
    var ring := rings[k];
    assert Ring(node, heads[k], ring);
    var i :| 0 <= i < |ring| && ring[i] == a;
    var s, p := Succ(i, |ring|), Pred(i, |ring|);
    assert Succ(p, |ring|) == i;
    assert node[a].next == ring[s] && node[a].prev == ring[p];
    assert ring[s] in ring && ring[p] in ring;
  }

  /** Unlinking a block does not disturb the circles of other sizes. */
  lemma OtherRings(node: Nodes, heads: map<int, Addr>, rings: Rings, free: map<Addr, int>, entry: Addr, k': int)
    requires Lists(node, heads, rings, free)
    requires entry in free && k' in rings && k' != free[entry]
    ensures entry in node && node[entry].next in node && node[entry].prev in node
    ensures Ring(Unlinked(node, entry), heads[k'], rings[k'])
  {
    NeighboursListed(node, heads, rings, free, entry);
    assert Ring(node, heads[k'], rings[k']);
    forall a | a in rings[k']
      ensures a in node && a != entry && a != node[entry].next && a != node[entry].prev
    {
      assert free[a] == k';
      NeighboursListed(node, heads, rings, free, a);
    }
    RingFrame(node, Unlinked(node, entry), heads[k'], rings[k']);
  }

  /** The circle a block is taken from: its new header and members. */
  lemma OwnRing(node: Nodes, heads: map<int, Addr>, rings: Rings, free: map<Addr, int>, entry: Addr, j: nat)
    requires Lists(node, heads, rings, free)
    requires entry in free && free[entry] in rings
    requires j < |rings[free[entry]]| && rings[free[entry]][j] == entry
    ensures entry in node && node[entry].next in node && node[entry].prev in node
    ensures var ring := rings[free[entry]];
            && (node[entry].next == entry <==> |ring| == 1)
            && (heads[free[entry]] == entry <==> j == 0)
            && (|ring| >= 2 ==>
                  Ring(Unlinked(node, entry), if j == 0 then node[entry].next
                      else heads[free[entry]], Without(ring, j)))
  {
    NeighboursListed(node, heads, rings, free, entry);
    var k := free[entry];
    var ring := rings[k];
    assert Ring(node, heads[k], ring);
    WithoutMembers(ring, j);
    if |ring| >= 2 {
      UnlinkedRing(node, ring, j);
      assert node[entry].next == ring[Succ(j, |ring|)] && Succ(j, |ring|) != j;
    } else {
      assert ring[0] == entry && Succ(0, 1) == 0;
      assert node[ring[0]].next == ring[0];
    }
  }

  lemma OneRing(node: Nodes, heads: map<int, Addr>, rings: Rings, k: int)
    requires Circles(node, heads, rings) && k in rings
    ensures k in heads && Ring(node, heads[k], rings[k])
  {
  }

  /** Removing `entry` (the `j`th of its circle) from the lists. */
  lemma ListsRemove(node: Nodes, heads: map<int, Addr>, rings: Rings, free: map<Addr, int>, entry: Addr, j: nat)
    requires Lists(node, heads, rings, free)
    requires entry in free && free[entry] in rings
    requires j < |rings[free[entry]]| && rings[free[entry]][j] == entry
    ensures entry in node && node[entry].next in node && node[entry].prev in node
    ensures var k := free[entry];
            var ring := rings[k];
            && (|ring| == 1 ==> Lists(Unlinked(node, entry), heads - {k}, rings - {k}, free - {entry}))
            && (|ring| >= 2 ==>
                  && Lists(Unlinked(node, entry),
                           heads[k := if j == 0 then node[entry].next else heads[k]],
                           rings[k := Without(ring, j)], free - {entry}))
  {
    hide Ring, Listing, Unlinked, Without;
    OwnRing(node, heads, rings, free, entry, j);
    OneRing(node, heads, rings, free[entry]);
    forall k | k in rings && k != free[entry] ensures Ring(Unlinked(node, entry), heads[k], rings[k]) {
      OtherRings(node, heads, rings, free, entry, k);
    }
    ListingRemoved(node, heads, rings, free, entry, j);
  }

  lemma ListingRemoved(node: Nodes, heads: map<int, Addr>, rings: Rings, free: map<Addr, int>, entry: Addr, j: nat)
    requires Listing(rings, free) && entry in free && free[entry] in rings
    requires free[entry] in heads && Ring(node, heads[free[entry]], rings[free[entry]])
    requires j < |rings[free[entry]]| && rings[free[entry]][j] == entry
    ensures var k := free[entry];
            && (|rings[k]| == 1 ==> Listing(rings - {k}, free - {entry}))
            && (|rings[k]| >= 2 ==> Listing(rings[k := Without(rings[k], j)], free - {entry}))
  {
    var ring := rings[free[entry]];
    WithoutMembers(ring, j);
    hide Linked, Distinct, Without;
    if |ring| == 1 {
      assert ring == [entry];
    }
  }

  lemma LinkedFront(node: Nodes, heads: map<int, Addr>, rings: Rings, free: map<Addr, int>, entry: Addr, k: int)
    requires Lists(node, heads, rings, free)
    requires entry in node && entry !in free && k in heads
    ensures heads[k] in node && node[heads[k]].prev in node
    ensures heads[k] in free && free[heads[k]] == k && node[heads[k]].prev in free && free[node[heads[k]].prev] == k
    ensures Ring(LinkedBefore(node, entry, heads[k]), entry, [entry] + rings[k])
  {
    var ring := rings[k];
    assert Ring(node, heads[k], ring);
    assert ring[0] in ring;
    NeighboursListed(node, heads, rings, free, heads[k]);
    LinkedBeforeRing(node, ring, entry);
  }

  /** Adding a block that is on no list. */
  lemma ListsAdd(node: Nodes, heads: map<int, Addr>, rings: Rings, free: map<Addr, int>, entry: Addr, k: int)
    requires Lists(node, heads, rings, free)
    requires entry in node && entry !in free
    ensures k in heads ==>
              && heads[k] in node && node[heads[k]].prev in node
              && Lists(LinkedBefore(node, entry, heads[k]), heads[k := entry],
                       rings[k := [entry] + rings[k]], free[entry := k])
    ensures k !in heads ==>
              Lists(node[entry := node[entry].(prev := entry, next := entry)], heads[k := entry],
                    rings[k := [entry]], free[entry := k])
  {
    hide Ring, Listing, LinkedBefore;
    if k in heads {
      LinkedFront(node, heads, rings, free, entry, k);
      forall k' | k' in rings && k' != k ensures Ring(LinkedBefore(node, entry, heads[k]), heads[k'], rings[k']) {
        LinkedElsewhere(node, heads, rings, free, entry, k, k');
      }
    } else {
      var node' := node[entry := node[entry].(prev := entry, next := entry)];
      forall k' | k' in rings ensures Ring(node', heads[k'], rings[k']) {
        AloneElsewhere(node, heads, rings, free, entry, k');
      }
      OneBlock(node, entry);
    }
    ListingAdded(rings, free, entry, k);
  }

  lemma OneBlock(node: Nodes, entry: Addr)
    requires entry in node
    ensures Ring(node[entry := node[entry].(prev := entry, next := entry)], entry, [entry])
  {
  }

  lemma LinkedElsewhere(node: Nodes, heads: map<int, Addr>, rings: Rings, free: map<Addr, int>, entry: Addr, k: int,
                        k': int)
    requires Lists(node, heads, rings, free) && entry in node && entry !in free && k in heads && k' in rings && k' != k
    requires heads[k] in node && node[heads[k]].prev in node
    requires heads[k] in free && free[heads[k]] == k && node[heads[k]].prev in free && free[node[heads[k]].prev] == k
    ensures Ring(LinkedBefore(node, entry, heads[k]), heads[k'], rings[k'])
  {
    hide Ring;
    forall a | a in rings[k']
      ensures a in node && a != entry && a != heads[k] && a != node[heads[k]].prev
    {
      assert free[a] == k';
      NeighboursListed(node, heads, rings, free, a);
    }
    RingFrame(node, LinkedBefore(node, entry, heads[k]), heads[k'], rings[k']);
  }

  lemma AloneElsewhere(node: Nodes, heads: map<int, Addr>, rings: Rings, free: map<Addr, int>, entry: Addr, k': int)
    requires Lists(node, heads, rings, free) && entry in node && entry !in free && k' in rings
    ensures Ring(node[entry := node[entry].(prev := entry, next := entry)], heads[k'], rings[k'])
  {
    hide Ring;
    forall a | a in rings[k'] ensures a in node && a != entry {
      assert free[a] == k';
      NeighboursListed(node, heads, rings, free, a);
    }
    RingFrame(node, node[entry := node[entry].(prev := entry, next := entry)], heads[k'], rings[k']);
  }

  lemma ListingAdded(rings: Rings, free: map<Addr, int>, entry: Addr, k: int)
    requires Listing(rings, free) && entry !in free
    ensures Listing(rings[k := if k in rings then [entry] + rings[k] else [entry]], free[entry := k])
  {
  }
}
