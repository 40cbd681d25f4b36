/** Boundary tags: how slabs are tiled by blocks.

    A slab is a stretch of memory.  Between any two neighbouring blocks, and at
    both ends of the slab, sits a `BetweenBlocks` tag with the signed sizes of
    the block before and the block after it: negative when the block is in use,
    positive when it is free, zero where the slab ends.  `Tiled` says that the
    tags describe exactly the given blocks; the lemmas below say what marking,
    breaking and merging a block and adding a slab do to the tiling.
 */
module BoundaryTags {
  import opened FreeRings

  /** sizeof(BetweenBlocks) */
  const TAG := 8
  /** sizeof(FreeBlock) */
  const MIN_BLOCK := 24
  /** One section of ref space, 64MB. */
  const SECTION := 0x400_0000

  datatype Tag = Tag(before: int, after: int)
  datatype Slab = Slab(refEnd: int, addr: Addr, size: int)
  /** A block of the given slab; its size is negative while it is in use. */
  datatype Block = Block(slab: nat, size: int)

  type Tags = map<Addr, Tag>
  type Blocks = map<Addr, Block>

  function Abs(x: int): (r: nat) { if x < 0 then -x else x }

  /** The address of the tag after the block at `a`. */
  function EndOf(blocks: Blocks, a: Addr): (r: Addr)
    requires a in blocks
  {
    a + Abs(blocks[a].size)
  }

  ghost predicate SlabsOk(slabs: seq<Slab>) {
    && (forall k :: 0 <= k < |slabs| ==> slabs[k].addr > 0 && 2 * TAG + MIN_BLOCK <= slabs[k].size <= SECTION)
    && (forall j, k :: 0 <= j < k < |slabs| ==>
          slabs[j].addr + slabs[j].size <= slabs[k].addr || slabs[k].addr + slabs[k].size <= slabs[j].addr)
  }

  /** The tag before the block at `a` carries its size, and leads to a block of the same
      slab or marks the slab's start. */
  ghost predicate LeftOk(tag: Tags, slabs: seq<Slab>, blocks: Blocks, a: Addr)
    requires a in blocks
  {
    var b := blocks[a];
    && b.slab < |slabs|
    && slabs[b.slab].addr + TAG <= a
    && a - TAG in tag && tag[a - TAG].after == b.size
    && (if tag[a - TAG].before == 0 then a - TAG == slabs[b.slab].addr
        else PrevOf(tag, a) in blocks && blocks[PrevOf(tag, a)] == Block(b.slab, tag[a - TAG].before))
  }

  /** The tag after the block at `a` carries its size, and leads to a block of the same
      slab or marks the slab's end. */
  ghost predicate RightOk(tag: Tags, slabs: seq<Slab>, blocks: Blocks, a: Addr)
    requires a in blocks
  {
    var b, e := blocks[a], EndOf(blocks, a);
    && b.slab < |slabs|
    && e + TAG <= slabs[b.slab].addr + slabs[b.slab].size
    && e in tag && tag[e].before == b.size
    && (if tag[e].after == 0 then e + TAG == slabs[b.slab].addr + slabs[b.slab].size
        else e + TAG in blocks && blocks[e + TAG] == Block(b.slab, tag[e].after))
  }

  ghost predicate BlockOk(tag: Tags, slabs: seq<Slab>, blocks: Blocks, a: Addr)
    requires a in blocks
  {
    MIN_BLOCK <= Abs(blocks[a].size) && LeftOk(tag, slabs, blocks, a) && RightOk(tag, slabs, blocks, a)
  }

  /** Where the tag before `a` says the previous block starts. */
  function PrevOf(tag: Tags, a: Addr): (r: Addr)
    requires a - TAG in tag
  {
    a - TAG - Abs(tag[a - TAG].before)
  }

  ghost predicate Apart(blocks: Blocks) {
    forall a, b :: a in blocks && b in blocks && a < b ==> EndOf(blocks, a) + TAG <= b
  }

  ghost predicate Bordered(tag: Tags, slabs: seq<Slab>, blocks: Blocks) {
    forall a {:trigger BlockOk(tag, slabs, blocks, a)} :: a in blocks ==> BlockOk(tag, slabs, blocks, a)
  }

  /** Every slab starts with a tag and then a block. */
  ghost predicate Started(slabs: seq<Slab>, blocks: Blocks) {
    forall k :: 0 <= k < |slabs| ==> slabs[k].addr + TAG in blocks && blocks[slabs[k].addr + TAG].slab == k
  }

  ghost predicate Tiled(tag: Tags, slabs: seq<Slab>, blocks: Blocks) {
    SlabsOk(slabs) && Bordered(tag, slabs, blocks) && Apart(blocks) && Started(slabs, blocks)
  }

  /** Every block starts and ends on a multiple of 8. */
  ghost predicate Aligned(blocks: Blocks) {
    forall a :: a in blocks ==> a % 8 == 0 && blocks[a].size % 8 == 0
  }

  /** No two neighbouring blocks are both free. */
  ghost predicate Coalesced(blocks: Blocks) {
    forall a, c :: a in blocks && c in blocks && c == EndOf(blocks, a) + TAG && blocks[a].size > 0 ==>
        blocks[c].size < 0
  }

  /** Two neighbouring blocks may both be free only if one of them is `x`. */
  ghost predicate CoalescedBut(blocks: Blocks, x: Addr) {
    forall a, c :: a in blocks && c in blocks && c == EndOf(blocks, a) + TAG && blocks[a].size > 0 && a != x && c != x
                   ==> blocks[c].size < 0
  }

  /** The free blocks with their sizes. */
  function Free(blocks: Blocks): (r: map<Addr, int>) {
    map a | a in blocks && blocks[a].size > 0 :: blocks[a].size
  }

  /** The blocks in use. */
  function InUse(blocks: Blocks): (r: Blocks) {
    map a | a in blocks && blocks[a].size < 0 :: blocks[a]
  }

  /** How the block at `c`, and the blocks its tags lead to, lie around the block at `a`. */
  ghost predicate Around(tag: Tags, blocks: Blocks, c: Addr, a: Addr)
    requires c in blocks && a in blocks
  {
    && c - TAG in tag && EndOf(blocks, c) in tag
    && (c < a ==> EndOf(blocks, c) + TAG <= a)
    && (a < c ==> EndOf(blocks, a) + TAG <= c)
    && (tag[c - TAG].before != 0 ==> (PrevOf(tag, c) == a <==> EndOf(blocks, a) == c - TAG))
    && (tag[c - TAG].before == 0 ==> EndOf(blocks, a) != c - TAG)
    && (tag[EndOf(blocks, c)].after == 0 ==> EndOf(blocks, c) + TAG != a)
  }

  lemma Neighbours(tag: Tags, slabs: seq<Slab>, blocks: Blocks, c: Addr, a: Addr)
    requires Tiled(tag, slabs, blocks) && c in blocks && a in blocks
    ensures BlockOk(tag, slabs, blocks, c) && Around(tag, blocks, c, a)
  {
    assert BlockOk(tag, slabs, blocks, c) && BlockOk(tag, slabs, blocks, a);
    if tag[c - TAG].before != 0 {
      var p := PrevOf(tag, c);
      assert BlockOk(tag, slabs, blocks, p);
      assert a < p ==> EndOf(blocks, a) + TAG <= p;
      assert p < a ==> EndOf(blocks, p) + TAG <= a;
    }
  }

  // ----- one block changes sign -----

  function Retagged(tag: Tags, a: Addr, e: Addr, size: int): (r: Tags)
    requires a - TAG in tag && e in tag && e != a - TAG
  {
    tag[a - TAG := tag[a - TAG].(after := size)][e := tag[e].(before := size)]
  }

  /** A block that was free is in use, or the other way round. */
  function Flipped(blocks: Blocks, a: Addr): (r: Blocks)
    requires a in blocks
    ensures r.Keys == blocks.Keys && r[a] == blocks[a].(size := -blocks[a].size)
  {
    blocks[a := blocks[a].(size := -blocks[a].size)]
  }

  lemma MarkedBlock(tag: Tags, slabs: seq<Slab>, blocks: Blocks, a: Addr, size: int, c: Addr)
    requires a in blocks && c in blocks && Abs(size) == Abs(blocks[a].size)
    requires BlockOk(tag, slabs, blocks, a) && BlockOk(tag, slabs, blocks, c)
    requires Around(tag, blocks, c, a)
    ensures BlockOk(Retagged(tag, a, EndOf(blocks, a), size), slabs, blocks[a := blocks[a].(size := size)], c)
  {
  }

  lemma Marked(tag: Tags, slabs: seq<Slab>, blocks: Blocks, a: Addr, size: int)
    requires Tiled(tag, slabs, blocks) && a in blocks && Abs(size) == Abs(blocks[a].size)
    ensures BlockOk(tag, slabs, blocks, a)
    ensures Tiled(Retagged(tag, a, EndOf(blocks, a), size), slabs, blocks[a := blocks[a].(size := size)])
  {
    assert BlockOk(tag, slabs, blocks, a);
    var tag' := Retagged(tag, a, EndOf(blocks, a), size);
    var blocks' := blocks[a := blocks[a].(size := size)];
    forall c {:trigger BlockOk(tag', slabs, blocks', c)} | c in blocks' ensures BlockOk(tag', slabs, blocks', c) {
      Neighbours(tag, slabs, blocks, c, a);
      MarkedBlock(tag, slabs, blocks, a, size, c);
    }
  }

  // ----- a free block is broken in two -----

  function BrokenTags(tag: Tags, a: Addr, e: Addr, first: int, rest: int): (r: Tags)
    requires a - TAG in tag && e in tag
  {
    var tag1 := tag[e := tag[e].(before := rest)];
    var tag2 := tag1[a - TAG := tag1[a - TAG].(after := first)];
    tag2[a + first := Tag(first, rest)]
  }

  function BrokenBlocks(blocks: Blocks, a: Addr, first: int, rest: int): (r: Blocks)
    requires a in blocks
  {
    blocks[a := blocks[a].(size := first)][a + first + TAG := Block(blocks[a].slab, rest)]
  }

  lemma BrokenInUse(blocks: Blocks, a: Addr, first: int, rest: int)
    requires a in blocks && blocks[a].size > 0 && first > 0 && rest > 0 && a + first + TAG !in blocks
    ensures var r := BrokenBlocks(blocks, a, first, rest);
            && a in r && r[a].size == first && a + first + TAG in r && r[a + first + TAG].size == rest
            && InUse(r) == InUse(blocks)
  {
  }

  lemma BrokenBlock(tag: Tags, slabs: seq<Slab>, blocks: Blocks, a: Addr, first: int, rest: int, c: Addr)
    requires a in blocks && c in blocks && a + first + TAG !in blocks
    requires MIN_BLOCK <= first && MIN_BLOCK <= rest && blocks[a].size == first + TAG + rest
    requires BlockOk(tag, slabs, blocks, a) && BlockOk(tag, slabs, blocks, c)
    requires Around(tag, blocks, c, a)
    ensures BlockOk(BrokenTags(tag, a, EndOf(blocks, a), first, rest), slabs, BrokenBlocks(blocks, a, first, rest), c)
  {
    var tag', blocks' := BrokenTags(tag, a, EndOf(blocks, a), first, rest), BrokenBlocks(blocks, a, first, rest);
    assert LeftOk(tag', slabs, blocks', c);
    assert RightOk(tag', slabs, blocks', c);
  }

  lemma BrokenBordered(tag: Tags, slabs: seq<Slab>, blocks: Blocks, a: Addr, first: int, rest: int)
    requires Tiled(tag, slabs, blocks) && a in blocks && a + first + TAG !in blocks
    requires MIN_BLOCK <= first && MIN_BLOCK <= rest && blocks[a].size == first + TAG + rest
    ensures BlockOk(tag, slabs, blocks, a)
    ensures Bordered(BrokenTags(tag, a, EndOf(blocks, a), first, rest), slabs, BrokenBlocks(blocks, a, first, rest))
  {
    assert BlockOk(tag, slabs, blocks, a);
    var e, m := EndOf(blocks, a), a + first + TAG;
    var tag', blocks' := BrokenTags(tag, a, e, first, rest), BrokenBlocks(blocks, a, first, rest);
    forall c {:trigger BlockOk(tag', slabs, blocks', c)} | c in blocks' ensures BlockOk(tag', slabs, blocks', c) {
      if c == m {
        BrokenRest(tag, slabs, blocks, a, first, rest);
      } else {
        Neighbours(tag, slabs, blocks, c, a);
        BrokenBlock(tag, slabs, blocks, a, first, rest, c);
      }
    }
  }

  lemma BrokenRest(tag: Tags, slabs: seq<Slab>, blocks: Blocks, a: Addr, first: int, rest: int)
    requires a in blocks && a + first + TAG !in blocks && BlockOk(tag, slabs, blocks, a)
    requires MIN_BLOCK <= first && MIN_BLOCK <= rest && blocks[a].size == first + TAG + rest
    ensures BlockOk(BrokenTags(tag, a, EndOf(blocks, a), first, rest), slabs, BrokenBlocks(blocks, a, first, rest),
            a + first + TAG)
  {
  }

  lemma Broken(tag: Tags, slabs: seq<Slab>, blocks: Blocks, a: Addr, first: int, rest: int)
    requires Tiled(tag, slabs, blocks) && a in blocks
    requires MIN_BLOCK <= first && MIN_BLOCK <= rest && blocks[a].size == first + TAG + rest
    ensures BlockOk(tag, slabs, blocks, a)
    ensures a + first + TAG !in blocks
    ensures Tiled(BrokenTags(tag, a, EndOf(blocks, a), first, rest), slabs, BrokenBlocks(blocks, a, first, rest))
  {
    assert a + first + TAG !in blocks;
    BrokenBordered(tag, slabs, blocks, a, first, rest);
    BrokenApart(blocks, a, first, rest);
  }

  lemma BrokenApart(blocks: Blocks, a: Addr, first: int, rest: int)
    requires Apart(blocks) && a in blocks && first > 0 && rest > 0 && blocks[a].size == first + TAG + rest
    ensures Apart(BrokenBlocks(blocks, a, first, rest))
  {
    var blocks' := BrokenBlocks(blocks, a, first, rest);
    forall c, d | c in blocks' && d in blocks' && c < d ensures EndOf(blocks', c) + TAG <= d {
      assert c in blocks || c == a + first + TAG;
      assert d in blocks || d == a + first + TAG;
    }
  }

  // ----- two neighbouring free blocks become one -----

  function MergedBlocks(blocks: Blocks, a: Addr, b: Addr): (r: Blocks)
    requires a in blocks && b in blocks
    ensures r.Keys == blocks.Keys - {b} + {a}
  {
    (blocks - {b})[a := blocks[a].(size := blocks[a].size + TAG + blocks[b].size)]
  }

  lemma MergedInUse(blocks: Blocks, a: Addr, b: Addr)
    requires a in blocks && b in blocks && a != b && blocks[a].size > 0 && blocks[b].size > 0
    ensures a in MergedBlocks(blocks, a, b) && MergedBlocks(blocks, a, b)[a].size > 0
    ensures InUse(MergedBlocks(blocks, a, b)) == InUse(blocks)
  {
  }

  lemma MergedBlock(tag: Tags, slabs: seq<Slab>, blocks: Blocks, a: Addr, b: Addr, c: Addr)
    requires a in blocks && b in blocks && b == EndOf(blocks, a) + TAG && c in blocks && c != b
    requires blocks[a].size > 0 && blocks[b].size > 0
    requires BlockOk(tag, slabs, blocks, a) && BlockOk(tag, slabs, blocks, b) && BlockOk(tag, slabs, blocks, c)
    requires Around(tag, blocks, c, a) && Around(tag, blocks, c, b)
    ensures BlockOk(Retagged(tag, a, EndOf(blocks, b), blocks[a].size + TAG + blocks[b].size), slabs,
            MergedBlocks(blocks, a, b), c)
  {
    var tag' := Retagged(tag, a, EndOf(blocks, b), blocks[a].size + TAG + blocks[b].size);
    var blocks' := MergedBlocks(blocks, a, b);
    assert LeftOk(tag', slabs, blocks', c);
    assert RightOk(tag', slabs, blocks', c);
  }

  lemma MergedBordered(tag: Tags, slabs: seq<Slab>, blocks: Blocks, a: Addr, b: Addr)
    requires Tiled(tag, slabs, blocks) && a in blocks && b in blocks && b == EndOf(blocks, a) + TAG
    requires blocks[a].size > 0 && blocks[b].size > 0
    ensures BlockOk(tag, slabs, blocks, a) && BlockOk(tag, slabs, blocks, b)
    ensures Bordered(Retagged(tag, a, EndOf(blocks, b), blocks[a].size + TAG + blocks[b].size), slabs,
            MergedBlocks(blocks, a, b))
  {
    assert BlockOk(tag, slabs, blocks, a) && BlockOk(tag, slabs, blocks, b);
    hide BlockOk, Retagged, MergedBlocks, Apart, Started, SlabsOk;
    var tag' := Retagged(tag, a, EndOf(blocks, b), blocks[a].size + TAG + blocks[b].size);
    var blocks' := MergedBlocks(blocks, a, b);
    forall c {:trigger BlockOk(tag', slabs, blocks', c)} | c in blocks' ensures BlockOk(tag', slabs, blocks', c) {
      MergedAt(tag, slabs, blocks, a, b, c);
    }
  }

  lemma MergedAt(tag: Tags, slabs: seq<Slab>, blocks: Blocks, a: Addr, b: Addr, c: Addr)
    requires Tiled(tag, slabs, blocks) && a in blocks && b in blocks && b == EndOf(blocks, a) + TAG
    requires blocks[a].size > 0 && blocks[b].size > 0 && c in MergedBlocks(blocks, a, b)
    ensures a - TAG in tag && EndOf(blocks, b) in tag
    ensures BlockOk(Retagged(tag, a, EndOf(blocks, b), blocks[a].size + TAG + blocks[b].size), slabs,
                    MergedBlocks(blocks, a, b), c)
  {
    assert BlockOk(tag, slabs, blocks, a) && BlockOk(tag, slabs, blocks, b);
    assert c in blocks && c != b;
    Neighbours(tag, slabs, blocks, c, a);
    Neighbours(tag, slabs, blocks, c, b);
    hide Tiled, MergedBlocks, Retagged, LeftOk, RightOk, Around;
    MergedBlock(tag, slabs, blocks, a, b, c);
  }

  lemma MergedApart(blocks: Blocks, a: Addr, b: Addr)
    requires Apart(blocks) && a in blocks && b in blocks && b == EndOf(blocks, a) + TAG
    requires blocks[a].size > 0 && blocks[b].size > 0
    ensures Apart(MergedBlocks(blocks, a, b))
  {
    var blocks' := MergedBlocks(blocks, a, b);
    forall c, d | c in blocks' && d in blocks' && c < d ensures EndOf(blocks', c) + TAG <= d {
      if c == a {
        assert b < d;
      }
    }
  }

  lemma Merged(tag: Tags, slabs: seq<Slab>, blocks: Blocks, a: Addr, b: Addr)
    requires Tiled(tag, slabs, blocks) && a in blocks && b in blocks && b == EndOf(blocks, a) + TAG
    requires blocks[a].size > 0 && blocks[b].size > 0
    ensures BlockOk(tag, slabs, blocks, a) && BlockOk(tag, slabs, blocks, b)
    ensures Tiled(Retagged(tag, a, EndOf(blocks, b), blocks[a].size + TAG + blocks[b].size), slabs,
            MergedBlocks(blocks, a, b))
  {
    MergedBordered(tag, slabs, blocks, a, b);
    MergedApart(blocks, a, b);
    var blocks' := MergedBlocks(blocks, a, b);
    forall k | 0 <= k < |slabs|
      ensures slabs[k].addr + TAG in blocks' && blocks'[slabs[k].addr + TAG].slab == k
    {
      assert slabs[k].addr + TAG != b;
    }
  }

  // ----- a slab is added as one free block -----

  /** The tags of a slab that is a single free block. */
  function WholeSlabTags(tag: Tags, slab: Slab): (r: Tags) {
    tag[slab.addr := Tag(0, slab.size - 2 * TAG)][slab.addr + slab.size - TAG := Tag(slab.size - 2 * TAG, 0)]
  }

  /** Old blocks lie clear of a new slab and keep their borders. */
  lemma OldBlock(tag: Tags, slabs: seq<Slab>, blocks: Blocks, slab: Slab, c: Addr)
    requires Tiled(tag, slabs, blocks) && SlabsOk(slabs + [slab]) && c in blocks
    ensures EndOf(blocks, c) + TAG <= slab.addr || slab.addr + slab.size <= c - TAG
    ensures slab.addr + TAG !in blocks ==>
              BlockOk(WholeSlabTags(tag, slab), slabs + [slab],
                      blocks[slab.addr + TAG := Block(|slabs|, slab.size - 2 * TAG)], c)
  {
    assert BlockOk(tag, slabs, blocks, c);
    var slabs', k := slabs + [slab], blocks[c].slab;
    assert slabs'[k] == slabs[k] && slabs'[|slabs|] == slab;
  }

  lemma SlabAdded(tag: Tags, slabs: seq<Slab>, blocks: Blocks, slab: Slab)
    requires Tiled(tag, slabs, blocks) && SlabsOk(slabs + [slab])
    ensures slab.addr + TAG !in blocks
    ensures Tiled(WholeSlabTags(tag, slab), slabs + [slab],
                  blocks[slab.addr + TAG := Block(|slabs|, slab.size - 2 * TAG)])
  {
    var slabs', tag' := slabs + [slab], WholeSlabTags(tag, slab);
    var n, s := |slabs|, slab.addr + TAG;
    assert slabs'[n] == slab;
    if s in blocks {
      OldBlock(tag, slabs, blocks, slab, s);
    }
    var blocks' := blocks[s := Block(n, slab.size - 2 * TAG)];
    assert BlockOk(tag', slabs', blocks', s);
    forall c {:trigger BlockOk(tag', slabs', blocks', c)} | c in blocks' ensures BlockOk(tag', slabs', blocks', c) {
      if c != s {
        OldBlock(tag, slabs, blocks, slab, c);
      }
    }
    forall c, d | c in blocks' && d in blocks' && c < d ensures EndOf(blocks', c) + TAG <= d {
      if c == s {
        OldBlock(tag, slabs, blocks, slab, d);
      } else if d == s {
        OldBlock(tag, slabs, blocks, slab, c);
      }
    }
  }

  // ----- coalescing -----

  /** Breaking a free block and using its first part keeps free blocks apart. */
  lemma BrokenCoalesced(blocks: Blocks, a: Addr, first: int, rest: int)
    requires Apart(blocks) && Coalesced(blocks) && a in blocks
    requires first > 0 && rest > 0 && blocks[a].size == first + TAG + rest
    ensures a in BrokenBlocks(blocks, a, first, rest)
    ensures Coalesced(Flipped(BrokenBlocks(blocks, a, first, rest), a))
  {
    var m := a + first + TAG;
    var blocks' := Flipped(BrokenBlocks(blocks, a, first, rest), a);
    assert m != a && blocks'[m].size == rest && blocks'[a].size == -first;
    assert forall c :: c in blocks' && c != m && c != a ==> c in blocks && blocks'[c] == blocks[c];
    hide BrokenBlocks, Flipped;
    forall c, d | c in blocks' && d in blocks' && d == EndOf(blocks', c) + TAG && blocks'[c].size > 0
      ensures blocks'[d].size < 0
    {
      if c == m {
        assert d in blocks && d == EndOf(blocks, a) + TAG;
      } else {
        assert c in blocks && EndOf(blocks', c) == EndOf(blocks, c);
        assert d != m;
      }
    }
  }

  /** Absorbing the free block before `a`. */
  lemma MergedPrev(blocks: Blocks, p: Addr, a: Addr)
    requires Apart(blocks) && CoalescedBut(blocks, a) && a in blocks && p in blocks && a == EndOf(blocks, p) + TAG
    requires blocks[a].size > 0 && blocks[p].size > 0
    ensures CoalescedBut(MergedBlocks(blocks, p, a), p)
    ensures forall c :: c in MergedBlocks(blocks, p, a) && EndOf(MergedBlocks(blocks, p, a), c) + TAG == p ==>
              MergedBlocks(blocks, p, a)[c].size <= 0
  {
    var blocks' := MergedBlocks(blocks, p, a);
    forall c | c in blocks' && EndOf(blocks', c) + TAG == p ensures blocks'[c].size <= 0 {
      assert c != p && c != a && EndOf(blocks, c) == EndOf(blocks', c);
    }
    forall c, d | c in blocks' && d in blocks' && d == EndOf(blocks', c) + TAG && blocks'[c].size > 0 && c != p &&
        d != p
      ensures blocks'[d].size < 0
    {
      assert c in blocks && EndOf(blocks', c) == EndOf(blocks, c);
    }
  }

  /** Absorbing the free block after `a`, when the one before `a` is not free. */
  lemma MergedNext(blocks: Blocks, a: Addr, n: Addr)
    requires Apart(blocks) && CoalescedBut(blocks, a) && a in blocks && n in blocks && n == EndOf(blocks, a) + TAG
    requires blocks[a].size > 0 && blocks[n].size > 0
    requires forall c :: c in blocks && EndOf(blocks, c) + TAG == a ==> blocks[c].size <= 0
    ensures Coalesced(MergedBlocks(blocks, a, n))
  {
    var blocks' := MergedBlocks(blocks, a, n);
    forall c, d | c in blocks' && d in blocks' && d == EndOf(blocks', c) + TAG && blocks'[c].size > 0
      ensures blocks'[d].size < 0
    {
      if c == a {
        assert d == EndOf(blocks, n) + TAG && d in blocks;
      } else {
        assert EndOf(blocks', c) == EndOf(blocks, c);
      }
    }
  }

  // ----- the tiling is determined by what is in use -----

  /** Two coalesced tilings of the same slabs with the same blocks in use are the same tiling. */
  lemma SameTiling(tag: Tags, blocks: Blocks, tag': Tags, blocks': Blocks, slabs: seq<Slab>)
    requires Tiled(tag, slabs, blocks) && Tiled(tag', slabs, blocks')
    requires Coalesced(blocks) && Coalesced(blocks')
    requires InUse(blocks) == InUse(blocks')
    ensures blocks == blocks'
  {
    forall a | a in blocks ensures a in blocks' && blocks'[a] == blocks[a] {
      SameBlock(tag, blocks, tag', blocks', slabs, a);
    }
    forall a | a in blocks' ensures a in blocks {
      SameBlock(tag', blocks', tag, blocks, slabs, a);
    }
  }

  lemma {:induction false} SameBlock(tag: Tags, blocks: Blocks, tag': Tags, blocks': Blocks, slabs: seq<Slab>, a: Addr)
    requires Tiled(tag, slabs, blocks) && Tiled(tag', slabs, blocks')
    requires Coalesced(blocks) && Coalesced(blocks')
    requires InUse(blocks) == InUse(blocks')
    requires a in blocks
    ensures a in blocks' && blocks'[a] == blocks[a]
    decreases a
  {
    hide Tiled, Coalesced, InUse;
    BlockBefore(tag, slabs, blocks, a);
    if tag[a - TAG].before != 0 {
      SameBlock(tag, blocks, tag', blocks', slabs, PrevOf(tag, a));
    }
    SamePlace(tag, blocks, tag', blocks', slabs, a);
    SameSize(tag, blocks, tag', blocks', slabs, a);
  }

  /** The tag before a block leads to the block before it, if there is one. */
  lemma BlockBefore(tag: Tags, slabs: seq<Slab>, blocks: Blocks, a: Addr)
    requires Tiled(tag, slabs, blocks) && a in blocks
    ensures a - TAG in tag && 0 < a
    ensures tag[a - TAG].before != 0 ==>
              PrevOf(tag, a) in blocks && 0 < PrevOf(tag, a) < a && EndOf(blocks, PrevOf(tag, a)) + TAG == a
  {
    assert BlockOk(tag, slabs, blocks, a);
    assert slabs[blocks[a].slab].addr > 0;
    if tag[a - TAG].before != 0 {
      assert BlockOk(tag, slabs, blocks, PrevOf(tag, a));
    }
  }

  lemma SamePlace(tag: Tags, blocks: Blocks, tag': Tags, blocks': Blocks, slabs: seq<Slab>, a: Addr)
    requires Tiled(tag, slabs, blocks) && Tiled(tag', slabs, blocks') && a in blocks && a - TAG in tag
    requires tag[a - TAG].before != 0 ==>
               && PrevOf(tag, a) in blocks && EndOf(blocks, PrevOf(tag, a)) + TAG == a
               && PrevOf(tag, a) in blocks' && blocks'[PrevOf(tag, a)] == blocks[PrevOf(tag, a)]
    ensures a in blocks' && blocks'[a].slab == blocks[a].slab
  {
    assert BlockOk(tag, slabs, blocks, a);
    if tag[a - TAG].before != 0 {
      var p := PrevOf(tag, a);
      assert BlockOk(tag, slabs, blocks, p);
      assert BlockOk(tag', slabs, blocks', p);
    }
  }

  lemma SameSize(tag: Tags, blocks: Blocks, tag': Tags, blocks': Blocks, slabs: seq<Slab>, a: Addr)
    requires Tiled(tag, slabs, blocks) && Tiled(tag', slabs, blocks')
    requires Coalesced(blocks) && Coalesced(blocks') && InUse(blocks) == InUse(blocks')
    requires a in blocks && a in blocks' && blocks'[a].slab == blocks[a].slab
    ensures blocks'[a] == blocks[a]
  {
    assert a in InUse(blocks) <==> blocks[a].size < 0;
    assert a in InUse(blocks') <==> blocks'[a].size < 0;
    assert BlockOk(tag, slabs, blocks, a) && BlockOk(tag', slabs, blocks', a);
    hide Tiled, Coalesced, BlockOk;
    if blocks[a].size < 0 {
      assert InUse(blocks)[a] == InUse(blocks')[a];
    } else {
      assert blocks[a].size != 0 && blocks'[a].size != 0;
      SameFreeSize(tag, blocks, tag', blocks', slabs, a);
      SameFreeSize(tag', blocks', tag, blocks, slabs, a);
    }
  }

  lemma SameFreeSize(tag: Tags, blocks: Blocks, tag': Tags, blocks': Blocks, slabs: seq<Slab>, a: Addr)
    requires Tiled(tag, slabs, blocks) && Tiled(tag', slabs, blocks') && Coalesced(blocks)
    requires InUse(blocks) == InUse(blocks')
    requires a in blocks && a in blocks' && blocks[a].slab == blocks'[a].slab
    requires blocks[a].size > 0 && blocks'[a].size > 0
    ensures blocks'[a].size <= blocks[a].size
  {
    assert BlockOk(tag, slabs, blocks, a) && BlockOk(tag', slabs, blocks', a);
    var e := EndOf(blocks, a);
    if tag[e].after != 0 {
      assert e + TAG in InUse(blocks);
      assert e + TAG in InUse(blocks');
    }
  }

  /** With nothing in use, every slab is one free block. */
  lemma AllFree(tag: Tags, slabs: seq<Slab>, blocks: Blocks)
    requires Tiled(tag, slabs, blocks) && Coalesced(blocks) && InUse(blocks) == map[]
    ensures blocks.Keys == set k | 0 <= k < |slabs| :: slabs[k].addr + TAG
    ensures forall k :: 0 <= k < |slabs| ==>
              slabs[k].addr + TAG in blocks && blocks[slabs[k].addr + TAG] == Block(k, slabs[k].size - 2 * TAG)
  {
    forall a | a in blocks
      ensures blocks[a].slab < |slabs| && a == slabs[blocks[a].slab].addr + TAG
      ensures blocks[a].size == slabs[blocks[a].slab].size - 2 * TAG
    {
      assert a !in InUse(blocks);
      assert BlockOk(tag, slabs, blocks, a);
      var e := EndOf(blocks, a);
      var p := PrevOf(tag, a);
      assert p !in InUse(blocks) && e + TAG !in InUse(blocks);
    }
  }
}
