/** The slab allocator.

    Memory is seen through two typed windows: `tag` holds the `BetweenBlocks`
    words and `node` the `FreeBlock` words, both keyed by address.  Every write
    of the source to such a word is a write to one of the two maps; the payload
    of a block in use belongs to the client, who may change it at will
    (`ClientWrites`).  The ghost fields say what the words mean: which blocks
    there are, in which circles the free ones are linked, and which size each
    block in use was requested with.
 */
module SlabAllocator {
  import opened Options
  import opened FreeRings
  import opened BoundaryTags
  import opened ReadOnlySpace
  import opened Retirement
  import opened SlabState

  class SlabAlloc {
    var tag: Tags
    var node: Nodes
    /** m_block_map: from each size to the header of its circle of free blocks. */
    var heads: map<int, Addr>
    var slabs: seq<Slab>
    var baseline: int
    /** The mapping addresses of the translation table, one for each section. */
    var table: seq<Addr>
    /** The primary mappings of the file's sections. */
    var mappings: seq<Addr>
    /** How many bytes each of them shows. */
    var lengths: seq<int>
    var oldMappings: seq<OldMapping>
    var oldTables: seq<OldTable>
    var youngest: int
    var freeReadOnly: Chunks
    /** m_free_space_state: Dirty or Clean. */
    var dirty: bool
    var commitSize: int

    ghost var blocks: Blocks
    ghost var rings: Rings
    ghost var requested: map<Addr, int>

    ghost predicate Valid()
      reads this
    {
      && Shaped(tag, slabs, blocks, baseline, table, mappings)
      && Coalesced(blocks)
      && Listed(node, heads, rings, slabs, blocks, {})
      && Requests(InUse(blocks), requested)
      && Retained(mappings, oldMappings, oldTables, youngest)
      && |lengths| == |mappings| && Shown(baseline, lengths)
      && Runs(freeReadOnly)
      && (!dirty ==> requested == map[] && freeReadOnly == map[])
    }

    // ----- free lists -----

    method Unlink(entry: Addr)
      requires entry in node && node[entry].next in node && node[entry].prev in node
      modifies this`node
      ensures node == Unlinked(old(node), entry)
    {
      var n, p := node[entry].next, node[entry].prev;
      node := node[n := node[n].(prev := node[entry].prev)];
      node := node[p := node[p].(next := n)];
      node := node[entry := node[entry].(prev := NULL, next := NULL)];
    }

    /** Takes the header off the circle of size `k`; the next block becomes the header. */
    method PopFreelistEntry(k: int) returns (entry: Addr)
      requires Listed(node, heads, rings, slabs, blocks, {}) && k in heads
      modifies this`node, this`heads, this`rings
      ensures entry == old(heads[k]) && entry in blocks && blocks[entry].size == k && k > 0
      ensures Listed(node, heads, rings, slabs, blocks, {entry})
    {
      entry := heads[k];
      ghost var free := Free(blocks);
      assert free - {} == free;
      assert Ring(node, heads[k], rings[k]);
      assert rings[k][0] == entry && entry in rings[k];
      ListsRemove(node, heads, rings, free, entry, 0);
      OwnRing(node, heads, rings, free, entry, 0);
      var header := node[entry].next;
      if header == entry {
        heads := heads - {k};
        rings := rings - {k};
      } else {
        heads := heads[k := header];
        rings := rings[k := Without(rings[k], 0)];
      }
      Unlink(entry);
    }

    /** Takes a given free block off the circle of its size. */
    method RemoveFreelistEntry(entry: Addr, ghost loose: set<Addr>)
      requires Listed(node, heads, rings, slabs, blocks, loose)
      requires entry in blocks && blocks[entry].size > 0 && entry !in loose
      requires entry - TAG in tag && tag[entry - TAG].after == blocks[entry].size
      modifies this`node, this`heads, this`rings
      ensures Listed(node, heads, rings, slabs, blocks, loose + {entry})
    {
      var size := tag[entry - TAG].after;
      ghost var free := Free(blocks) - loose;
      assert entry in free && free[entry] == size;
      assert size in rings && entry in rings[size];
      ghost var j :| 0 <= j < |rings[size]| && rings[size][j] == entry;
      ListsRemove(node, heads, rings, free, entry, j);
      OwnRing(node, heads, rings, free, entry, j);
      assert free - {entry} == Free(blocks) - (loose + {entry});
      var header := heads[size];
      ghost var alone := |rings[size]| == 1;
      if header == entry {
        header := node[entry].next;
        if header == entry {
          heads := heads - {size};
        } else {
          heads := heads[size := header];
        }
      }
      rings := if alone then rings - {size} else rings[size := Without(rings[size], j)];
      Unlink(entry);
    }

    method LinkBefore(entry: Addr, header: Addr)
      requires entry in node && header in node && node[header].prev in node && entry != header
      modifies this`node
      ensures node == LinkedBefore(old(node), entry, header)
    {
      node := node[entry := node[entry].(next := header)];
      node := node[entry := node[entry].(prev := node[header].prev)];
      var p, n := node[entry].prev, node[entry].next;
      node := node[p := node[p].(next := entry)];
      node := node[n := node[n].(prev := entry)];
    }

    /** Puts a loose free block in front of the circle of its size. */
    method PushFreelistEntry(entry: Addr, ghost loose: set<Addr>)
      requires Listed(node, heads, rings, slabs, blocks, loose)
      requires entry in blocks && blocks[entry].size > 0 && entry in loose
      requires entry - TAG in tag && tag[entry - TAG].after == blocks[entry].size
      modifies this`node, this`heads, this`rings
      ensures Listed(node, heads, rings, slabs, blocks, loose - {entry})
      ensures heads == old(heads)[blocks[entry].size := entry]
    {
      var size := tag[entry - TAG].after;
      ghost var free := Free(blocks) - loose;
      ListsAdd(node, heads, rings, free, entry, size);
      if size in heads {
        LinkedFront(node, heads, rings, free, entry, size);
      }
      assert free[entry := size] == Free(blocks) - (loose - {entry});
      if size in heads {
        var header := heads[size];
        heads := heads[size := entry];
        rings := rings[size := [entry] + rings[size]];
        LinkBefore(entry, header);
      } else {
        heads := heads[size := entry];
        rings := rings[size := [entry]];
        node := node[entry := node[entry].(prev := entry, next := entry)];
      }
    }

    // ----- blocks and tags -----

    /** Negates the size of a free block in both bordering tags. */
    method MarkAllocated(entry: Addr)
      requires Shaped(tag, slabs, blocks, baseline, table, mappings) && entry in blocks && blocks[entry].size > 0
      modifies this`tag, this`blocks
      ensures Shaped(tag, slabs, blocks, baseline, table, mappings)
      ensures blocks == Flipped(old(blocks), entry)
    {
      hide Tiled, Sections;
      Marked(tag, slabs, blocks, entry, -blocks[entry].size);
      var bb := entry - TAG;
      assert tag[bb].after > 0;
      var bb2 := entry + tag[bb].after;
      tag := tag[bb := tag[bb].(after := 0 - tag[bb].after)];
      assert tag[bb2].before > 0;
      tag := tag[bb2 := tag[bb2].(before := 0 - tag[bb2].before)];
      blocks := Flipped(blocks, entry);
    }

    /** Makes a block in use free again in both bordering tags; the asserts are the source's checks. */
    method MarkFreed(entry: Addr, size: int)
      requires Shaped(tag, slabs, blocks, baseline, table, mappings) && entry in blocks && blocks[entry].size < 0
      requires size <= -blocks[entry].size <= size + MIN_BLOCK + TAG
      modifies this`tag, this`blocks
      ensures Shaped(tag, slabs, blocks, baseline, table, mappings)
      ensures blocks == Flipped(old(blocks), entry)
      ensures Flipped(blocks, entry) == old(blocks)
    {
      hide Tiled, Sections;
      Marked(tag, slabs, blocks, entry, -blocks[entry].size);
      var bb := entry - TAG;
      assert tag[bb].after < 0;
      var allocSize := -tag[bb].after;
      assert allocSize >= size && allocSize <= size + (MIN_BLOCK + TAG);
      tag := tag[bb := tag[bb].(after := allocSize)];
      bb := entry + tag[bb].after;
      assert tag[bb].before < 0 && -tag[bb].before == allocSize;
      tag := tag[bb := tag[bb].(before := allocSize)];
      blocks := blocks[entry := blocks[entry].(size := allocSize)];
    }

    /** Gives a loose free block the size `newSize` and makes the rest a block of its own,
        unless the rest is too small to be one. */
    method BreakBlock(block: Addr, newSize: int) returns (remaining: Addr)
      requires Shaped(tag, slabs, blocks, baseline, table, mappings) && block in blocks && blocks[block].size > 0
      requires Listed(node, heads, rings, slabs, blocks, {block})
      requires MIN_BLOCK <= newSize && newSize % 8 == 0
      modifies this`tag, this`node, this`blocks
      ensures Shaped(tag, slabs, blocks, baseline, table, mappings)
      ensures remaining == NULL <==> old(blocks[block].size) < newSize + TAG + MIN_BLOCK
      ensures remaining == NULL ==> unchanged(this)
      ensures remaining != NULL ==>
                && remaining == block + newSize + TAG && remaining !in old(blocks)
                && blocks == BrokenBlocks(old(blocks), block, newSize, old(blocks[block].size) - (newSize + TAG))
                && Listed(node, heads, rings, slabs, blocks, {block, remaining})
    {
      hide Lists, Apart;
      assert BlockOk(tag, slabs, blocks, block);
      var size := tag[block - TAG].after;
      var remainingSize := size - (newSize + TAG);
      if remainingSize < MIN_BLOCK {
        return NULL;
      }
      BrokenShaped(tag, slabs, blocks, baseline, table, mappings, block, newSize, remainingSize);
      BrokenListed(node, heads, rings, slabs, blocks, block, newSize, remainingSize);
      remaining := BreakTags(block, size, newSize, remainingSize);
      node := node[remaining := FreeBlock(node[block].ref + newSize + TAG, NULL, NULL)];
      node := node[block := node[block].(prev := NULL, next := NULL)];
      blocks := BrokenBlocks(blocks, block, newSize, remainingSize);
    }

    method BreakTags(block: Addr, size: int, newSize: int, remainingSize: int) returns (remaining: Addr)
      requires block - TAG in tag && tag[block - TAG].after == size && block + size in tag
      requires 0 < newSize && 0 < remainingSize && size == newSize + TAG + remainingSize
      modifies this`tag
      ensures tag == BrokenTags(old(tag), block, block + size, newSize, remainingSize)
      ensures remaining == block + newSize + TAG
    {
      var after := block + tag[block - TAG].after;
      tag := tag[after := tag[after].(before := remainingSize)];
      tag := tag[block - TAG := tag[block - TAG].(after := newSize)];
      var between := block + tag[block - TAG].after;
      tag := tag[between := Tag(newSize, remainingSize)];
      remaining := between + TAG;
    }

    /** Makes two neighbouring loose free blocks one. */
    method MergeBlocks(first: Addr, last: Addr, ghost loose: set<Addr>) returns (block: Addr)
      requires Shaped(tag, slabs, blocks, baseline, table, mappings) && first in blocks && last in blocks
      requires blocks[first].size > 0 && blocks[last].size > 0 && last == EndOf(blocks, first) + TAG
      requires Listed(node, heads, rings, slabs, blocks, loose) && first in loose && last in loose
      modifies this`tag, this`blocks
      ensures block == first
      ensures Shaped(tag, slabs, blocks, baseline, table, mappings)
      ensures blocks == MergedBlocks(old(blocks), first, last)
      ensures Listed(node, heads, rings, slabs, blocks, loose - {last})
    {
      hide Shaped, Listed, MergedBlocks;
      MergedShaped(tag, node, heads, rings, slabs, blocks, baseline, table, mappings, first, last, loose);
      var sizeFirst := tag[first - TAG].after;
      var sizeLast := tag[last - TAG].after;
      var newSize := sizeFirst + sizeLast + TAG;
      var after := last + sizeLast;
      tag := tag[first - TAG := tag[first - TAG].(after := newSize)];
      tag := tag[after := tag[after].(before := newSize)];
      blocks := MergedBlocks(blocks, first, last);
      return first;
    }

    // ----- slabs -----

    method GetAllocatedSize() returns (sz: int)
      ensures sz == AllocatedSize(slabs)
    {
      sz := 0;
      var i := 0;
      while i < |slabs|
        invariant 0 <= i <= |slabs| && sz == AllocatedSize(slabs[..i])
      {
        assert slabs[..i + 1][..i] == slabs[..i];
        sz := sz + slabs[i].size;
        i := i + 1;
      }
      assert slabs[..i] == slabs;
    }

    /** Writes the tags and the FreeBlock of a slab that is one free block. */
    method SlabToEntry(slab: Slab, refStart: int) returns (entry: Addr)
      requires slab.refEnd - refStart == slab.size && 2 * TAG < slab.size
      modifies this`tag, this`node
      ensures entry == slab.addr + TAG
      ensures tag == WholeSlabTags(old(tag), slab)
      ensures node == old(node)[entry := FreeBlock(refStart + TAG, NULL, NULL)]
    {
      var blockSize := slab.refEnd - refStart - 2 * TAG;
      tag := tag[slab.addr := Tag(0, blockSize)];
      entry := slab.addr + TAG;
      node := node[entry := FreeBlock(refStart + TAG, NULL, NULL)];
      var bb := entry + tag[entry - TAG].after;
      tag := tag[bb := Tag(blockSize, 0)];
    }

    /** The size of the next slab: at least 128K, at least the request and its tags, as much as
        there is already, but no more than a section. */
    method NewSlabSize(size: int) returns (newSize: int)
      requires 0 < size && forall k :: 0 <= k < |slabs| ==> slabs[k].size >= 0 && slabs[k].size % MINIMAL_ALLOC == 0
      ensures newSize == GrownSize(size, AllocatedSize(slabs))
    {
      var needed := size + 2 * TAG;
      newSize := MINIMAL_ALLOC;
      while newSize < needed
        invariant newSize % MINIMAL_ALLOC == 0 && MINIMAL_ALLOC <= newSize
        invariant newSize == MINIMAL_ALLOC || newSize - MINIMAL_ALLOC < needed
      {
        newSize := newSize + MINIMAL_ALLOC;
      }
      var sz := GetAllocatedSize();
      if newSize < sz {
        newSize := sz;
      }
      if newSize > SECTION {
        newSize := SECTION;
      }
    }

    /** Replaces the table by a copy with one more entry, and keeps the old table. */
    method ExtendFastMappingWithSlab(address: Addr)
      requires 0 < |slabs| <= |table| + 1 && |mappings| == |table| + 1 - |slabs| && table[..|mappings|] == mappings
      requires Retained(mappings, oldMappings, oldTables, youngest)
      modifies this`table, this`oldTables
      ensures table == old(table) + [address]
      ensures oldTables == old(oldTables) + [OldTable(youngest, |mappings|, old(table))]
      ensures Retained(mappings, oldMappings, oldTables, youngest)
    {
      var size := |table| + 1;
      var copy: seq<Addr> := [];
      while |copy| < size - 1
        invariant |copy| <= |table| && copy == table[..|copy|]
      {
        copy := copy + [table[|copy|]];
      }
      var retired := OldTable(youngest, size - |slabs|, table);
      assert TableHeld(mappings, oldMappings, retired) by {
        assert forall i :: 0 <= i < retired.count ==> retired.entries[i] == mappings[i];
      }
      TableRetired(mappings, oldMappings, oldTables, youngest, retired);
      oldTables := oldTables + [retired];
      table := copy + [address];
    }

    /** Records a slab, translates it, and writes its tags. */
    method InstallSlab(slab: Slab, ref: int) returns (block: Addr)
      requires |mappings| == |table| - |slabs| && |slabs| <= |table| && table[..|mappings|] == mappings
      requires Retained(mappings, oldMappings, oldTables, youngest)
      requires slab.refEnd - ref == slab.size && 2 * TAG < slab.size
      modifies this`tag, this`node, this`slabs, this`table, this`oldTables
      ensures block == slab.addr + TAG && slabs == old(slabs) + [slab]
      ensures tag == WholeSlabTags(old(tag), slab) && node == old(node)[block := FreeBlock(ref + TAG, NULL, NULL)]
      ensures table == old(table) + [slab.addr]
      ensures oldTables == old(oldTables) + [OldTable(youngest, |mappings|, old(table))]
      ensures Retained(mappings, oldMappings, oldTables, youngest)
    {
      hide WholeSlabTags, Retained;
      slabs := slabs + [slab];
      ExtendFastMappingWithSlab(slab.addr);
      block := SlabToEntry(slab, ref);
    }

    /** Adds a slab in the next section; `memory` is the address the system hands out for it. */
    method GrowSlab(size: int, memory: Addr) returns (block: Addr)
      requires Shaped(tag, slabs, blocks, baseline, table, mappings) && Listed(node, heads, rings, slabs, blocks, {})
      requires 0 < size && Available(slabs, memory, GrownSize(size, AllocatedSize(slabs)))
      requires Retained(mappings, oldMappings, oldTables, youngest)
      modifies this`tag, this`node, this`slabs, this`table, this`oldTables, this`blocks
      ensures Retained(mappings, oldMappings, oldTables, youngest)
      ensures oldTables == old(oldTables) + [OldTable(youngest, |mappings|, old(table))]
      ensures Shaped(tag, slabs, blocks, baseline, table, mappings)
      ensures block == memory + TAG && block !in old(blocks) && Listed(node, heads, rings, slabs, blocks, {block})
      ensures var n := GrownSize(size, AllocatedSize(old(slabs)));
              && slabs == old(slabs) + [Slab(FirstRef(baseline, |old(slabs)|) + n, memory, n)]
              && table == old(table) + [memory]
              && blocks == old(blocks)[block := Block(|old(slabs)|, n - 2 * TAG)]
      ensures old(Coalesced(blocks)) ==> Coalesced(blocks)
    {
      hide Shaped, Listed, Coalesced, Available, GrownSize, AlignToSection, FirstRef, WholeSlabTags, Retained;
      NextSection(tag, slabs, blocks, baseline, table, mappings);
      var newSize := NewSlabSize(size);
      var ref;
      if slabs == [] {
        ref := baseline;
      } else {
        ref := slabs[|slabs| - 1].refEnd;
      }
      ref := AlignToSection(ref);
      var refEnd := ref + newSize;
      var slab := Slab(refEnd, memory, newSize);
      Grown(tag, node, heads, rings, slabs, blocks, baseline, table, mappings, size, slab);
      blocks := blocks[memory + TAG := Block(|slabs|, newSize - 2 * TAG)];
      block := InstallSlab(slab, ref);
    }

    // ----- allocation -----

    /** The lists hold a block of exactly the size, or one that leaves room for another block. */
    static ghost predicate HasRoom(heads: map<int, Addr>, size: int) {
      size in heads || exists k :: k in heads && size + TAG + MIN_BLOCK <= k
    }

    /** From `hint` on, the first size with room for the request, a tag and another block. */
    method FindLarger(hint: Option<int>, size: int) returns (r: Option<int>)
      requires hint.Some? ==> hint.value in heads
      requires forall k :: k in heads && size <= k ==> hint.Some? && hint.value <= k
      ensures r.Some? ==> r.value in heads && size + TAG + MIN_BLOCK <= r.value
      ensures forall k :: k in heads && size + TAG + MIN_BLOCK <= k ==> r.Some? && r.value <= k
    {
      var needed := size + TAG + MIN_BLOCK;
      r := hint;
      while r.Some? && r.value < needed
        invariant r.Some? ==> r.value in heads
        invariant forall k :: k in heads && needed <= k ==> r.Some? && r.value <= k
        decreases if r.Some? then needed - r.value else 0
      {
        r := LowerBound(heads.Keys, r.value + 1);
      }
    }

    /** A loose free block for a request, from the lists or from a new slab: either a block of
        exactly the size, or the front of one that left room for another block. */
    method TakeBlock(size: int, memory: Addr) returns (block: Addr, exact: bool)
      requires Shaped(tag, slabs, blocks, baseline, table, mappings) && Coalesced(blocks)
      requires Listed(node, heads, rings, slabs, blocks, {})
      requires MIN_BLOCK <= size && Available(slabs, memory, GrownSize(size, AllocatedSize(slabs)))
      requires Retained(mappings, oldMappings, oldTables, youngest)
      modifies this`tag, this`node, this`heads, this`rings, this`slabs, this`table, this`oldTables, this`blocks
      ensures Shaped(tag, slabs, blocks, baseline, table, mappings) && Coalesced(blocks)
      ensures block in blocks && blocks[block].size > 0 && Listed(node, heads, rings, slabs, blocks, {block})
      ensures exact ==> blocks[block].size == size
      ensures exact <==> size in old(heads)
      ensures slabs == old(slabs) <==> HasRoom(old(heads), size)
      ensures slabs == old(slabs) ==> blocks == old(blocks)
      ensures !exact && slabs == old(slabs) ==>
                forall k :: k in old(heads) && size + TAG + MIN_BLOCK <= k ==> blocks[block].size <= k
      ensures size <= LARGEST ==> size <= blocks[block].size
      ensures InUse(blocks) == InUse(old(blocks))
      ensures old(slabs) <= slabs && old(table) <= table && |slabs| <= |old(slabs)| + 1
      ensures Retained(mappings, oldMappings, oldTables, youngest) && old(oldTables) <= oldTables
    {
      hide Shaped, Coalesced, Listed, Available, GrownSize, Retained;
      var list := LowerBound(heads.Keys, size);
      if list == Some(size) {
        block := PopFreelistEntry(size);
        return block, true;
      }
      list := FindLarger(list, size);
      if list.Some? {
        block := PopFreelistEntry(list.value);
      } else {
        NextSection(tag, slabs, blocks, baseline, table, mappings);
        GrownSizeFits(size, AllocatedSize(slabs));
        block := GrowSlab(size, memory);
      }
      exact := false;
    }

    /** A free block of the requested size that is on no list.  `ok` reports the source's final
        assertion that the block is large enough. */
    method AllocateBlock(size: int, memory: Addr) returns (block: Addr, ok: bool)
      requires Shaped(tag, slabs, blocks, baseline, table, mappings) && Coalesced(blocks)
      requires Listed(node, heads, rings, slabs, blocks, {})
      requires MIN_BLOCK <= size && size % 8 == 0 && Retained(mappings, oldMappings, oldTables, youngest)
      requires Available(slabs, memory, GrownSize(size, AllocatedSize(slabs)))
      modifies this`tag, this`node, this`heads, this`rings, this`slabs, this`table, this`oldTables, this`blocks
      ensures ok <==> size <= LARGEST
      ensures Shaped(tag, slabs, blocks, baseline, table, mappings)
      ensures block in blocks && blocks[block].size > 0 && Listed(node, heads, rings, slabs, blocks, {block})
      ensures ok ==> size <= blocks[block].size < size + MIN_BLOCK + TAG
      ensures slabs == old(slabs) <==> HasRoom(old(heads), size)
      ensures Coalesced(Flipped(blocks, block))
      ensures InUse(blocks) == InUse(old(blocks))
      ensures old(slabs) <= slabs && old(table) <= table && |slabs| <= |old(slabs)| + 1
      ensures Retained(mappings, oldMappings, oldTables, youngest) && old(oldTables) <= oldTables
    {
      hide Listed, Available, GrownSize, Retained, Shaped, Coalesced, HasRoom, Flipped, InUse, Apart;
      var exact;
      block, exact := TakeBlock(size, memory);
      BlockFits(tag, slabs, blocks, baseline, table, mappings, block);
      if exact {
        UsedCoalesced(blocks, block);
        return block, true;
      }
      CutBlock(block, size);
      BlockFits(tag, slabs, blocks, baseline, table, mappings, block);
      ok := tag[block - TAG].after >= size;
    }

    /** Cuts a loose free block to size and lists the rest, if that is a block. */
    method CutBlock(block: Addr, size: int)
      requires Shaped(tag, slabs, blocks, baseline, table, mappings) && Coalesced(blocks)
      requires block in blocks && blocks[block].size > 0 && Listed(node, heads, rings, slabs, blocks, {block})
      requires MIN_BLOCK <= size && size % 8 == 0
      modifies this`tag, this`node, this`heads, this`rings, this`blocks
      ensures Shaped(tag, slabs, blocks, baseline, table, mappings)
      ensures block in blocks && Listed(node, heads, rings, slabs, blocks, {block})
      ensures blocks[block].size ==
              if old(blocks[block].size) < size + TAG + MIN_BLOCK then old(blocks[block].size) else size
      ensures Coalesced(Flipped(blocks, block)) && InUse(blocks) == old(InUse(blocks))
    {
      hide Listed, Shaped, Coalesced, InUse, Flipped, BrokenBlocks, Apart;
      BlockFits(tag, slabs, blocks, baseline, table, mappings, block);
      UsedCoalesced(blocks, block);
      ghost var was := blocks;
      var remaining := BreakBlock(block, size);
      if remaining != NULL {
        BrokenCoalesced(was, block, size, was[block].size - (size + TAG));
        BrokenInUse(was, block, size, was[block].size - (size + TAG));
        BlockFits(tag, slabs, blocks, baseline, table, mappings, remaining);
        PushFreelistEntry(remaining, {block, remaining});
        assert {block, remaining} - {remaining} == {block};
      }
    }

    /** Marks a loose block of the right size as in use and reads the ref it recorded. */
    method HandOut(block: Addr, size: int) returns (ref: int)
      requires Shaped(tag, slabs, blocks, baseline, table, mappings) && block in blocks && blocks[block].size > 0
      requires Listed(node, heads, rings, slabs, blocks, {block})
      requires Requests(InUse(blocks), requested) && Serves(blocks[block].size, size)
      modifies this`tag, this`blocks, this`requested
      ensures Shaped(tag, slabs, blocks, baseline, table, mappings) && Listed(node, heads, rings, slabs, blocks, {})
      ensures blocks == Flipped(old(blocks), block)
      ensures requested == old(requested)[block := size] && Requests(InUse(blocks), requested)
      ensures block !in old(InUse(blocks)) && InUse(blocks) == old(InUse(blocks))[block := blocks[block]]
      ensures Placed(baseline, table, ref, block)
      ensures blocks[block].slab < |slabs| && ref == RefOf(slabs, blocks, block)
    {
      hide Shaped, Listed, Requests, InUse, Placed, AlignToSection, Flipped, Serves;
      UsedListed(node, heads, rings, slabs, blocks, block);
      UsedRequests(blocks, requested, block, size);
      MarkAllocated(block);
      requested := requested[block := size];
      TranslateBlock(tag, slabs, blocks, baseline, table, mappings, block);
      ref := node[block].ref;
    }

    /** Allocates and marks a block for a request of `size` bytes. */
    method ServeRequest(size: int, memory: Addr) returns (r: AllocResult)
      requires Shaped(tag, slabs, blocks, baseline, table, mappings) && Coalesced(blocks)
      requires Listed(node, heads, rings, slabs, blocks, {}) && Requests(InUse(blocks), requested)
      requires Retained(mappings, oldMappings, oldTables, youngest) && 0 < size < SECTION && size % 8 == 0
      requires Available(slabs, memory, GrownSize(Padded(size), AllocatedSize(slabs)))
      modifies this`tag, this`node, this`heads, this`rings, this`slabs, this`table, this`oldTables, this`blocks
      modifies this`requested
      ensures r.Aborted? <==> size > LARGEST
      ensures r.Allocated? ==>
                && Shaped(tag, slabs, blocks, baseline, table, mappings) && Coalesced(blocks)
                && Listed(node, heads, rings, slabs, blocks, {}) && Requests(InUse(blocks), requested)
                && r.addr !in old(InUse(blocks))
                && r.addr in blocks && Serves(-blocks[r.addr].size, size)
                && InUse(blocks) == old(InUse(blocks))[r.addr := blocks[r.addr]]
                && requested == old(requested)[r.addr := size]
                && Placed(baseline, table, r.ref, r.addr)
                && blocks[r.addr].slab < |slabs| && r.ref == RefOf(slabs, blocks, r.addr)
                && (slabs == old(slabs) <==> HasRoom(old(heads), Padded(size)))
      ensures old(slabs) <= slabs && old(oldTables) <= oldTables
      ensures Retained(mappings, oldMappings, oldTables, youngest)
    {
      hide Shaped, Listed, Available, GrownSize, Coalesced, Requests, Retained, InUse, Padded, Placed,
           AlignToSection, HasRoom, Flipped, RefOf;
      var padded := Padded(size);
      var block, ok := AllocateBlock(padded, memory);
      if !ok {
        return Aborted;
      }
      var ref := HandOut(block, size);
      r := Allocated(ref, block);
    }

    /** Allocates `size` bytes.  Every admitted request up to SECTION - 16 is served by a block
        above the baseline that is disjoint from all others in use. */
    method DoAlloc(size: int, memory: Addr) returns (r: AllocResult)
      requires Valid() && 0 < size < SECTION && size % 8 == 0
      requires Available(slabs, memory, GrownSize(Padded(size), AllocatedSize(slabs)))
      modifies this
      ensures r.Aborted? <==> size > LARGEST
      ensures r.Allocated? ==>
                && Valid()
                && r.addr !in old(InUse(blocks))
                && r.addr in blocks && Serves(-blocks[r.addr].size, size)
                && InUse(blocks) == old(InUse(blocks))[r.addr := blocks[r.addr]]
                && requested == old(requested)[r.addr := size]
                && Placed(baseline, table, r.ref, r.addr)
                && blocks[r.addr].slab < |slabs| && r.ref == RefOf(slabs, blocks, r.addr)
                && commitSize == old(commitSize) + size
                && (slabs == old(slabs) <==> HasRoom(old(heads), Padded(size)))
                && old(slabs) <= slabs && baseline == old(baseline) && freeReadOnly == old(freeReadOnly)
                && mappings == old(mappings) && oldMappings == old(oldMappings) && old(oldTables) <= oldTables
    {
      hide Shaped, Listed, Available, GrownSize, Coalesced, Requests, Runs, Retained, InUse, Padded, Placed,
           AlignToSection, HasRoom, Flipped, RefOf, Serves;
      dirty := true;
      commitSize := commitSize + size;
      r := ServeRequest(size, memory);
    }

    // ----- freeing -----

    /** Merges a freed block with a free block before it, taking that one off its list. */
    method MergeWithPrev(freed: Addr) returns (block: Addr)
      requires Shaped(tag, slabs, blocks, baseline, table, mappings) && freed in blocks && blocks[freed].size > 0
      requires Listed(node, heads, rings, slabs, blocks, {freed}) && CoalescedBut(blocks, freed)
      modifies this`tag, this`node, this`heads, this`rings, this`blocks
      ensures Shaped(tag, slabs, blocks, baseline, table, mappings) && block in blocks && blocks[block].size > 0
      ensures Listed(node, heads, rings, slabs, blocks, {block}) && CoalescedBut(blocks, block)
      ensures forall c :: c in blocks && EndOf(blocks, c) + TAG == block ==> blocks[c].size <= 0
      ensures InUse(blocks) == old(InUse(blocks))
    {
      hide Listed, Shaped, CoalescedBut, Apart, MergedBlocks, InUse;
      block := freed;
      PrevFree(tag, slabs, blocks, baseline, table, mappings, freed);
      if tag[freed - TAG].before > 0 {
        var prev := freed - TAG - tag[freed - TAG].before;
        RemoveFreelistEntry(prev, {freed});
        MergedPrev(blocks, prev, freed);
        MergedInUse(blocks, prev, freed);
        block := MergeBlocks(prev, freed, {freed} + {prev});
        assert {freed} + {prev} - {freed} == {prev};
      }
    }

    method MergeWithNext(block: Addr)
      requires Shaped(tag, slabs, blocks, baseline, table, mappings) && block in blocks && blocks[block].size > 0
      requires Listed(node, heads, rings, slabs, blocks, {block}) && CoalescedBut(blocks, block)
      requires forall c :: c in blocks && EndOf(blocks, c) + TAG == block ==> blocks[c].size <= 0
      modifies this`tag, this`node, this`heads, this`rings, this`blocks
      ensures Shaped(tag, slabs, blocks, baseline, table, mappings) && block in blocks && blocks[block].size > 0
      ensures Listed(node, heads, rings, slabs, blocks, {block}) && Coalesced(blocks)
      ensures InUse(blocks) == old(InUse(blocks))
    {
      hide Listed, Shaped, CoalescedBut, Coalesced, Apart, MergedBlocks, InUse;
      NextFree(tag, slabs, blocks, baseline, table, mappings, block);
      var bb := block + tag[block - TAG].after;
      if tag[bb].after > 0 {
        var next := bb + TAG;
        RemoveFreelistEntry(next, {block});
        MergedNext(blocks, block, next);
        MergedInUse(blocks, block, next);
        var _ := MergeBlocks(block, next, {block} + {next});
        assert {block} + {next} - {next} == {block};
      } else {
        Settled(blocks, block);
      }
    }

    /** Merges a freed block with its free neighbours and puts the result on its list. */
    method FreeSlabBlock(ref: int, freed: Addr)
      requires Shaped(tag, slabs, blocks, baseline, table, mappings) && freed in blocks && blocks[freed].size > 0
      requires blocks[freed].slab < |slabs| && ref == RefOf(slabs, blocks, freed)
      requires Listed(node, heads, rings, slabs, Flipped(blocks, freed), {})
      requires CoalescedBut(blocks, freed)
      modifies this`tag, this`node, this`heads, this`rings, this`blocks
      ensures Shaped(tag, slabs, blocks, baseline, table, mappings) && Coalesced(blocks)
      ensures Listed(node, heads, rings, slabs, blocks, {})
      ensures InUse(blocks) == old(InUse(blocks))
    {
      hide Listed, Shaped, Coalesced, CoalescedBut, Apart, InUse, Flipped;
      var prev, next := *, *;
      FreedListed(node, heads, rings, slabs, blocks, freed, FreeBlock(ref, prev, next));
      node := node[freed := FreeBlock(ref, prev, next)];
      var block := MergeWithPrev(freed);
      MergeWithNext(block);
      BlockFits(tag, slabs, blocks, baseline, table, mappings, block);
      PushFreelistEntry(block, {block});
      assert {block} - {block} == {};
    }

    /** Marks a block as free and merges it. */
    method ReleaseBlock(ref: int, addr: Addr, size: int)
      requires Shaped(tag, slabs, blocks, baseline, table, mappings) && Coalesced(blocks)
      requires Listed(node, heads, rings, slabs, blocks, {})
      requires addr in blocks && blocks[addr].slab < |slabs| && ref == RefOf(slabs, blocks, addr)
      requires blocks[addr].size < 0 && size <= -blocks[addr].size <= size + MIN_BLOCK + TAG
      modifies this`tag, this`node, this`heads, this`rings, this`blocks
      ensures Shaped(tag, slabs, blocks, baseline, table, mappings) && Coalesced(blocks)
      ensures Listed(node, heads, rings, slabs, blocks, {})
      ensures InUse(blocks) == InUse(Flipped(old(blocks), addr))
    {
      hide Shaped, Listed, Coalesced, CoalescedBut, InUse, Flipped;
      FreedCoalesced(blocks, addr);
      MarkFreed(addr, size);
      FreeSlabBlock(ref, addr);
    }

    /** Frees a block in use that was requested with `size` bytes: exactly that block stops
        being in use, and the checks of the boundary tags hold. */
    method DoFreeSlab(ref: int, addr: Addr, size: int)
      requires Valid() && addr in requested && size == requested[addr]
      requires addr in blocks && blocks[addr].slab < |slabs| && ref == RefOf(slabs, blocks, addr)
      modifies this`tag, this`node, this`heads, this`rings, this`blocks, this`requested, this`commitSize
      ensures Valid()
      ensures InUse(blocks) == old(InUse(blocks)) - {addr}
      ensures requested == old(requested) - {addr}
      ensures commitSize == old(commitSize) - size
    {
      hide Shaped, Listed, Coalesced, CoalescedBut, Requests, Runs, Retained, InUse, Padded, Serves, Flipped, RefOf;
      assert dirty;
      commitSize := commitSize - size;
      var padded := Padded(size);
      FreedRequests(blocks, requested, addr);
      requested := requested - {addr};
      ReleaseBlock(ref, addr, padded);
    }

    /** Frees `size` bytes at `ref`.  Below the baseline the space is only recorded; `ok` reports
        the assertions that the ref is proper and that the space was not free already. */
    method DoFree(ref: int, addr: Addr, size: int) returns (ok: bool)
      requires Valid() && 0 < size
      requires ref >= baseline ==>
                 && addr in requested && size == requested[addr]
                 && addr in blocks && blocks[addr].slab < |slabs| && ref == RefOf(slabs, blocks, addr)
      modifies this
      ensures ref >= old(baseline) ==> ok && freeReadOnly == old(freeReadOnly) && requested == old(requested) - {addr}
      ensures ref >= old(baseline) ==> InUse(blocks) == old(InUse(blocks)) - {addr}
      ensures ref < old(baseline) ==> (ok <==> ref != 0 && ref % 8 == 0 && Untouched(old(freeReadOnly), ref, size))
      ensures ref < old(baseline) && ok ==>
                && blocks == old(blocks) && requested == old(requested)
                && forall b :: Covers(freeReadOnly, b) <==> Covers(old(freeReadOnly), b) || ref <= b < ref + size
      ensures ok ==> Valid() && slabs == old(slabs) && table == old(table) && baseline == old(baseline)
      ensures ok ==> mappings == old(mappings) && oldMappings == old(oldMappings) && oldTables == old(oldTables)
    {
      hide Shaped, Listed, Coalesced, Requests, Runs, Retained, InUse, Untouched, Covers;
      var readOnly := ref < baseline;
      assert readOnly || dirty;
      dirty := true;
      ok := true;
      if readOnly {
        ok, freeReadOnly := FreeChunk(freeReadOnly, ref, size);
      } else {
        DoFreeSlab(ref, addr, size);
      }
    }

    /** Freeing what was just allocated restores the blocks, unless a slab was added for it. */
    method AllocThenFree(size: int, memory: Addr)
      requires Valid() && 0 < size <= LARGEST && size % 8 == 0
      requires Available(slabs, memory, GrownSize(Padded(size), AllocatedSize(slabs)))
      modifies this
      ensures Valid() && requested == old(requested) && InUse(blocks) == old(InUse(blocks))
      ensures commitSize == old(commitSize) && old(slabs) <= slabs
      ensures slabs == old(slabs) ==> blocks == old(blocks)
      ensures slabs == old(slabs) <==> HasRoom(old(heads), Padded(size))
    {
      hide HasRoom, Listed, Available, GrownSize, Coalesced, Requests, Runs, Retained, InUse, Padded, Placed, Tiled,
           Sections, Aligned, RefOf, Serves;
      ghost var tag0, blocks0, requested0 := tag, blocks, requested;
      NotRequested(blocks, requested);
      var r := DoAlloc(size, memory);
      assert requested - {r.addr} == requested0;
      DoFreeSlab(r.ref, r.addr, size);
      if slabs == old(slabs) {
        SameTiling(tag0, blocks0, tag, blocks, slabs);
      }
    }

    // ----- the client -----

    /** The owner of a block in use may write anything to it. */
    method ClientWrites(addr: Addr, tag': Tags, node': Nodes)
      requires Valid() && addr in blocks && blocks[addr].size < 0
      requires SameOutside(tag, tag', addr, -blocks[addr].size) && SameOutside(node, node', addr, -blocks[addr].size)
      modifies this`tag, this`node
      ensures Valid() && tag == tag' && node == node'
    {
      PayloadFrame(tag, tag', node, node', heads, rings, slabs, blocks, addr);
      tag, node := tag', node';
    }

    /** True exactly when nothing is in use. */
    method IsAllFree() returns (b: bool)
      requires Valid()
      ensures b <==> InUse(blocks) == map[]
    {
      var k := 0;
      while k < |slabs|
        invariant 0 <= k <= |slabs|
        invariant forall a :: a in blocks && blocks[a].slab < k ==> blocks[a].size > 0
      {
        SlabEnds(tag, slabs, blocks, k);
        var first, last := slabs[k].addr, slabs[k].addr + slabs[k].size - TAG;
        assert tag[first].before == 0 && tag[last].after == 0;
        if tag[first].after != tag[last].before || last - first - TAG != tag[first].after {
          assert exists a :: a in blocks && blocks[a].slab == k && blocks[a].size <= 0;
          ghost var a :| a in blocks && blocks[a].slab == k && blocks[a].size <= 0;
          assert BlockOk(tag, slabs, blocks, a);
          assert a in InUse(blocks);
          return false;
        }
        k := k + 1;
      }
      forall a | a in blocks ensures blocks[a].size > 0 {
        assert BlockOk(tag, slabs, blocks, a);
      }
      return true;
    }

    // ----- between transactions -----

    /** Makes every slab one free block on its list. */
    method RebuildFreelistsFromSlab(ghost table': seq<Addr>)
      requires SlabsOk(slabs) && Sections(baseline, table', slabs, mappings)
      modifies this`tag, this`node, this`heads, this`rings, this`blocks
      ensures Shaped(tag, slabs, blocks, baseline, table', mappings) && Coalesced(blocks)
      ensures Listed(node, heads, rings, slabs, blocks, {})
      ensures InUse(blocks) == map[]
    {
      hide Listed, Coalesced, Shaped, SlabsOk, Sections, FirstRef, AlignToSection, WholeSlabTags, InUse;
      heads, rings, blocks := map[], map[], map[];
      var refStart := AlignToSection(baseline);
      NothingRebuilt(tag, node, slabs, baseline, table', mappings);
      var i := 0;
      while i < |slabs|
        invariant 0 <= i <= |slabs| && refStart == FirstRef(baseline, i) && |table'| == |mappings| + |slabs|
        invariant Shaped(tag, slabs[..i], blocks, baseline, table'[..|mappings| + i], mappings) && Coalesced(blocks)
        invariant Listed(node, heads, rings, slabs, blocks, {})
        invariant InUse(blocks) == map[]
      {
        Rebuilt(tag, node, heads, rings, slabs, blocks, baseline, table', mappings, i);
        var entry := SlabToEntry(slabs[i], refStart);
        blocks := blocks[entry := Block(i, slabs[i].size - 2 * TAG)];
        PushFreelistEntry(entry, {entry});
        assert {entry} - {entry} == {};
        refStart := AlignToSection(slabs[i].refEnd);
        i := i + 1;
      }
      assert slabs[..i] == slabs && table'[..|mappings| + i] == table';
    }

    /** Forgets all blocks in use.  At most one slab, of minimal size, is kept. */
    method ResetFreeSpaceTracking()
      requires Valid()
      modifies this`tag, this`node, this`heads, this`rings, this`blocks, this`slabs, this`table
      modifies this`freeReadOnly, this`dirty, this`commitSize, this`requested
      ensures Valid() && !dirty && requested == map[] && freeReadOnly == map[]
      ensures old(dirty) ==> commitSize == 0 && slabs <= old(slabs) && |slabs| <= 1
      ensures old(dirty) ==> forall k :: 0 <= k < |slabs| ==> slabs[k].size <= MINIMAL_ALLOC
      ensures !old(dirty) ==> slabs == old(slabs) && table == old(table) && blocks == old(blocks)
    {
      hide Listed, Coalesced, Shaped, Retained, SlabsOk, Sections, InUse, Requests, Runs, AlignToSection;
      if !dirty {
        return;
      }
      ForgetAll();
    }

    method ForgetAll()
      requires Valid()
      modifies this`tag, this`node, this`heads, this`rings, this`blocks, this`slabs, this`table
      modifies this`freeReadOnly, this`dirty, this`commitSize, this`requested
      ensures Valid() && !dirty && requested == map[] && freeReadOnly == map[] && commitSize == 0
      ensures slabs <= old(slabs) && |slabs| <= 1 && forall k :: 0 <= k < |slabs| ==> slabs[k].size <= MINIMAL_ALLOC
    {
      hide Listed, Coalesced, Shaped, Retained, InUse, Requests, Runs, AlignToSection, Shown;
      ReleaseAndRebuild();
      freeReadOnly, requested := map[], map[];
      dirty, commitSize := false, 0;
      NothingRequested();
    }

    method ReleaseAndRebuild()
      requires Shaped(tag, slabs, blocks, baseline, table, mappings)
      modifies this`tag, this`node, this`heads, this`rings, this`blocks, this`slabs, this`table
      ensures Shaped(tag, slabs, blocks, baseline, table, mappings) && Coalesced(blocks)
      ensures Listed(node, heads, rings, slabs, blocks, {}) && InUse(blocks) == map[]
      ensures slabs <= old(slabs) && |slabs| <= 1 && forall k :: 0 <= k < |slabs| ==> slabs[k].size <= MINIMAL_ALLOC
    {
      hide Listed, Coalesced, Shaped, SlabsOk, Sections, InUse;
      ShapedSlabs(tag, slabs, blocks, baseline, table, mappings);
      ReleaseSlabs();
      RebuildFreelistsFromSlab(table);
    }

    /** Releases slabs from the last one down, each with its table entry. */
    method ReleaseSlabs()
      requires SlabsOk(slabs) && Sections(baseline, table, slabs, mappings)
      modifies this`slabs, this`table
      ensures SlabsOk(slabs) && Sections(baseline, table, slabs, mappings)
      ensures slabs <= old(slabs) && |slabs| <= 1 && forall k :: 0 <= k < |slabs| ==> slabs[k].size <= MINIMAL_ALLOC
    {
      hide AlignToSection, FirstRef;
      while |slabs| > 1 || (|slabs| == 1 && slabs[0].size > MINIMAL_ALLOC)
        invariant SlabsOk(slabs) && Sections(baseline, table, slabs, mappings) && slabs <= old(slabs)
        decreases |slabs|
      {
        var lastSlab := slabs[|slabs| - 1];
        var lastTranslation := table[|table| - 1];
        assert lastTranslation == lastSlab.addr;
        table := table[..|table| - 1];
        slabs := slabs[..|slabs| - 1];
      }
    }

    /** Makes the table match the mappings and the slabs; an old table that no longer does is kept. */
    method RebuildTranslations(replaced: bool, oldNumSections: int)
      requires Retained(mappings, oldMappings, oldTables, youngest)
      requires !replaced && |mappings| + |slabs| <= |table| ==>
                 |table| == |mappings| + |slabs| && 0 <= oldNumSections <= |mappings| &&
                     table[..oldNumSections] == mappings[..oldNumSections]
      requires |slabs| <= |table| && TableHeld(mappings, oldMappings, OldTable(youngest, |table| - |slabs|, table))
      modifies this`table, this`oldTables
      ensures table == MatchingTable(mappings, slabs)
      ensures Retained(mappings, oldMappings, oldTables, youngest)
      ensures oldTables == if old(table) != [] && (replaced || |old(table)| < |mappings| + |slabs|)
                           then old(oldTables) + [OldTable(youngest, |old(table)| - |slabs|, old(table))]
                           else old(oldTables)
    {
      hide Retained, TableHeld, MatchingTable;
      var requiresNew := replaced || |table| < |mappings| + |slabs|;
      var t, from := table, oldNumSections;
      if requiresNew {
        if |table| != 0 {
          TableRetired(mappings, oldMappings, oldTables, youngest, OldTable(youngest, |table| - |slabs|, table));
          oldTables := oldTables + [OldTable(youngest, |table| - |slabs|, table)];
        }
        t, from := seq(|mappings| + |slabs|, _ => NULL), 0;
      }
      table := FillTable(t, from);
    }

    /** Writes the mappings from `from` on and the slabs to a table. */
    method FillTable(t0: seq<Addr>, from: int) returns (t: seq<Addr>)
      requires |t0| == |mappings| + |slabs| && 0 <= from <= |mappings| && t0[..from] == mappings[..from]
      ensures t == MatchingTable(mappings, slabs)
    {
      t := t0;
      assert forall j :: 0 <= j < from ==> t[j] == t[..from][j] == mappings[..from][j];
      var i := from;
      while i < |mappings|
        invariant from <= i <= |mappings| && |t| == |mappings| + |slabs|
        invariant forall j :: 0 <= j < i ==> t[j] == mappings[j]
      {
        t := t[i := mappings[i]];
        i := i + 1;
      }
      var k := 0;
      while k < |slabs|
        invariant 0 <= k <= |slabs| && |t| == |mappings| + |slabs|
        invariant forall j :: 0 <= j < |mappings| ==> t[j] == mappings[j]
        invariant forall j :: 0 <= j < k ==> t[|mappings| + j] == slabs[j].addr
      {
        t := t[|mappings| + k := slabs[k].addr];
        k := k + 1;
      }
    }

    /** Moves the slabs' ref ranges by a displacement. */
    method RebaseSlabs(displacement: int)
      modifies this`slabs
      ensures slabs == Displaced(old(slabs), displacement)
    {
      var k := 0;
      while k < |slabs|
        invariant 0 <= k <= |slabs| == |old(slabs)|
        invariant forall j :: 0 <= j < k ==> slabs[j] == old(slabs)[j].(refEnd := old(slabs)[j].refEnd + displacement)
        invariant forall j :: k <= j < |slabs| ==> slabs[j] == old(slabs)[j]
      {
        slabs := slabs[k := slabs[k].(refEnd := slabs[k].refEnd + displacement)];
        k := k + 1;
      }
    }

    /** Moves everything above the new baseline: slabs, free lists and table. */
    method MoveSlabs(fileSize: int, replaced: bool, oldNumMappings: int, ghost mappings0: seq<Addr>)
      requires SlabsOk(slabs) && Sections(baseline, table, slabs, mappings0) && 0 <= fileSize
      requires |mappings| == AlignToSection(fileSize) / SECTION
      requires Retained(mappings, oldMappings, oldTables, youngest)
      requires TableHeld(mappings, oldMappings, OldTable(youngest, |mappings0|, table))
      requires |mappings0| <= |mappings| && 0 <= oldNumMappings <= |mappings0| &&
               mappings[..oldNumMappings] == mappings0[..oldNumMappings]
      requires !replaced ==> oldNumMappings == |mappings0|
      modifies this`baseline, this`slabs, this`table, this`oldTables, this`tag, this`node, this`heads, this`rings,
          this`blocks
      ensures Shaped(tag, slabs, blocks, baseline, table, mappings) && Coalesced(blocks)
      ensures Listed(node, heads, rings, slabs, blocks, {}) && InUse(blocks) == map[]
      ensures baseline == fileSize &&
              slabs == Displaced(old(slabs), AlignToSection(fileSize) - old(AlignToSection(baseline)))
      ensures Retained(mappings, oldMappings, oldTables, youngest)
      ensures old(oldTables) <= oldTables
      ensures mappings == mappings0 || old(table) == [] ||
              (|mappings0| <= |old(table)| && OldTable(youngest, |mappings0|, old(table)) in oldTables)
    {
      hide Listed, Coalesced, Shaped, Retained, TableHeld, SlabsOk, InUse, FirstRef, AlignToSection, Displaced,
          MatchingTable, Sections;
      SectionsTable(baseline, table, slabs, mappings0);
      var oldSlabBase := AlignToSection(baseline);
      Rebased(slabs, baseline, table, mappings0, fileSize, mappings);
      baseline := fileSize;
      var displacement := AlignToSection(fileSize) - oldSlabBase;
      assert displacement == 0 ==> Displaced(slabs, 0) == slabs;
      if displacement != 0 {
        RebaseSlabs(displacement);
      }
      ghost var table' := MatchingTable(mappings, slabs);
      RebuildFreelistsFromSlab(table');
      RebuildTranslations(replaced, oldNumMappings);
    }

    /** Follows a grown file: maps the new sections, moves the slabs above the new baseline and
        brings the table up to date.  `extended` says whether the system can extend a partial
        last mapping in place, `places` where it maps each section that is mapped anew.  Only the
        mappings of whole sections stay, and that of a partial one that is extended. */
    method UpdateReaderView(fileSize: int, extended: bool, places: seq<Addr>)
      requires Valid() && !dirty && (baseline < fileSize ==> fileSize <= SECTION * |places|)
      modifies this
      ensures Valid() && !dirty && youngest == old(youngest)
      ensures fileSize <= old(baseline) ==> unchanged(this)
      ensures fileSize > old(baseline) ==>
                && baseline == fileSize && |mappings| <= |places|
                && (forall k :: 0 <= k < |mappings| ==>
                      mappings[k] == if k < |old(mappings)| && (extended || SECTION * (k + 1) <= old(baseline))
                                     then old(mappings)[k] else places[k])
                && |slabs| == |old(slabs)|
                && forall k :: 0 <= k < |slabs| ==>
                    slabs[k].addr == old(slabs)[k].addr && slabs[k].size == old(slabs)[k].size
      ensures forall version, view ::
                version <= youngest && view != [] && old(Visible(mappings, oldTables, version, view)) ==>
                Visible(mappings, oldTables, version, view)
    {
      if fileSize <= baseline {
        return;
      }
      hide Listed, Coalesced, Shaped, Retained, InUse, Visible, Requests, Runs, Shown;
      Remap(fileSize, extended, places);
      NothingRequested();
    }

    method Remap(fileSize: int, extended: bool, places: seq<Addr>)
      requires Shaped(tag, slabs, blocks, baseline, table, mappings) && baseline < fileSize <= SECTION * |places|
      requires Retained(mappings, oldMappings, oldTables, youngest)
      requires |lengths| == |mappings| && Shown(baseline, lengths)
      modifies this`mappings, this`lengths, this`oldMappings, this`baseline, this`slabs, this`table, this`oldTables
      modifies this`tag, this`node, this`heads, this`rings, this`blocks
      ensures Shaped(tag, slabs, blocks, baseline, table, mappings) && Coalesced(blocks)
      ensures Listed(node, heads, rings, slabs, blocks, {}) && InUse(blocks) == map[]
      ensures baseline == fileSize && |mappings| <= |places|
      ensures forall k :: 0 <= k < |mappings| ==>
                mappings[k] == if k < |old(mappings)| && (extended || SECTION * (k + 1) <= old(baseline))
                               then old(mappings)[k] else places[k]
      ensures Retained(mappings, oldMappings, oldTables, youngest)
      ensures |lengths| == |mappings| && Shown(baseline, lengths)
      ensures |slabs| == |old(slabs)| && forall k :: 0 <= k < |slabs| ==>
                slabs[k].addr == old(slabs)[k].addr && slabs[k].size == old(slabs)[k].size
      ensures forall version, view ::
                version <= youngest && view != [] && old(Visible(mappings, oldTables, version, view)) ==>
                Visible(mappings, oldTables, version, view)
    {
      hide Listed, Coalesced, Shaped, Retained, InUse, Visible, Shown, AlignToSection;
      ShapedSlabs(tag, slabs, blocks, baseline, table, mappings);
      FewerSections(baseline, fileSize);
      var numMappings := AlignToSection(fileSize) / SECTION;
      var replaced, oldNumMappings := ExtendLast(fileSize, extended);
      var more := MapSections(fileSize, oldNumMappings, numMappings);
      AllShown(fileSize, lengths, oldNumMappings, more);
      KeptSections(baseline, oldNumMappings, extended, mappings, places, numMappings);
      FollowFile(fileSize, replaced, oldNumMappings, places[oldNumMappings..numMappings]);
      lengths := lengths[..oldNumMappings] + more;
    }

    /** Extends a partial last mapping, or says that it must be replaced. */
    method ExtendLast(fileSize: int, extended: bool) returns (replaced: bool, oldNumMappings: int)
      requires 0 <= baseline < fileSize && |lengths| == |mappings| == AlignToSection(baseline) / SECTION
      requires Shown(baseline, lengths)
      modifies this`lengths
      ensures replaced <==> baseline < AlignToSection(baseline) && !extended
      ensures oldNumMappings == |mappings| - (if replaced then 1 else 0) && 0 <= oldNumMappings
      ensures |lengths| == |mappings| && Shown(fileSize, lengths[..oldNumMappings])
    {
      hide Shown;
      ghost var was := lengths;
      var oldSlabBase := AlignToSection(baseline);
      oldNumMappings := oldSlabBase / SECTION;
      replaced := false;
      if baseline < oldSlabBase {
        if extended {
          var left := fileSize - SECTION * (oldNumMappings - 1);
          lengths := lengths[oldNumMappings - 1 := if SECTION < left then SECTION else left];
        } else {
          replaced := true;
          oldNumMappings := oldNumMappings - 1;
        }
      }
      StillShown(baseline, was, lengths, oldNumMappings, fileSize);
    }

    /** Maps the sections from `from` to `to`: each as a whole, the last as far as the file goes. */
    method MapSections(fileSize: int, from: int, to: int) returns (more: seq<int>)
      requires 0 <= from <= to && SECTION * (to - 1) < fileSize
      ensures |more| == to - from
      ensures forall k :: 0 <= k < |more| ==> SECTION <= more[k] || fileSize <= SECTION * (from + k) + more[k]
      ensures forall k :: 0 <= k < |more| ==> 0 < more[k] <= SECTION
    {
      more := [];
      var k := from;
      while k < to
        invariant from <= k <= to && |more| == k - from
        invariant forall j :: 0 <= j < |more| ==> SECTION <= more[j] || fileSize <= SECTION * (from + j) + more[j]
        invariant forall j :: 0 <= j < |more| ==> 0 < more[j] <= SECTION
      {
        var left := fileSize - SECTION * k;
        more := more + [if SECTION < left then SECTION else left];
        k := k + 1;
      }
    }

    /** Changes the mappings and moves the slabs; every view a reader may have stays. */
    method FollowFile(fileSize: int, replaced: bool, oldNumMappings: int, newMaps: seq<Addr>)
      requires Shaped(tag, slabs, blocks, baseline, table, mappings) && baseline < fileSize
      requires Retained(mappings, oldMappings, oldTables, youngest)
      requires oldNumMappings == |mappings| - (if replaced then 1 else 0) && 0 <= oldNumMappings
      requires oldNumMappings + |newMaps| == AlignToSection(fileSize) / SECTION
      modifies this`mappings, this`oldMappings, this`baseline, this`slabs, this`table, this`oldTables
      modifies this`tag, this`node, this`heads, this`rings, this`blocks
      ensures Shaped(tag, slabs, blocks, baseline, table, mappings) && Coalesced(blocks)
      ensures Listed(node, heads, rings, slabs, blocks, {}) && InUse(blocks) == map[]
      ensures baseline == fileSize && mappings == old(mappings)[..oldNumMappings] + newMaps
      ensures Retained(mappings, oldMappings, oldTables, youngest)
      ensures |slabs| == |old(slabs)| && forall k :: 0 <= k < |slabs| ==>
                slabs[k].addr == old(slabs)[k].addr && slabs[k].size == old(slabs)[k].size
      ensures forall version, view ::
                version <= youngest && view != [] && old(Visible(mappings, oldTables, version, view)) ==>
                Visible(mappings, oldTables, version, view)
    {
      hide Listed, Coalesced, Shaped, Retained, TableHeld, SlabsOk, Sections, InUse, Visible, AlignToSection;
      ShapedSlabs(tag, slabs, blocks, baseline, table, mappings);
      FewerSections(baseline, fileSize);
      ghost var mappings0 := mappings;
      assert mappings == mappings[..|mappings|];
      ReplaceMappings(replaced, newMaps);
      MoveSlabs(fileSize, replaced, oldNumMappings, mappings0);
      StillVisible(mappings0, old(oldTables), mappings, oldTables, youngest,
          OldTable(youngest, |mappings0|, old(table)));
    }

    /** Retires the last mapping if it is replaced, and adds the new ones. */
    method ReplaceMappings(replaced: bool, newMaps: seq<Addr>)
      requires Retained(mappings, oldMappings, oldTables, youngest)
      requires replaced ==> mappings != []
      requires |mappings| <= |table| && table[..|mappings|] == mappings
      modifies this`mappings, this`oldMappings
      ensures mappings == (if replaced then old(mappings)[..|old(mappings)| - 1] else old(mappings)) + newMaps
      ensures Retained(mappings, oldMappings, oldTables, youngest)
      ensures TableHeld(mappings, oldMappings, OldTable(youngest, |old(mappings)|, table))
    {
      hide Retained, Held;
      if replaced {
        var n := |mappings| - 1;
        MappingReplaced(mappings, oldMappings, oldTables, youngest, newMaps);
        oldMappings := oldMappings + [OldMapping(youngest, n, mappings[n])];
        mappings := mappings[..n];
      } else {
        MappingsAdded(mappings, oldMappings, oldTables, youngest, newMaps);
      }
      mappings := mappings + newMaps;
      forall i | 0 <= i < |old(mappings)| ensures Held(mappings, oldMappings, youngest, i, table[i]) {
        assert table[i] == old(mappings)[i];
      }
    }

    /** The check of debug builds: every retained table was replaced before the youngest version,
        and points only to what is still mapped. */
    method VerifyOldTranslations(youngest': int) returns (ok: bool)
      requires forall t :: t in oldTables ==> TableHeld(mappings, oldMappings, t)
      ensures ok <==> AllOlder(oldTables, youngest')
    {
      hide Held;
      ok := true;
      var addrs := set m | m in oldMappings :: m.addr;
      addrs := addrs + set a | a in mappings;
      var k := 0;
      while k < |oldTables|
        invariant 0 <= k <= |oldTables|
        invariant ok <==> AllOlder(oldTables[..k], youngest')
      {
        var t := oldTables[k];
        assert oldTables[..k + 1] == oldTables[..k] + [t];
        assert TableHeld(mappings, oldMappings, t);
        if !(youngest' == 0 || t.version < youngest') {
          ok := false;
        }
        var i := 0;
        while i < t.count
          invariant 0 <= i <= t.count
          invariant ok <==> AllOlder(oldTables[..k + 1], youngest')
        {
          HeldSomewhere(mappings, oldMappings, t.version, i, t.entries[i]);
          if t.entries[i] !in addrs {
            ok := false;
          }
          i := i + 1;
        }
        k := k + 1;
      }
      assert oldTables[..k] == oldTables;
    }

    /** Drops what no live transaction can be using any more.  `ok` reports the assertions of debug builds. */
    method PurgeOldMappings(oldest: int, youngest': int) returns (ok: bool)
      requires Valid()
      modifies this`oldMappings, this`oldTables, this`youngest
      ensures youngest == youngest' && (Valid() <==> NotYounger(old(oldTables), oldest, youngest'))
      ensures ok <==> AllOlder(old(oldTables), youngest')
      ensures old(youngest) <= youngest' ==> Valid()
      ensures forall m :: m in oldMappings <==> m in old(oldMappings) && oldest <= m.version
      ensures forall t :: t in oldTables <==> t in old(oldTables) && oldest <= t.version
      ensures forall version, view :: oldest <= version && old(Visible(mappings, oldTables, version, view))
                ==> Visible(mappings, oldTables, version, view)
    {
      hide Listed, Coalesced, Shaped, Retained, Requests, InUse, Visible, NotYounger, Runs, TableHeld, Shown;
      Purged(mappings, oldMappings, oldTables, youngest, oldest, youngest');
      var before := VerifyOldTranslations(youngest');
      DropOld(oldest, youngest');
      var after := VerifyOldTranslations(youngest');
      ok := before && after;
    }

    method DropOld(oldest: int, youngest': int)
      modifies this`oldMappings, this`oldTables, this`youngest
      ensures oldMappings == KeptMappings(old(oldMappings), oldest) && oldTables == KeptTables(old(oldTables), oldest)
      ensures youngest == youngest'
    {
      oldMappings := KeptMappings(oldMappings, oldest);
      oldTables := KeptTables(oldTables, oldest);
      youngest := youngest';
    }

    /** A file of the given size is attached, its sections mapped at `maps`. */
    constructor (fileSize: int, maps: seq<Addr>, lens: seq<int>, version: int)
      requires 0 <= fileSize && |lens| == |maps| == AlignToSection(fileSize) / SECTION && Shown(fileSize, lens)
      ensures Valid() && !dirty && slabs == [] && baseline == fileSize && mappings == maps && InUse(blocks) == map[]
    {
      tag, node, heads, slabs := map[], map[], map[], [];
      baseline, table, mappings, lengths := fileSize, maps, maps, lens;
      oldMappings, oldTables, youngest := [], [], version;
      freeReadOnly, dirty, commitSize := map[], false, 0;
      blocks, rings, requested := map[], map[], map[];
      new;
      assert Free(blocks) - {} == map[];
    }

    // ----- whole runs -----

    /** Freeing everything in use, in any order, leaves every slab one free block. */
    method FreeInOrder(items: seq<(int, Addr, int)>)
      requires Valid() && DistinctAddrs(items) && requested.Keys == Addrs(items, 0)
      requires AllOwned(slabs, blocks, requested, items, 0)
      modifies this
      ensures Valid() && requested == map[] && slabs == old(slabs) && OneBlockPerSlab(slabs, blocks)
    {
      hide Shaped, Listed, Coalesced, Requests, Retained, Runs, InUse, Owns, Addrs, DistinctAddrs, OneBlockPerSlab;
      var n := 0;
      while n < |items|
        invariant 0 <= n <= |items| && Valid() && slabs == old(slabs)
        invariant requested.Keys == Addrs(items, n) && AllOwned(slabs, blocks, requested, items, n)
      {
        ghost var was, asked := blocks, requested;
        UsedAboveBaseline(tag, slabs, blocks, baseline, table, mappings, requested, items[n]);
        var _ := DoFree(items[n].0, items[n].1, items[n].2);
        OthersOwned(slabs, was, blocks, asked, requested, items, n);
        n := n + 1;
      }
      NoItems(items, n);
      NoneLeft(tag, slabs, blocks, baseline, table, mappings, requested);
    }
  }
}
