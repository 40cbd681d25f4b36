/** The state of the slab allocator as values: which ref each block has, what the free
    lists hold, which slab owns which section of ref space, and what each step of the
    allocator does to that state.
 */
module SlabState {
  import Bits
  import opened FreeRings
  import opened BoundaryTags
  import opened ReadOnlySpace

  /** Slabs grow in steps of 128K. */
  const MINIMAL_ALLOC := 0x2_0000
  /** The largest request a slab can serve: a section less the tags at both ends. */
  const LARGEST := SECTION - 2 * TAG

  datatype AllocResult = Allocated(ref: int, addr: Addr) | Aborted

  /** The first section boundary at or above a position. */
  function AlignToSection(pos: int): (r: int)
    ensures r % SECTION == 0 && pos <= r < pos + SECTION
  {
    if pos % SECTION == 0 then pos else (pos / SECTION + 1) * SECTION
  }

  /** What a request is raised to: room for a FreeBlock, and a multiple of 8. */
  function Padded(size: int): (r: int)
    ensures r % 8 == 0 && size <= r && MIN_BLOCK <= r
    ensures size % 8 == 0 ==> r == size || r == MIN_BLOCK
  {
    var s := if size < MIN_BLOCK then MIN_BLOCK else size;
    if s % 8 == 0 then s else (s + 7) / 8 * 8
  }

  function AllocatedSize(slabs: seq<Slab>): (r: int) {
    if slabs == [] then 0 else AllocatedSize(slabs[..|slabs| - 1]) + slabs[|slabs| - 1].size
  }

  /** The size of the slab that is made to serve a request. */
  function GrownSize(size: int, held: int): (r: int) {
    var steps := (size + 2 * TAG + MINIMAL_ALLOC - 1) / MINIMAL_ALLOC * MINIMAL_ALLOC;
    var least := if steps < MINIMAL_ALLOC then MINIMAL_ALLOC else steps;
    var wanted := if least < held then held else least;
    if wanted > SECTION then SECTION else wanted
  }

  /** A new slab has room for the request exactly when the request leaves room for the two tags
      in a section: the sizes up to SECTION - 8 that the allocator admits include one it cannot serve. */
  lemma GrownSizeFits(size: int, held: int)
    requires 0 < size && 0 <= held && held % MINIMAL_ALLOC == 0
    ensures size <= GrownSize(size, held) - 2 * TAG <==> size <= LARGEST
    ensures GrownSize(size, held) % MINIMAL_ALLOC == 0
    ensures MINIMAL_ALLOC <= GrownSize(size, held) <= SECTION
  {
  }

  /** The new slab is no larger than it must be: a multiple of 128K that has room for the request and its
      tags and is at least what is allocated already; that much is allocated unless it exceeds a section. */
  lemma GrownSizeLeast(size: int, held: int, m: int)
    requires 0 < size && 0 <= held && held % MINIMAL_ALLOC == 0
    requires m % MINIMAL_ALLOC == 0 && size + 2 * TAG <= m && held <= m
    ensures GrownSize(size, held) <= m
    ensures held <= GrownSize(size, held) || GrownSize(size, held) == SECTION
  {
  }

  lemma AllocatedSizeAdds(slabs: seq<Slab>, x: Slab)
    ensures AllocatedSize(slabs + [x]) == AllocatedSize(slabs) + x.size && AllocatedSize([]) == 0
  {
    assert (slabs + [x])[..|slabs|] == slabs;
  }

  /** A request the allocator admits but no slab can serve. */
  lemma AdmittedButNotServed(held: int)
    requires 0 <= held && held % MINIMAL_ALLOC == 0
    ensures var size := SECTION - 8;
            size < SECTION && size % 8 == 0 && GrownSize(size, held) - 2 * TAG < size
  {
    GrownSizeFits(SECTION - 8, held);
  }

  lemma {:induction false} AllocatedSizeSteps(slabs: seq<Slab>)
    requires forall k :: 0 <= k < |slabs| ==> slabs[k].size >= 0 && slabs[k].size % MINIMAL_ALLOC == 0
    ensures AllocatedSize(slabs) >= 0 && AllocatedSize(slabs) % MINIMAL_ALLOC == 0
  {
    if slabs != [] {
      AllocatedSizeSteps(slabs[..|slabs| - 1]);
    }
  }

  /** The first ref of the `k`th section above the (aligned) baseline. */
  function FirstRef(baseline: int, k: int): (r: int) {
    (AlignToSection(baseline) / SECTION + k) * SECTION
  }

  /** Slab `k` owns section `k` above the (aligned) baseline, and the translation table says so;
      below the slabs the table holds the file mappings. */
  ghost predicate Sections(baseline: int, table: seq<Addr>, slabs: seq<Slab>, mappings: seq<Addr>) {
    var base := AlignToSection(baseline) / SECTION;
    && 0 <= baseline
    && |mappings| == base && |table| == base + |slabs| && table[..base] == mappings
    && forall k :: 0 <= k < |slabs| ==>
         && table[base + k] == slabs[k].addr
         && slabs[k].refEnd == FirstRef(baseline, k) + slabs[k].size
         && slabs[k].addr % 8 == 0 && slabs[k].size % MINIMAL_ALLOC == 0
  }

  /** Mapping `k` shows all of section `k`, or as much of it as there is of the file. */
  ghost predicate Shown(baseline: int, lengths: seq<int>) {
    forall k :: 0 <= k < |lengths| ==> SECTION <= lengths[k] || baseline <= SECTION * k + lengths[k]
  }

  /** The ref of a block: its slab's first ref plus its distance from the slab's start. */
  function RefOf(slabs: seq<Slab>, blocks: Blocks, a: Addr): (r: int)
    requires a in blocks && blocks[a].slab < |slabs|
  {
    var slab := slabs[blocks[a].slab];
    slab.refEnd - slab.size + (a - slab.addr)
  }

  /** Ref to address translation through the table. */
  function Translate(table: seq<Addr>, ref: int): (r: Addr)
    requires 0 <= ref / SECTION < |table|
  {
    table[ref / SECTION] + ref % SECTION
  }

  /** `ref` is a ref above the baseline that translates to `addr`. */
  predicate Placed(baseline: int, table: seq<Addr>, ref: int, addr: Addr) {
    && baseline < ref && 0 < ref && ref % 8 == 0 && addr % 8 == 0
    && 0 <= ref / SECTION < |table| && Translate(table, ref) == addr
  }

  /** Translation is exact on every block of every slab, and refs of blocks lie above the baseline. */
  lemma TranslateBlock(tag: Tags, slabs: seq<Slab>, blocks: Blocks, baseline: int, table: seq<Addr>,
      mappings: seq<Addr>, a: Addr)
    requires Shaped(tag, slabs, blocks, baseline, table, mappings) && a in blocks
    ensures blocks[a].slab < |slabs| && Placed(baseline, table, RefOf(slabs, blocks, a), a)
    ensures RefOf(slabs, blocks, a) / SECTION == AlignToSection(baseline) / SECTION + blocks[a].slab
  {
    hide Tiled, AlignToSection, FirstRef, Translate;
    BlockInSlab(tag, slabs, blocks, a);
    var k := blocks[a].slab;
    SlabSection(slabs, baseline, table, mappings, k);
    SectionOf(baseline, k, a - slabs[k].addr);
    TranslateIn(table, RefOf(slabs, blocks, a), AlignToSection(baseline) / SECTION + k, a - slabs[k].addr);
  }

  lemma BlockInSlab(tag: Tags, slabs: seq<Slab>, blocks: Blocks, a: Addr)
    requires Tiled(tag, slabs, blocks) && a in blocks
    ensures blocks[a].slab < |slabs|
    ensures var slab := slabs[blocks[a].slab]; slab.addr < a < slab.addr + slab.size <= slab.addr + SECTION
  {
    hide Apart, Started;
    assert BlockOk(tag, slabs, blocks, a);
  }

  lemma SlabSection(slabs: seq<Slab>, baseline: int, table: seq<Addr>, mappings: seq<Addr>, k: nat)
    requires Sections(baseline, table, slabs, mappings) && k < |slabs|
    ensures 0 <= baseline && 0 <= AlignToSection(baseline) / SECTION && slabs[k].addr % 8 == 0
    ensures AlignToSection(baseline) / SECTION + k < |table|
    ensures table[AlignToSection(baseline) / SECTION + k] == slabs[k].addr
    ensures slabs[k].refEnd - slabs[k].size == FirstRef(baseline, k)
  {
    hide AlignToSection, FirstRef;
  }

  lemma TranslateIn(table: seq<Addr>, ref: int, n: nat, off: int)
    requires n < |table| && ref / SECTION == n && ref % SECTION == off
    ensures Translate(table, ref) == table[n] + off
  {
  }

  /** A ref `off` bytes into a section above the baseline: division by the section size finds
      the section again, and the remainder is `off`. */
  lemma SectionOf(baseline: int, k: nat, off: int)
    requires 0 <= baseline && 0 < off < SECTION
    ensures var ref := FirstRef(baseline, k) + off;
            && ref / SECTION == AlignToSection(baseline) / SECTION + k && ref % SECTION == off
            && baseline < ref && (off % 8 == 0 ==> ref % 8 == 0)
  {
    hide AlignToSection, FirstRef;
    FirstRefAt(baseline, k);
    var base := AlignToSection(baseline);
    Multiple(base, k, off);
  }

  lemma Multiple(base: int, k: nat, off: int)
    requires base % SECTION == 0 && 0 < off < SECTION
    ensures (base + k * SECTION + off) / SECTION == base / SECTION + k && (base + k * SECTION + off) % SECTION == off
    ensures off % 8 == 0 ==> (base + k * SECTION + off) % 8 == 0
  {
    var q, ref := base / SECTION, base + k * SECTION + off;
    Bits.DivMod(base, SECTION);
    Bits.Split(ref, SECTION, off, q + k);
    if off % 8 == 0 {
      Bits.DivMod(off, 8);
      Bits.Split(ref, 8, 0, SECTION / 8 * (q + k) + off / 8);
    }
  }

  lemma FirstRefAt(baseline: int, k: int)
    ensures FirstRef(baseline, k) == AlignToSection(baseline) + k * SECTION
  {
    Bits.DivMod(AlignToSection(baseline), SECTION);
  }

  /** Free blocks record their own ref. */
  ghost predicate RefsRecorded(node: Nodes, slabs: seq<Slab>, blocks: Blocks) {
    forall a :: a in blocks && blocks[a].size > 0 ==>
      a in node && blocks[a].slab < |slabs| && node[a].ref == RefOf(slabs, blocks, a)
  }

  /** Each block in use has at least the size it was requested with, and under 32 bytes more. */
  ghost predicate Requests(used: Blocks, requested: map<Addr, int>) {
    && requested.Keys == used.Keys
    && forall a :: a in requested ==> a in used && Serves(-used[a].size, requested[a])
  }

  predicate Serves(blockSize: int, size: int) {
    0 < size && Padded(size) <= blockSize < Padded(size) + MIN_BLOCK + TAG
  }

  /** The free lists hold every free block except the loose ones, which are between lists. */
  ghost predicate Listed(node: Nodes, heads: map<int, Addr>, rings: Rings, slabs: seq<Slab>, blocks: Blocks,
      loose: set<Addr>) {
    Lists(node, heads, rings, Free(blocks) - loose) && RefsRecorded(node, slabs, blocks)
  }

  /** The part of the state that does not depend on the free lists. */
  ghost predicate Shaped(tag: Tags, slabs: seq<Slab>, blocks: Blocks, baseline: int, table: seq<Addr>,
      mappings: seq<Addr>) {
    Tiled(tag, slabs, blocks) && Aligned(blocks) && Sections(baseline, table, slabs, mappings)
  }

  /** Breaking a loose block leaves the lists alone and makes the rest loose too. */
  lemma BrokenListed(node: Nodes, heads: map<int, Addr>, rings: Rings, slabs: seq<Slab>, blocks: Blocks,
                     block: Addr, first: int, rest: int)
    requires Listed(node, heads, rings, slabs, blocks, {block}) && block in blocks && blocks[block].size > 0
    requires 0 < first && 0 < rest && block + first + TAG !in blocks
    ensures block in node
    ensures var m := block + first + TAG;
            var node' := node[m := FreeBlock(node[block].ref + first + TAG, NULL, NULL)];
            Listed(node'[block := node'[block].(prev := NULL, next := NULL)], heads, rings, slabs,
                   BrokenBlocks(blocks, block, first, rest), {block, m})
  {
    var m := block + first + TAG;
    var node1 := node[m := FreeBlock(node[block].ref + first + TAG, NULL, NULL)];
    var node' := node1[block := node1[block].(prev := NULL, next := NULL)];
    var blocks' := BrokenBlocks(blocks, block, first, rest);
    assert Free(blocks') - {block, m} == Free(blocks) - {block};
    ListsFrame(node, node', heads, rings, Free(blocks) - {block});
  }

  lemma BrokenShaped(tag: Tags, slabs: seq<Slab>, blocks: Blocks, baseline: int, table: seq<Addr>, mappings: seq<Addr>,
      block: Addr, first: int, rest: int)
    requires Shaped(tag, slabs, blocks, baseline, table, mappings) && block in blocks
    requires MIN_BLOCK <= first && MIN_BLOCK <= rest && first % 8 == 0 && blocks[block].size == first + TAG + rest
    ensures BlockOk(tag, slabs, blocks, block) && 0 < block && block + first + TAG !in blocks
    ensures Shaped(BrokenTags(tag, block, EndOf(blocks, block), first, rest), slabs,
                   BrokenBlocks(blocks, block, first, rest), baseline, table, mappings)
  {
    hide Sections, Tiled, Aligned, BlockOk, SlabsOk;
    Broken(tag, slabs, blocks, block, first, rest);
    BlockInSlab(tag, slabs, blocks, block);
    BlocksInSlabs(tag, slabs, blocks);
    SlabPositive(slabs, blocks[block].slab);
    BrokenAligned(blocks, block, first, rest);
  }

  lemma SlabPositive(slabs: seq<Slab>, k: nat)
    requires SlabsOk(slabs) && k < |slabs|
    ensures slabs[k].addr > 0
  {
  }

  lemma BrokenAligned(blocks: Blocks, block: Addr, first: int, rest: int)
    requires Aligned(blocks) && block in blocks && first % 8 == 0 && blocks[block].size == first + TAG + rest
    ensures Aligned(BrokenBlocks(blocks, block, first, rest))
  {
  }

  lemma MergedShaped(tag: Tags, node: Nodes, heads: map<int, Addr>, rings: Rings, slabs: seq<Slab>, blocks: Blocks,
                     baseline: int, table: seq<Addr>, mappings: seq<Addr>, first: Addr, last: Addr, loose: set<Addr>)
    requires Shaped(tag, slabs, blocks, baseline, table, mappings) && first in blocks && last in blocks
    requires blocks[first].size > 0 && blocks[last].size > 0 && last == EndOf(blocks, first) + TAG
    requires Listed(node, heads, rings, slabs, blocks, loose) && first in loose && last in loose
    ensures BlockOk(tag, slabs, blocks, first) && BlockOk(tag, slabs, blocks, last)
    ensures Shaped(Retagged(tag, first, EndOf(blocks, last), blocks[first].size + TAG + blocks[last].size), slabs,
                   MergedBlocks(blocks, first, last), baseline, table, mappings)
    ensures Listed(node, heads, rings, slabs, MergedBlocks(blocks, first, last), loose - {last})
  {
    hide Sections, Lists, Bordered, Apart, Started, SlabsOk;
    Merged(tag, slabs, blocks, first, last);
    assert Free(MergedBlocks(blocks, first, last)) - (loose - {last}) == Free(blocks) - loose;
  }

  /** What the system promises about memory it hands out for a slab. */
  ghost predicate Available(slabs: seq<Slab>, addr: Addr, size: int) {
    && addr > 0 && addr % 8 == 0
    && forall k :: 0 <= k < |slabs| ==> slabs[k].addr + slabs[k].size <= addr || addr + size <= slabs[k].addr
  }

  /** A new slab sits in the next section and starts out as one loose free block. */
  lemma GrownShaped(tag: Tags, node: Nodes, heads: map<int, Addr>, rings: Rings, slabs: seq<Slab>, blocks: Blocks,
                    baseline: int, table: seq<Addr>, mappings: seq<Addr>, slab: Slab)
    requires Shaped(tag, slabs, blocks, baseline, table, mappings) && Listed(node, heads, rings, slabs, blocks, {})
    requires Available(slabs, slab.addr, slab.size)
    requires MINIMAL_ALLOC <= slab.size <= SECTION && slab.size % MINIMAL_ALLOC == 0
    requires slab.refEnd == FirstRef(baseline, |slabs|) + slab.size
    ensures var a := slab.addr + TAG;
            var blocks' := blocks[a := Block(|slabs|, slab.size - 2 * TAG)];
            && a !in blocks
            && Shaped(WholeSlabTags(tag, slab), slabs + [slab], blocks', baseline, table + [slab.addr], mappings)
            && Listed(node[a := FreeBlock(slab.refEnd - slab.size + TAG, NULL, NULL)], heads, rings,
                      slabs + [slab], blocks', {a})
  {
    hide Listed, Shaped, Tiled, FirstRef;
    GrownTiled(tag, slabs, blocks, baseline, table, mappings, slab);
    GrownListed(node, heads, rings, slabs, blocks, slab);
  }

  lemma GrownTiled(tag: Tags, slabs: seq<Slab>, blocks: Blocks, baseline: int, table: seq<Addr>, mappings: seq<Addr>,
      slab: Slab)
    requires Shaped(tag, slabs, blocks, baseline, table, mappings) && Available(slabs, slab.addr, slab.size)
    requires MINIMAL_ALLOC <= slab.size <= SECTION && slab.size % MINIMAL_ALLOC == 0
    requires slab.refEnd == FirstRef(baseline, |slabs|) + slab.size
    ensures slab.addr + TAG !in blocks && forall b :: b in blocks ==> blocks[b].slab < |slabs|
    ensures Shaped(WholeSlabTags(tag, slab), slabs + [slab],
                   blocks[slab.addr + TAG := Block(|slabs|, slab.size - 2 * TAG)],
                   baseline, table + [slab.addr], mappings)
  {
    hide Tiled, Sections, FirstRef, SlabsOk, Aligned;
    BlocksInSlabs(tag, slabs, blocks);
    GrownSlabs(slabs, slab);
    GrownAligned(slabs, blocks, slab);
    GrownSections(slabs, baseline, table, mappings, slab);
    SlabAdded(tag, slabs, blocks, slab);
  }

  lemma GrownAligned(slabs: seq<Slab>, blocks: Blocks, slab: Slab)
    requires Aligned(blocks) && Available(slabs, slab.addr, slab.size) && slab.size % MINIMAL_ALLOC == 0
    ensures Aligned(blocks[slab.addr + TAG := Block(|slabs|, slab.size - 2 * TAG)])
  {
    Bits.DivMod(slab.size, MINIMAL_ALLOC);
    Bits.Split(slab.size, 8, 0, MINIMAL_ALLOC / 8 * (slab.size / MINIMAL_ALLOC));
  }

  lemma BlocksInSlabs(tag: Tags, slabs: seq<Slab>, blocks: Blocks)
    requires Tiled(tag, slabs, blocks)
    ensures SlabsOk(slabs) && forall b :: b in blocks ==> blocks[b].slab < |slabs|
  {
    hide SlabsOk, Apart, Started;
    forall b | b in blocks ensures blocks[b].slab < |slabs| {
      assert BlockOk(tag, slabs, blocks, b);
    }
  }

  lemma GrownSlabs(slabs: seq<Slab>, slab: Slab)
    requires SlabsOk(slabs) && Available(slabs, slab.addr, slab.size) && MINIMAL_ALLOC <= slab.size <= SECTION
    ensures SlabsOk(slabs + [slab])
  {
  }

  lemma GrownListed(node: Nodes, heads: map<int, Addr>, rings: Rings, slabs: seq<Slab>, blocks: Blocks, slab: Slab)
    requires Listed(node, heads, rings, slabs, blocks, {}) && slab.addr + TAG !in blocks
    requires forall b :: b in blocks ==> blocks[b].slab < |slabs|
    requires MINIMAL_ALLOC <= slab.size
    ensures var a := slab.addr + TAG;
            Listed(node[a := FreeBlock(slab.refEnd - slab.size + TAG, NULL, NULL)], heads, rings, slabs + [slab],
                   blocks[a := Block(|slabs|, slab.size - 2 * TAG)], {a})
  {
    hide Lists;
    var slabs', a := slabs + [slab], slab.addr + TAG;
    var blocks' := blocks[a := Block(|slabs|, slab.size - 2 * TAG)];
    var node' := node[a := FreeBlock(slab.refEnd - slab.size + TAG, NULL, NULL)];
    assert slabs'[|slabs|] == slab;
    assert Free(blocks') - {a} == Free(blocks) - {};
    ListsFrame(node, node', heads, rings, Free(blocks) - {});
  }

  lemma GrownSections(slabs: seq<Slab>, baseline: int, table: seq<Addr>, mappings: seq<Addr>, slab: Slab)
    requires Sections(baseline, table, slabs, mappings)
    requires slab.addr % 8 == 0 && slab.size % MINIMAL_ALLOC == 0 &&
             slab.refEnd == FirstRef(baseline, |slabs|) + slab.size
    ensures Sections(baseline, table + [slab.addr], slabs + [slab], mappings)
  {
  }

  lemma NextSection(tag: Tags, slabs: seq<Slab>, blocks: Blocks, baseline: int, table: seq<Addr>, mappings: seq<Addr>)
    requires Shaped(tag, slabs, blocks, baseline, table, mappings)
    ensures forall k :: 0 <= k < |slabs| ==> slabs[k].size >= 0 && slabs[k].size % MINIMAL_ALLOC == 0
    ensures AllocatedSize(slabs) >= 0 && AllocatedSize(slabs) % MINIMAL_ALLOC == 0
    ensures |table| == |mappings| + |slabs| && table[..|mappings|] == mappings
    ensures AlignToSection(if slabs == [] then baseline else slabs[|slabs| - 1].refEnd)
         == FirstRef(baseline, |slabs|)
  {
    hide Tiled, FirstRef;
    assert SlabsOk(slabs) by { ShapedSlabs(tag, slabs, blocks, baseline, table, mappings); }
    AllocatedSizeSteps(slabs);
    var n := |slabs|;
    FirstRefAt(baseline, n);
    if n > 0 {
      FirstRefAt(baseline, n - 1);
      AlignUp(AlignToSection(baseline) + (n - 1) * SECTION, slabs[n - 1].size);
    }
  }

  lemma AlignUp(start: int, size: int)
    requires start % SECTION == 0 && 0 < size <= SECTION
    ensures AlignToSection(start + size) == start + SECTION
  {
  }

  lemma GrownCoalesced(tag: Tags, slabs: seq<Slab>, blocks: Blocks, baseline: int, table: seq<Addr>,
      mappings: seq<Addr>, slab: Slab)
    requires Shaped(tag, slabs, blocks, baseline, table, mappings) && Coalesced(blocks)
    requires Available(slabs, slab.addr, slab.size) && MINIMAL_ALLOC <= slab.size <= SECTION
    ensures Coalesced(blocks[slab.addr + TAG := Block(|slabs|, slab.size - 2 * TAG)])
  {
    var s := slab.addr + TAG;
    assert (slabs + [slab])[|slabs|] == slab;
    var blocks' := blocks[s := Block(|slabs|, slab.size - 2 * TAG)];
    forall a, c | a in blocks' && c in blocks' && c == EndOf(blocks', a) + TAG && blocks'[a].size > 0
      ensures blocks'[c].size < 0
    {
      if a != s {
        OldBlock(tag, slabs, blocks, slab, a);
      }
      if c != s {
        OldBlock(tag, slabs, blocks, slab, c);
      }
    }
  }

  /** What growing by a slab of the computed size does to the state. */
  lemma Grown(tag: Tags, node: Nodes, heads: map<int, Addr>, rings: Rings, slabs: seq<Slab>, blocks: Blocks,
              baseline: int, table: seq<Addr>, mappings: seq<Addr>, size: int, slab: Slab)
    requires Shaped(tag, slabs, blocks, baseline, table, mappings) && Listed(node, heads, rings, slabs, blocks, {})
    requires Available(slabs, slab.addr, slab.size) && 0 < size && slab.size == GrownSize(size, AllocatedSize(slabs))
    requires slab.refEnd == FirstRef(baseline, |slabs|) + slab.size
    ensures var a := slab.addr + TAG;
            var blocks' := blocks[a := Block(|slabs|, slab.size - 2 * TAG)];
            && 2 * TAG < slab.size && a !in blocks
            && Shaped(WholeSlabTags(tag, slab), slabs + [slab], blocks', baseline, table + [slab.addr], mappings)
            && Listed(node[a := FreeBlock(slab.refEnd - slab.size + TAG, NULL, NULL)], heads, rings,
                      slabs + [slab], blocks', {a})
            && (Coalesced(blocks) ==> Coalesced(blocks'))
  {
    hide Shaped, Listed, GrownSize, Available, FirstRef;
    NextSection(tag, slabs, blocks, baseline, table, mappings);
    GrownSizeFits(size, AllocatedSize(slabs));
    GrownShaped(tag, node, heads, rings, slabs, blocks, baseline, table, mappings, slab);
    if Coalesced(blocks) {
      GrownCoalesced(tag, slabs, blocks, baseline, table, mappings, slab);
    }
  }

  /** Using a loose block: it is in no list, and free blocks stay apart. */
  lemma UsedListed(node: Nodes, heads: map<int, Addr>, rings: Rings, slabs: seq<Slab>, blocks: Blocks, a: Addr)
    requires Listed(node, heads, rings, slabs, blocks, {a}) && a in blocks && blocks[a].size > 0
    ensures Listed(node, heads, rings, slabs, Flipped(blocks, a), {})
    ensures a in node && blocks[a].slab < |slabs| && node[a].ref == RefOf(slabs, blocks, a)
  {
    var blocks' := Flipped(blocks, a);
    assert Free(blocks') - {} == Free(blocks) - {a};
  }

  lemma UsedRequests(blocks: Blocks, requested: map<Addr, int>, a: Addr, size: int)
    requires Requests(InUse(blocks), requested) && a in blocks && blocks[a].size > 0 && Serves(blocks[a].size, size)
    ensures a !in InUse(blocks)
    ensures var blocks' := Flipped(blocks, a);
            && InUse(blocks') == InUse(blocks)[a := blocks'[a]]
            && Requests(InUse(blocks'), requested[a := size])
  {
    var blocks' := Flipped(blocks, a);
    assert InUse(blocks') == InUse(blocks)[a := blocks'[a]];
  }

  /** Only blocks in use were requested. */
  lemma NotRequested(blocks: Blocks, requested: map<Addr, int>)
    requires Requests(InUse(blocks), requested)
    ensures requested.Keys == InUse(blocks).Keys
  {
  }

  lemma UsedCoalesced(blocks: Blocks, a: Addr)
    requires Coalesced(blocks) && a in blocks && blocks[a].size > 0
    ensures Coalesced(Flipped(blocks, a))
  {
    var blocks' := Flipped(blocks, a);
    assert forall c :: c in blocks ==> EndOf(blocks', c) == EndOf(blocks, c);
  }

  /** The tags around a block, as far as the block itself goes. */
  ghost predicate Tagged(tag: Tags, blocks: Blocks, a: Addr)
    requires a in blocks
  {
    a - TAG in tag && tag[a - TAG].after == blocks[a].size && EndOf(blocks, a) in tag
  }

  /** No block is larger than a section less two tags. */
  lemma BlockFits(tag: Tags, slabs: seq<Slab>, blocks: Blocks, baseline: int, table: seq<Addr>, mappings: seq<Addr>,
                  a: Addr)
    requires Shaped(tag, slabs, blocks, baseline, table, mappings) && a in blocks
    ensures Abs(blocks[a].size) <= LARGEST && Tagged(tag, blocks, a) && Apart(blocks)
  {
    assert BlockOk(tag, slabs, blocks, a);
  }

  /** A block that was in use and is marked free is on no list, whatever the client left in it. */
  lemma FreedListed(node: Nodes, heads: map<int, Addr>, rings: Rings, slabs: seq<Slab>, blocks: Blocks, a: Addr,
      entry: FreeBlock)
    requires a in blocks && blocks[a].size > 0 && blocks[a].slab < |slabs|
    requires Listed(node, heads, rings, slabs, Flipped(blocks, a), {})
    requires entry.ref == RefOf(slabs, blocks, a)
    ensures Listed(node[a := entry], heads, rings, slabs, blocks, {a})
  {
    var was := Flipped(blocks, a);
    assert Free(blocks) - {a} == Free(was) - {};
    ListsFrame(node, node[a := entry], heads, rings, Free(was) - {});
    forall c | c in blocks && blocks[c].size > 0
      ensures c in node[a := entry] && blocks[c].slab < |slabs| && node[a := entry][c].ref == RefOf(slabs, blocks, c)
    {
      if c != a {
        assert was[c] == blocks[c];
      }
    }
  }

  lemma NothingRequested()
    ensures Requests(map[], map[]) && Runs(map[])
  {
  }

  lemma FreedCoalesced(blocks: Blocks, a: Addr)
    requires Coalesced(blocks) && a in blocks && blocks[a].size < 0
    ensures CoalescedBut(Flipped(blocks, a), a)
  {
    var blocks' := Flipped(blocks, a);
    assert forall c :: c in blocks ==> EndOf(blocks', c) == EndOf(blocks, c);
  }

  lemma FreedRequests(blocks: Blocks, requested: map<Addr, int>, a: Addr)
    requires Requests(InUse(blocks), requested) && a in requested && a in blocks
    ensures blocks[a].size < 0 && Padded(requested[a]) <= -blocks[a].size < Padded(requested[a]) + MIN_BLOCK + TAG
    ensures var blocks' := Flipped(blocks, a);
            && InUse(blocks') == InUse(blocks) - {a}
            && Requests(InUse(blocks) - {a}, requested - {a})
  {
  }

  /** The block before `a` is free exactly when the tag before `a` says so. */
  lemma PrevFree(tag: Tags, slabs: seq<Slab>, blocks: Blocks, baseline: int, table: seq<Addr>, mappings: seq<Addr>,
                 a: Addr)
    requires Shaped(tag, slabs, blocks, baseline, table, mappings) && a in blocks
    ensures Tagged(tag, blocks, a) && Apart(blocks)
    ensures tag[a - TAG].before > 0 ==>
              var p := a - TAG - tag[a - TAG].before;
              && p in blocks && blocks[p].size == tag[a - TAG].before
              && EndOf(blocks, p) + TAG == a && Tagged(tag, blocks, p)
    ensures tag[a - TAG].before <= 0 ==> forall c :: c in blocks && EndOf(blocks, c) + TAG == a ==> blocks[c].size <= 0
  {
    assert BlockOk(tag, slabs, blocks, a);
    var p := PrevOf(tag, a);
    if tag[a - TAG].before > 0 {
      assert BlockOk(tag, slabs, blocks, p);
    } else {
      forall c | c in blocks && EndOf(blocks, c) + TAG == a ensures blocks[c].size <= 0 {
        Neighbours(tag, slabs, blocks, a, c);
      }
    }
  }

  /** The block after `a` is free exactly when the tag after `a` says so. */
  lemma NextFree(tag: Tags, slabs: seq<Slab>, blocks: Blocks, baseline: int, table: seq<Addr>, mappings: seq<Addr>,
                 a: Addr)
    requires Shaped(tag, slabs, blocks, baseline, table, mappings) && a in blocks && blocks[a].size > 0
    ensures Tagged(tag, blocks, a) && Apart(blocks)
    ensures var e := EndOf(blocks, a);
            if tag[e].after > 0 then
              e + TAG in blocks && blocks[e + TAG].size == tag[e].after && Tagged(tag, blocks, e + TAG)
            else
              e + TAG in blocks ==> blocks[e + TAG].size < 0
  {
    var e := a + blocks[a].size;
    assert BlockOk(tag, slabs, blocks, a);
    if e + TAG in blocks {
      Neighbours(tag, slabs, blocks, a, e + TAG);
      assert BlockOk(tag, slabs, blocks, e + TAG);
    }
  }

  /** A free block between blocks in use leaves nothing to merge. */
  lemma Settled(blocks: Blocks, a: Addr)
    requires CoalescedBut(blocks, a) && a in blocks
    requires forall c :: c in blocks && EndOf(blocks, c) + TAG == a ==> blocks[c].size <= 0
    requires EndOf(blocks, a) + TAG in blocks ==> blocks[EndOf(blocks, a) + TAG].size < 0
    ensures Coalesced(blocks)
  {
  }

  /** Words outside the payload of the block at `a`. */
  ghost predicate SameOutside<T>(m: map<Addr, T>, m': map<Addr, T>, a: Addr, size: int) {
    forall x :: x < a || a + size <= x ==> (x in m <==> x in m') && (x in m ==> m'[x] == m[x])
  }

  /** Whatever is written to the payload of a block in use, the tiling and the lists stand. */
  lemma PayloadFrame(tag: Tags, tag': Tags, node: Nodes, node': Nodes, heads: map<int, Addr>, rings: Rings,
                     slabs: seq<Slab>, blocks: Blocks, a: Addr)
    requires Tiled(tag, slabs, blocks) && Listed(node, heads, rings, slabs, blocks, {})
    requires a in blocks && blocks[a].size < 0
    requires SameOutside(tag, tag', a, -blocks[a].size) && SameOutside(node, node', a, -blocks[a].size)
    ensures Tiled(tag', slabs, blocks) && Listed(node', heads, rings, slabs, blocks, {})
  {
    forall c {:trigger BlockOk(tag', slabs, blocks, c)} | c in blocks ensures BlockOk(tag', slabs, blocks, c) {
      Neighbours(tag, slabs, blocks, c, a);
    }
    assert forall c :: c in blocks && c != a ==> c < a || EndOf(blocks, a) <= c;
    ListsFrame(node, node', heads, rings, Free(blocks) - {});
  }

  /** The slab is one free block: what `is_all_free` looks for at both ends of a slab. */
  predicate WholeFree(tag: Tags, slab: Slab)
    requires slab.addr in tag && slab.addr + slab.size - TAG in tag
  {
    && tag[slab.addr].after == tag[slab.addr + slab.size - TAG].before
    && slab.size - 2 * TAG == tag[slab.addr].after
  }

  lemma SlabEnds(tag: Tags, slabs: seq<Slab>, blocks: Blocks, k: nat)
    requires Tiled(tag, slabs, blocks) && Coalesced(blocks) && k < |slabs|
    ensures slabs[k].addr in tag && tag[slabs[k].addr].before == 0
    ensures slabs[k].addr + slabs[k].size - TAG in tag && tag[slabs[k].addr + slabs[k].size - TAG].after == 0
    ensures WholeFree(tag, slabs[k]) <==> forall a :: a in blocks && blocks[a].slab == k ==> blocks[a].size > 0
  {
    var s := slabs[k].addr + TAG;
    assert BlockOk(tag, slabs, blocks, s);
    var p := PrevOf(tag, s);
    assert p in blocks ==> BlockOk(tag, slabs, blocks, p);
    LastTag(tag, slabs, blocks, s);
    if WholeFree(tag, slabs[k]) {
      forall a | a in blocks && blocks[a].slab == k ensures blocks[a].size > 0 {
        assert BlockOk(tag, slabs, blocks, a);
        assert a == s;
      }
    }
    assert EndOf(blocks, s) + TAG in blocks ==>
           blocks[EndOf(blocks, s) + TAG].slab == k || tag[EndOf(blocks, s)].after == 0;
  }

  /** Following the tags upwards from any block leads to the tag at the end of its slab. */
  lemma {:induction false} LastTag(tag: Tags, slabs: seq<Slab>, blocks: Blocks, a: Addr)
    requires Tiled(tag, slabs, blocks) && a in blocks
    ensures blocks[a].slab < |slabs|
    ensures var e := slabs[blocks[a].slab].addr + slabs[blocks[a].slab].size - TAG;
            e in tag && tag[e].after == 0
    decreases if blocks[a].slab < |slabs| then slabs[blocks[a].slab].addr + slabs[blocks[a].slab].size - a else 0
  {
    assert BlockOk(tag, slabs, blocks, a);
    var e := EndOf(blocks, a);
    if tag[e].after != 0 {
      assert BlockOk(tag, slabs, blocks, e + TAG);
      LastTag(tag, slabs, blocks, e + TAG);
    }
  }

  /** Rebuilding adds the slabs one at a time, as if they had just been made. */
  lemma SlabPlace(slabs: seq<Slab>, baseline: int, table: seq<Addr>, mappings: seq<Addr>, i: nat)
    requires SlabsOk(slabs) && Sections(baseline, table, slabs, mappings) && i < |slabs|
    ensures slabs[i].refEnd == FirstRef(baseline, i) + slabs[i].size && slabs[i].size % MINIMAL_ALLOC == 0 &&
            slabs[i].addr % 8 == 0
    ensures MINIMAL_ALLOC <= slabs[i].size <= SECTION
    ensures AlignToSection(slabs[i].refEnd) == FirstRef(baseline, i + 1)
    ensures |table| == |mappings| + |slabs| && table[|mappings| + i] == slabs[i].addr
  {
  }

  lemma Rebuilt(tag: Tags, node: Nodes, heads: map<int, Addr>, rings: Rings, slabs: seq<Slab>, blocks: Blocks,
                baseline: int, table: seq<Addr>, mappings: seq<Addr>, i: nat)
    requires SlabsOk(slabs) && Sections(baseline, table, slabs, mappings) && i < |slabs|
    requires Shaped(tag, slabs[..i], blocks, baseline, table[..|mappings| + i], mappings) && Coalesced(blocks)
    requires Listed(node, heads, rings, slabs, blocks, {}) && InUse(blocks) == map[]
    ensures slabs[i].refEnd - FirstRef(baseline, i) == slabs[i].size && 2 * TAG < slabs[i].size
    ensures AlignToSection(slabs[i].refEnd) == FirstRef(baseline, i + 1)
    ensures var a := slabs[i].addr + TAG;
            var blocks' := blocks[a := Block(i, slabs[i].size - 2 * TAG)];
            var tag' := WholeSlabTags(tag, slabs[i]);
            && Shaped(tag', slabs[..i + 1], blocks', baseline, table[..|mappings| + (i + 1)], mappings)
            && Coalesced(blocks') && InUse(blocks') == map[]
            && a - TAG in tag' && tag'[a - TAG].after == slabs[i].size - 2 * TAG
            && Listed(node[a := FreeBlock(FirstRef(baseline, i) + TAG, NULL, NULL)], heads, rings, slabs, blocks', {a})
  {
    hide Listed, Shaped, Coalesced, FirstRef, AlignToSection, SlabsOk, Sections;
    var slab := slabs[i];
    var a := slab.addr + TAG;
    var blocks' := blocks[a := Block(i, slab.size - 2 * TAG)];
    var node' := node[a := FreeBlock(FirstRef(baseline, i) + TAG, NULL, NULL)];
    SlabPlace(slabs, baseline, table, mappings, i);
    assert slabs[..i] + [slab] == slabs[..i + 1];
    assert table[..|mappings| + i] + [slab.addr] == table[..|mappings| + (i + 1)];
    SlabsAvailable(slabs, i);
    ListedPrefix(tag, node, heads, rings, slabs, blocks, baseline, table[..|mappings| + i], mappings, {}, i);
    GrownShaped(tag, node, heads, rings, slabs[..i], blocks, baseline, table[..|mappings| + i], mappings, slab);
    GrownCoalesced(tag, slabs[..i], blocks, baseline, table[..|mappings| + i], mappings, slab);
    ListedPrefix(WholeSlabTags(tag, slab), node', heads, rings, slabs, blocks', baseline, table[..|mappings| + (i + 1)],
        mappings, {a}, i + 1);
  }

  lemma ListedPrefix(tag: Tags, node: Nodes, heads: map<int, Addr>, rings: Rings, slabs: seq<Slab>, blocks: Blocks,
                     baseline: int, table: seq<Addr>, mappings: seq<Addr>, loose: set<Addr>, i: nat)
    requires i <= |slabs| && Shaped(tag, slabs[..i], blocks, baseline, table, mappings)
    ensures Listed(node, heads, rings, slabs[..i], blocks, loose) <==> Listed(node, heads, rings, slabs, blocks, loose)
  {
    hide Lists, Sections;
    forall a | a in blocks ensures blocks[a].slab < i && RefOf(slabs[..i], blocks, a) == RefOf(slabs, blocks, a) {
      assert BlockOk(tag, slabs[..i], blocks, a);
    }
  }

  lemma NothingRebuilt(tag: Tags, node: Nodes, slabs: seq<Slab>, baseline: int, table: seq<Addr>, mappings: seq<Addr>)
    requires Sections(baseline, table, slabs, mappings)
    ensures |table| == |mappings| + |slabs| && AlignToSection(baseline) == FirstRef(baseline, 0)
    ensures Shaped(tag, slabs[..0], map[], baseline, table[..|mappings| + 0], mappings)
    ensures Coalesced(map[]) && InUse(map[]) == map[]
    ensures Listed(node, map[], map[], slabs, map[], {})
  {
    assert table[..|mappings| + 0] == mappings;
    var none: Blocks := map[];
    assert Free(none) - {} == map[];
  }

  lemma ShapedSlabs(tag: Tags, slabs: seq<Slab>, blocks: Blocks, baseline: int, table: seq<Addr>, mappings: seq<Addr>)
    requires Shaped(tag, slabs, blocks, baseline, table, mappings)
    ensures SlabsOk(slabs) && Sections(baseline, table, slabs, mappings) && 0 <= baseline
    ensures |mappings| == AlignToSection(baseline) / SECTION && |table| == |mappings| + |slabs| &&
            table[..|mappings|] == mappings
  {
  }

  lemma FewerSections(baseline: int, fileSize: int)
    requires 0 <= baseline < fileSize
    ensures AlignToSection(baseline) / SECTION <= AlignToSection(fileSize) / SECTION
  {
  }

  /** The mappings that are kept show what they showed, or what the last one was extended to. */
  lemma StillShown(baseline: int, was: seq<int>, lengths: seq<int>, n: int, fileSize: int)
    requires Shown(baseline, was)
    requires 0 <= n <= |was| == |lengths|
    requires forall k :: 0 <= k < n && SECTION * (k + 1) <= baseline ==> lengths[k] == was[k]
    requires forall k :: 0 <= k < n && SECTION * (k + 1) > baseline ==>
               lengths[k] == SECTION || lengths[k] == fileSize - SECTION * k
    ensures Shown(fileSize, lengths[..n])
  {
  }

  /** Exactly the whole sections are kept, and the last one when it is extended. */
  lemma KeptSections(baseline: int, n: int, extended: bool, old': seq<Addr>, places: seq<Addr>, m: int)
    requires 0 <= baseline && |old'| == AlignToSection(baseline) / SECTION
    requires n == |old'| - (if baseline < AlignToSection(baseline) && !extended then 1 else 0)
    requires 0 <= n <= m <= |places|
    ensures var r := old'[..n] + places[n..m];
            forall k :: 0 <= k < |r| ==>
              r[k] == if k < |old'| && (extended || SECTION * (k + 1) <= baseline) then old'[k] else places[k]
  {
  }

  lemma AllShown(fileSize: int, lengths: seq<int>, n: int, more: seq<int>)
    requires 0 <= n <= |lengths| && Shown(fileSize, lengths[..n])
    requires forall k :: 0 <= k < |more| ==> SECTION <= more[k] || fileSize <= SECTION * (n + k) + more[k]
    ensures Shown(fileSize, lengths[..n] + more)
  {
  }

  lemma SectionsTable(baseline: int, table: seq<Addr>, slabs: seq<Slab>, mappings: seq<Addr>)
    requires Sections(baseline, table, slabs, mappings)
    ensures |table| == |mappings| + |slabs| && table[..|mappings|] == mappings
  {
  }

  /** The table that matches the mappings and the slabs. */
  function MatchingTable(mappings: seq<Addr>, slabs: seq<Slab>): (r: seq<Addr>)
    ensures |r| == |mappings| + |slabs| && r[..|mappings|] == mappings
    ensures forall k :: 0 <= k < |slabs| ==> r[|mappings| + k] == slabs[k].addr
  {
    mappings + seq(|slabs|, k requires 0 <= k < |slabs| => slabs[k].addr)
  }

  function Displaced(slabs: seq<Slab>, displacement: int): (r: seq<Slab>)
    ensures |r| == |slabs|
    ensures forall k :: 0 <= k < |slabs| ==> r[k] == slabs[k].(refEnd := slabs[k].refEnd + displacement)
  {
    seq(|slabs|, k requires 0 <= k < |slabs| => slabs[k].(refEnd := slabs[k].refEnd + displacement))
  }

  /** Rebasing keeps each slab in the section above the new baseline that it had above the old one. */
  lemma Rebased(slabs: seq<Slab>, baseline: int, table: seq<Addr>, mappings: seq<Addr>, baseline': int,
      mappings': seq<Addr>)
    requires SlabsOk(slabs) && Sections(baseline, table, slabs, mappings)
    requires 0 <= baseline' && |mappings'| == AlignToSection(baseline') / SECTION
    ensures var slabs' := Displaced(slabs, AlignToSection(baseline') - AlignToSection(baseline));
            SlabsOk(slabs') && Sections(baseline', MatchingTable(mappings', slabs'), slabs', mappings')
  {
    var d := AlignToSection(baseline') - AlignToSection(baseline);
    var slabs' := Displaced(slabs, d);
    hide FirstRef, AlignToSection, Displaced, MatchingTable;
    assert forall k :: 0 <= k < |slabs| ==> slabs'[k].addr == slabs[k].addr && slabs'[k].size == slabs[k].size;
    forall k | 0 <= k < |slabs|
      ensures slabs'[k].refEnd == FirstRef(baseline', k) + slabs'[k].size
    {
      FirstRefAt(baseline, k);
      FirstRefAt(baseline', k);
    }
  }

  lemma SlabsAvailable(slabs: seq<Slab>, i: nat)
    requires SlabsOk(slabs) && i < |slabs| && slabs[i].addr % 8 == 0
    ensures Available(slabs[..i], slabs[i].addr, slabs[i].size)
  {
  }

  /** `item` is the ref, address and requested size of a block in use. */
  ghost predicate Owns(slabs: seq<Slab>, blocks: Blocks, requested: map<Addr, int>, item: (int, Addr, int)) {
    && item.1 in requested && requested[item.1] == item.2 && item.1 in InUse(blocks)
    && blocks[item.1].slab < |slabs| && item.0 == RefOf(slabs, blocks, item.1)
  }

  /** A block in use can be freed: it lies above the baseline. */
  lemma UsedAboveBaseline(tag: Tags, slabs: seq<Slab>, blocks: Blocks, baseline: int, table: seq<Addr>,
                          mappings: seq<Addr>, requested: map<Addr, int>, item: (int, Addr, int))
    requires Shaped(tag, slabs, blocks, baseline, table, mappings) && Requests(InUse(blocks), requested)
    requires Owns(slabs, blocks, requested, item)
    ensures baseline < item.0 && 0 < item.2 && item.1 in requested && requested[item.1] == item.2
    ensures item.1 in blocks && blocks[item.1].slab < |slabs| && item.0 == RefOf(slabs, blocks, item.1)
  {
    TranslateBlock(tag, slabs, blocks, baseline, table, mappings, item.1);
  }

  lemma StillOwned(slabs: seq<Slab>, blocks: Blocks, blocks': Blocks, requested: map<Addr, int>,
                   requested': map<Addr, int>, freed: Addr, item: (int, Addr, int))
    requires Owns(slabs, blocks, requested, item) && item.1 != freed
    requires InUse(blocks') == InUse(blocks) - {freed} && requested' == requested - {freed}
    ensures Owns(slabs, blocks', requested', item)
  {
    assert item.1 in InUse(blocks');
    assert InUse(blocks')[item.1] == InUse(blocks)[item.1];
  }

  /** The addresses of the items from the `n`th on. */
  ghost function Addrs(items: seq<(int, Addr, int)>, n: nat): (r: set<Addr>) {
    set i | n <= i < |items| :: items[i].1
  }

  ghost predicate DistinctAddrs(items: seq<(int, Addr, int)>) {
    forall i, j :: 0 <= i < j < |items| ==> items[i].1 != items[j].1
  }

  lemma NoItems(items: seq<(int, Addr, int)>, n: nat)
    requires n == |items|
    ensures Addrs(items, n) == {}
  {
  }

  lemma AddrsStep(items: seq<(int, Addr, int)>, n: nat)
    requires DistinctAddrs(items) && n < |items|
    ensures Addrs(items, n + 1) == Addrs(items, n) - {items[n].1}
  {
  }

  ghost predicate AllOwned(slabs: seq<Slab>, blocks: Blocks, requested: map<Addr, int>, items: seq<(int, Addr, int)>,
      n: nat) {
    forall i :: n <= i < |items| ==> Owns(slabs, blocks, requested, items[i])
  }

  /** Freeing the `n`th item leaves the later ones owned, and what is requested is theirs. */
  lemma OthersOwned(slabs: seq<Slab>, blocks: Blocks, blocks': Blocks, requested: map<Addr, int>,
                    requested': map<Addr, int>, items: seq<(int, Addr, int)>, n: nat)
    requires DistinctAddrs(items) && n < |items| && AllOwned(slabs, blocks, requested, items, n)
    requires requested.Keys == Addrs(items, n)
    requires InUse(blocks') == InUse(blocks) - {items[n].1} && requested' == requested - {items[n].1}
    ensures AllOwned(slabs, blocks', requested', items, n + 1) && requested'.Keys == Addrs(items, n + 1)
  {
    AddrsStep(items, n);
    forall i | n + 1 <= i < |items| ensures Owns(slabs, blocks', requested', items[i]) {
      StillOwned(slabs, blocks, blocks', requested, requested', items[n].1, items[i]);
    }
  }

  lemma NoneLeft(tag: Tags, slabs: seq<Slab>, blocks: Blocks, baseline: int, table: seq<Addr>, mappings: seq<Addr>,
                 requested: map<Addr, int>)
    requires Shaped(tag, slabs, blocks, baseline, table, mappings) && Coalesced(blocks)
    requires Requests(InUse(blocks), requested) && requested.Keys == {}
    ensures requested == map[] && OneBlockPerSlab(slabs, blocks)
  {
    assert InUse(blocks) == map[];
    AllFree(tag, slabs, blocks);
  }

  ghost predicate OneBlockPerSlab(slabs: seq<Slab>, blocks: Blocks) {
    && blocks.Keys == (set k | 0 <= k < |slabs| :: slabs[k].addr + TAG)
    && forall k :: 0 <= k < |slabs| ==>
         slabs[k].addr + TAG in blocks && blocks[slabs[k].addr + TAG] == Block(k, slabs[k].size - 2 * TAG)
  }
}
