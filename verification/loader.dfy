/** Loading a program image: the program-header loop, the heap and the stack. */
module Loader {
  import opened Words
  import opened Memory
  import opened ProgramBreak
  import opened ElfContexts
  import opened Emulator
  import opened Isa
  import opened Refinement

  const PROG_STACK_SIZE: u32 := 0x10_0000
  const PROG_HEAP_SIZE: u32 := 0x10_0000

  /** A program header's type and the fields the loader reads; it does not read the type. */
  datatype Phdr = Phdr(ptype: u32, offset: u32, vaddr: u32, filesz: u32, memsz: u32)

  /** The type of a loadable segment. */
  const PT_LOAD: u32 := 1

  /** The loader takes a header by its memory size, not by its type, unless its file extent, computed in
      32 bits, passes the end of the file. */
  predicate Loadable(ph: Phdr, length: nat) {
    ph.memsz != 0 && !(Wrap32(ph.offset + ph.filesz) > length)
  }

  /** Copying the segment stays within the file and within its block, as C requires. */
  predicate Copyable(ph: Phdr, length: nat) {
    ph.offset + ph.filesz <= length && ph.filesz <= ph.memsz
  }

  predicate Sane(phdrs: seq<Phdr>, length: nat) {
    forall i :: 0 <= i < |phdrs| && Loadable(phdrs[i], length) ==> Copyable(phdrs[i], length)
  }

  /** The 32-bit extent test selects the headers with memory whose extent lies inside the file, save
      exactly for those whose extent overflows 32 bits and wraps from outside the file to inside it. */
  lemma ExtentTest(ph: Phdr, length: nat)
    ensures var extent := ph.offset + ph.filesz;
      (Loadable(ph, length) <==> ph.memsz != 0 && extent <= length)
      <==> !(ph.memsz != 0 && extent > length && extent >= TWO32 && extent - TWO32 <= length)
  {
  }

  function Zeros(n: nat): (z: seq<u8>)
    ensures |z| == n && forall i :: 0 <= i < n ==> z[i] == 0
  {
    seq(n, _ => 0)
  }

  /** The segment's file bytes followed by zeros up to its memory size. */
  function Image(file: seq<u8>, ph: Phdr): (r: seq<u8>)
    requires Copyable(ph, |file|)
    ensures |r| == ph.memsz
    ensures forall j :: 0 <= j < ph.memsz ==> r[j] == if j < ph.filesz then file[ph.offset + j] else 0
  {
    file[ph.offset..ph.offset + ph.filesz] + Zeros(ph.memsz - ph.filesz)
  }

  function Segment(file: seq<u8>, ph: Phdr, addr: nat): Region
    requires Copyable(ph, |file|)
  {
    Region(ph.vaddr, addr, Image(file, ph), 0, ph.memsz, LoadTag)
  }

  /** The positions of the headers the loader takes, in order. */
  function Taken(phdrs: seq<Phdr>, length: nat): (r: seq<nat>)
    ensures |r| <= |phdrs|
    ensures forall k :: 0 <= k < |r| ==> r[k] < |phdrs| && Loadable(phdrs[r[k]], length)
    ensures forall k, l :: 0 <= k < l < |r| ==> r[k] < r[l]
    ensures forall i :: 0 <= i < |phdrs| && Loadable(phdrs[i], length) ==> i in r
  {
    if |phdrs| == 0 then []
    else
      var n := |phdrs| - 1;
      var rest := Taken(phdrs[..n], length);
      if Loadable(phdrs[n], length) then rest + [n] else rest
  }

  /** The positions of the headers of type PT_LOAD, in order. */
  function LoadHeaders(phdrs: seq<Phdr>): (r: seq<nat>)
    ensures forall k :: 0 <= k < |r| ==> r[k] < |phdrs| && phdrs[r[k]].ptype == PT_LOAD
    ensures forall k, l :: 0 <= k < l < |r| ==> r[k] < r[l]
    ensures forall i :: 0 <= i < |phdrs| && phdrs[i].ptype == PT_LOAD ==> i in r
  {
    if |phdrs| == 0 then []
    else
      var n := |phdrs| - 1;
      var rest := LoadHeaders(phdrs[..n]);
      if phdrs[n].ptype == PT_LOAD then rest + [n] else rest
  }

  /** The loader takes the PT_LOAD headers, in order, exactly when those are the loadable ones. */
  lemma {:induction false} TakesLoadSegments(phdrs: seq<Phdr>, length: nat)
    ensures Taken(phdrs, length) == LoadHeaders(phdrs)
       <==> forall i :: 0 <= i < |phdrs| ==> (Loadable(phdrs[i], length) <==> phdrs[i].ptype == PT_LOAD)
  {
    hide Loadable;
    if Taken(phdrs, length) == LoadHeaders(phdrs) {
      var t := Taken(phdrs, length);
      forall i | 0 <= i < |phdrs| ensures Loadable(phdrs[i], length) <==> phdrs[i].ptype == PT_LOAD {
        assert i in t <==> Loadable(phdrs[i], length);
        assert i in t <==> phdrs[i].ptype == PT_LOAD;
      }
    } else if |phdrs| > 0 {
      var n := |phdrs| - 1;
      TakesLoadSegments(phdrs[..n], length);
      if forall i :: 0 <= i < |phdrs| ==> (Loadable(phdrs[i], length) <==> phdrs[i].ptype == PT_LOAD) {
        forall i | 0 <= i < n ensures Loadable(phdrs[..n][i], length) <==> phdrs[..n][i].ptype == PT_LOAD {
          assert phdrs[..n][i] == phdrs[i];
        }
      }
    }
  }

  /** A note segment with a byte of memory is taken, and so is a segment far outside an empty file. */
  lemma TakenWitness()
    ensures var note := [Phdr(4, 0, 0, 1, 1)]; Taken(note, 1) == [0] && LoadHeaders(note) == []
    ensures var ph := Phdr(PT_LOAD, 0xFFFF_FFFF, 0, 1, 1); Loadable(ph, 0) && !Copyable(ph, 0)
  {
    var note := [Phdr(4, 0, 0, 1, 1)];
    assert note[..0] == [];
    assert Loadable(note[0], 1);
  }

  /** The k-th region is the segment of the k-th header taken, in the k-th block allocated. */
  function Segments(file: seq<u8>, phdrs: seq<Phdr>, addrs: seq<nat>): (r: seq<Region>)
    requires Sane(phdrs, |file|) && |addrs| >= |phdrs|
    ensures |r| == |Taken(phdrs, |file|)|
    ensures forall k :: 0 <= k < |r| ==> r[k] == Segment(file, phdrs[Taken(phdrs, |file|)[k]], addrs[k])
  {
    var t := Taken(phdrs, |file|);
    seq(|t|, k requires 0 <= k < |t| => Segment(file, phdrs[t[k]], addrs[k]))
  }

  function HeapRegion(base: u32, addr: nat): Region {
    Region(base, addr, Zeros(PROG_HEAP_SIZE), 0, PROG_HEAP_SIZE, HeapTag)
  }

  function StackRegion(base: u32, addr: nat): Region {
    Region(Wrap32(base + PROG_HEAP_SIZE), addr, Zeros(PROG_STACK_SIZE), 0, PROG_STACK_SIZE, StackTag)
  }

  const EMPTY_REGION := Region(0, 0, [], 0, 0, NoTag)

  /** The whole table: the segments, then the heap at the end of .bss and the stack above it; without a
      .bss section the last two entries stay zeroed. */
  function Table(file: seq<u8>, phdrs: seq<Phdr>, bssStart: u32, bssSize: u32, addrs: seq<nat>): seq<Region>
    requires Sane(phdrs, |file|) && |addrs| >= |phdrs| + 2
  {
    var segments := Segments(file, phdrs, addrs);
    var k := |segments|;
    var base := Wrap32(bssStart + bssSize);
    segments + if bssStart == 0 then [EMPTY_REGION, EMPTY_REGION]
               else [HeapRegion(base, addrs[k]), StackRegion(base, addrs[k + 1])]
  }

  lemma SegmentsStep(file: seq<u8>, phdrs: seq<Phdr>, addrs: seq<nat>, n: nat)
    requires Sane(phdrs, |file|) && |addrs| >= |phdrs| && n < |phdrs|
    ensures Sane(phdrs[..n], |file|) && Sane(phdrs[..n + 1], |file|)
    ensures var rest := Segments(file, phdrs[..n], addrs);
      Segments(file, phdrs[..n + 1], addrs)
      == if Loadable(phdrs[n], |file|) then rest + [Segment(file, phdrs[n], addrs[|rest|])] else rest
  {
    assert phdrs[..n + 1][..n] == phdrs[..n];
    var t, t' := Taken(phdrs[..n], |file|), Taken(phdrs[..n + 1], |file|);
    assert t' == if Loadable(phdrs[n], |file|) then t + [n] else t;
  }

  method NewBlock(image: seq<u8>, size: nat) returns (block: array<u8>)
    requires |image| <= size
    ensures fresh(block) && block[..] == image + Zeros(size - |image|)
  {
    block := new u8[size](_ => 0);
    WriteBlock(block, 0, image);
  }

  /** The first entries of the array hold the given regions, in distinct blocks of the given set. */
  ghost predicate Holds(slots: array<RegionRec>, rs: seq<Region>, blocks: set<object>)
    reads slots, blocks
  {
    && |rs| <= slots.Length
    && (forall k :: 0 <= k < |rs| && slots[k].block != null ==> slots[k].block in blocks)
    && (forall k :: 0 <= k < |rs| ==>
          (slots[k].block == null || slots[k].block in blocks) && slots[k].Value() == rs[k])
    && (forall k, l :: 0 <= k < l < |rs| && slots[k].block != null ==> slots[k].block != slots[l].block)
  }

  /** Fills the next entry with a region over a fresh block. */
  method Put(slots: array<RegionRec>, k: nat, rec: RegionRec, ghost rs: seq<Region>, ghost blocks: set<object>)
    requires k == |rs| < slots.Length && Holds(slots, rs, blocks) && slots !in blocks
    requires rec.block != null && rec.block !in blocks
    modifies slots
    ensures Holds(slots, rs + [rec.Value()], blocks + {rec.block})
    ensures forall j :: 0 <= j < slots.Length && j != k ==> slots[j] == old(slots[j])
  {
    slots[k] := rec;
  }

  lemma NoSegments(file: seq<u8>, phdrs: seq<Phdr>, addrs: seq<nat>)
    ensures Sane(phdrs[..0], |file|) && (|addrs| >= |phdrs| ==> Segments(file, phdrs[..0], addrs) == [])
  {
  }

  lemma SaneAt(phdrs: seq<Phdr>, length: nat, i: nat)
    requires Sane(phdrs, length) && i < |phdrs| && Loadable(phdrs[i], length)
    ensures Copyable(phdrs[i], length)
  {
  }

  lemma HoldsNothing(slots: array<RegionRec>, blocks: set<object>)
    ensures Holds(slots, [], blocks)
  {
  }

  lemma SegmentRecord(file: seq<u8>, ph: Phdr, addr: nat, rec: RegionRec)
    requires Copyable(ph, |file|)
    requires rec.block != null && rec == RegionRec(ph.vaddr, addr, rec.block, 0, ph.memsz, LoadTag)
    requires rec.block[..] == file[ph.offset..ph.offset + ph.filesz] + Zeros(ph.memsz - ph.filesz)
    ensures rec.Value() == Segment(file, ph, addr)
  {
  }

  /** Allocates a zeroed block for a segment, copies the file bytes in and fills the next entry. */
  method LoadOne(file: seq<u8>, ph: Phdr, slots: array<RegionRec>, k: nat, addr: nat,
                 ghost rs: seq<Region>, ghost blocks: set<object>)
    returns (ghost block: object)
    requires Copyable(ph, |file|) && k == |rs| < slots.Length && Holds(slots, rs, blocks) && slots !in blocks
    modifies slots
    ensures fresh(block) && slots != block
    ensures Holds(slots, rs + [Segment(file, ph, addr)], blocks + {block})
    ensures forall j :: 0 <= j < slots.Length && j != k ==> slots[j] == old(slots[j])
  {
    hide Segment, Image, Holds;
    var b := NewBlock(file[ph.offset..ph.offset + ph.filesz], ph.memsz);
    var rec := RegionRec(ph.vaddr, addr, b, 0, ph.memsz, LoadTag);
    SegmentRecord(file, ph, addr, rec);
    Put(slots, k, rec, rs, blocks);
    block := b;
  }

  /** The loop's state after i headers: `phCount` stays two ahead of the segments loaded. */
  ghost predicate LoadedUpTo(file: seq<u8>, phdrs: seq<Phdr>, addrs: seq<nat>, i: nat,
                             slots: array<RegionRec>, phCount: nat, blocks: set<object>)
    requires Sane(phdrs, |file|) && |addrs| >= |phdrs| && i <= |phdrs|
    reads slots, blocks
  {
    SanePrefix(phdrs, |file|, i);
    var rs := Segments(file, phdrs[..i], addrs);
    && slots.Length == |phdrs| + 2 && slots !in blocks
    && phCount == |rs| + 2 <= i + 2
    && (forall k :: |rs| <= k < slots.Length ==> slots[k] == ZERO_REC)
    && Holds(slots, rs, blocks)
  }

  lemma SanePrefix(phdrs: seq<Phdr>, length: nat, i: nat)
    requires Sane(phdrs, length) && i <= |phdrs|
    ensures Sane(phdrs[..i], length)
  {
  }

  lemma LoadedHas(file: seq<u8>, phdrs: seq<Phdr>, addrs: seq<nat>, i: nat,
                  slots: array<RegionRec>, phCount: nat, blocks: set<object>)
    requires Sane(phdrs, |file|) && |addrs| >= |phdrs| && i <= |phdrs|
    ensures Sane(phdrs[..i], |file|)
    ensures LoadedUpTo(file, phdrs, addrs, i, slots, phCount, blocks)
       <==> var rs := Segments(file, phdrs[..i], addrs);
            && slots.Length == |phdrs| + 2 && slots !in blocks
            && phCount == |rs| + 2 <= i + 2
            && (forall k :: |rs| <= k < slots.Length ==> slots[k] == ZERO_REC)
            && Holds(slots, rs, blocks)
  {
    hide Holds, Segments;
    SanePrefix(phdrs, |file|, i);
  }

  /** One turn of the program-header loop. */
  method LoadHeader(file: seq<u8>, phdrs: seq<Phdr>, addrs: seq<nat>, i: nat,
                    slots: array<RegionRec>, phCount: nat, ghost blocks: set<object>)
    returns (phCount': nat, ghost blocks': set<object>)
    requires Sane(phdrs, |file|) && |addrs| >= |phdrs| && i < |phdrs|
    requires LoadedUpTo(file, phdrs, addrs, i, slots, phCount, blocks)
    modifies slots
    ensures LoadedUpTo(file, phdrs, addrs, i + 1, slots, phCount', blocks')
    ensures fresh(blocks' - blocks)
  {
    hide Segments, Segment, Image, Sane, Holds, Taken, Loadable, Copyable, LoadedUpTo;
    LoadedHas(file, phdrs, addrs, i, slots, phCount, blocks);
    SegmentsStep(file, phdrs, addrs, i);
    var ph := phdrs[i];
    if Loadable(ph, |file|) {
      SaneAt(phdrs, |file|, i);
      ghost var rs := Segments(file, phdrs[..i], addrs);
      ghost var block := LoadOne(file, ph, slots, phCount - 2, addrs[phCount - 2], rs, blocks);
      phCount', blocks' := phCount + 1, blocks + {block};
    } else {
      phCount', blocks' := phCount, blocks;
    }
    LoadedHas(file, phdrs, addrs, i + 1, slots, phCount', blocks');
  }

  /** The program-header loop. */
  method LoadSegments(file: seq<u8>, phdrs: seq<Phdr>, addrs: seq<nat>)
    returns (slots: array<RegionRec>, phCount: nat, ghost blocks: set<object>)
    requires Sane(phdrs, |file|) && |addrs| >= |phdrs|
    ensures fresh(slots) && fresh(blocks)
    ensures LoadedUpTo(file, phdrs, addrs, |phdrs|, slots, phCount, blocks)
  {
    slots := new RegionRec[|phdrs| + 2](_ => ZERO_REC);
    phCount, blocks := 2, {};
    NoSegments(file, phdrs, addrs);
    HoldsNothing(slots, blocks);
    hide LoadedUpTo, Sane, Segments, Holds;
    var i := 0;
    while i < |phdrs|
      invariant 0 <= i <= |phdrs| && fresh(slots) && fresh(blocks)
      invariant LoadedUpTo(file, phdrs, addrs, i, slots, phCount, blocks)
    {
      phCount, blocks := LoadHeader(file, phdrs, addrs, i, slots, phCount, blocks);
      i := i + 1;
    }
  }

  /** Without a .bss section the last two entries stay zeroed. */
  lemma HoldsEmpty(slots: array<RegionRec>, rs: seq<Region>, blocks: set<object>)
    requires Holds(slots, rs, blocks) && |rs| + 2 <= slots.Length
    requires forall k :: |rs| <= k < |rs| + 2 ==> slots[k] == ZERO_REC
    ensures Holds(slots, rs + [EMPTY_REGION, EMPTY_REGION], blocks)
  {
  }

  /** A region over a zeroed block, nothing of it allocated yet. */
  method ReservedRegion(base: u32, addr: nat, size: u32, tag: Tag) returns (rec: RegionRec)
    ensures rec.block != null && fresh(rec.block)
    ensures rec.Value() == Region(base, addr, Zeros(size), 0, size, tag)
  {
    var block := NewBlock([], size);
    rec := RegionRec(base, addr, block, 0, size, tag);
  }

  method PlaceHeapAndStack(slots: array<RegionRec>, k: nat, base: u32, addrs: seq<nat>,
                           ghost rs: seq<Region>, ghost blocks: set<object>)
    returns (ghost blocks': set<object>)
    requires k == |rs| && k + 2 <= slots.Length && k + 2 <= |addrs|
    requires Holds(slots, rs, blocks) && slots !in blocks
    modifies slots
    ensures Holds(slots, rs + [HeapRegion(base, addrs[k]), StackRegion(base, addrs[k + 1])], blocks')
    ensures fresh(blocks' - blocks) && slots !in blocks'
  {
    hide Holds, Zeros;
    var heap := ReservedRegion(base, addrs[k], PROG_HEAP_SIZE, HeapTag);
    var stack := ReservedRegion(Wrap32(base + PROG_HEAP_SIZE), addrs[k + 1], PROG_STACK_SIZE, StackTag);
    Put(slots, k, heap, rs, blocks);
    Put(slots, k + 1, stack, rs + [HeapRegion(base, addrs[k])], blocks + {heap.block});
    blocks' := blocks + {heap.block} + {stack.block};
    assert rs + [HeapRegion(base, addrs[k])] + [StackRegion(base, addrs[k + 1])]
        == rs + [HeapRegion(base, addrs[k]), StackRegion(base, addrs[k + 1])];
  }

  lemma ContextRegions(ctx: ElfContext, rs: seq<Region>, blocks: set<object>)
    requires ctx.Valid() && ctx.nrRegions == |rs| && Holds(ctx.loadRegions, rs, blocks)
    ensures ctx.Regions() == rs
  {
  }

  method MakeContext(slots: array<RegionRec>, entry: u32, bp: u32, sp: u32, count: nat,
                     ghost rs: seq<Region>, ghost blocks: set<object>)
    returns (ctx: ElfContext)
    requires count == |rs| && Holds(slots, rs, blocks)
    ensures ctx.Valid() && fresh(ctx.Repr - {slots} - blocks) && ctx.Regions() == rs
    ensures ctx.entryPoint == entry && ctx.bp == bp && ctx.sp == sp
  {
    ctx := new ElfContext(slots, count, entry, bp, sp, blocks);
    ContextRegions(ctx, rs, blocks);
  }

  lemma StackPointers(bssEnd: nat)
    ensures Wrap32(Wrap32(bssEnd) + PROG_HEAP_SIZE) == (bssEnd + 0x10_0000) % 0x1_0000_0000
    ensures Wrap32(Wrap32(Wrap32(bssEnd) + PROG_HEAP_SIZE) + PROG_STACK_SIZE - 1)
         == (bssEnd + 0x1F_FFFF) % 0x1_0000_0000
  {
    WrapAgain(bssEnd, PROG_HEAP_SIZE);
    WrapAgain(bssEnd + PROG_HEAP_SIZE, PROG_STACK_SIZE - 1);
  }

  /** `elf_init` on a validated header: `addrs` are the host addresses the allocator returns, in order. */
  method ElfInit(file: seq<u8>, phdrs: seq<Phdr>, entry: u32, bssStart: u32, bssSize: u32, addrs: seq<nat>)
    returns (ctx: ElfContext)
    requires Sane(phdrs, |file|) && |addrs| >= |phdrs| + 2
    ensures ctx.Valid() && fresh(ctx.Repr)
    ensures ctx.Regions() == Table(file, phdrs, bssStart, bssSize, addrs)
    ensures ctx.entryPoint == entry
    ensures bssStart == 0 ==> ctx.bp == 0 && ctx.sp == 0
    ensures bssStart != 0 ==>
              ctx.bp == (bssStart + bssSize + 0x10_0000) % 0x1_0000_0000
              && ctx.sp == (bssStart + bssSize + 0x1F_FFFF) % 0x1_0000_0000
  {
    hide Segments, Sane, Holds, HeapRegion, StackRegion, Wrap32;
    StackPointers(bssStart + bssSize);
    var slots, phCount, blocks := LoadSegments(file, phdrs, addrs);
    assert phdrs[..|phdrs|] == phdrs;
    var heapBase := Wrap32(bssStart + bssSize);
    ghost var rs := Segments(file, phdrs, addrs);
    ghost var table := Table(file, phdrs, bssStart, bssSize, addrs);
    if bssStart == 0 {
      HoldsEmpty(slots, rs, blocks);
      ctx := MakeContext(slots, entry, 0, 0, phCount, table, blocks);
    } else {
      ghost var blocks' := PlaceHeapAndStack(slots, phCount - 2, heapBase, addrs, rs, blocks);
      var bp := Wrap32(heapBase + PROG_HEAP_SIZE);
      ctx := MakeContext(slots, entry, bp, Wrap32(bp + PROG_STACK_SIZE - 1), phCount, table, blocks');
    }
  }

  // ----- the image the loader leaves -----------------------------------------

  predicate Apart(a: Span, b: Span) {
    a.vmaBase + a.szReserved <= b.vmaBase || b.vmaBase + b.szReserved <= a.vmaBase
  }

  /** The address ranges neither overflow 32 bits nor overlap. */
  predicate Separate(l: seq<Span>) {
    && (forall i :: 0 <= i < |l| ==> l[i].vmaBase + l[i].szReserved < TWO32)
    && (forall i, j :: 0 <= i < j < |l| ==> Apart(l[i], l[j]))
  }

  /** For nonempty blocks of the right size, separate ranges are those that neither overflow nor cover
      an address twice. */
  lemma SeparateExactly(rs: seq<Region>)
    requires forall i :: 0 <= i < |rs| ==> |rs[i].bytes| == rs[i].szReserved > 0
    ensures Separate(Layout(rs)) <==> VmaDisjoint(rs) && forall i :: 0 <= i < |rs| ==> !Wraps(rs[i])
  {
    var l := Layout(rs);
    if VmaDisjoint(rs) && forall i :: 0 <= i < |rs| ==> !Wraps(rs[i]) {
      forall i, j | 0 <= i < j < |l| ensures Apart(l[i], l[j]) {
        var p := if rs[i].vmaBase <= rs[j].vmaBase then rs[j].vmaBase else rs[i].vmaBase;
        assert !(Covers(rs[i], p) && Covers(rs[j], p));
      }
    }
    if Separate(l) {
      forall i, j, p: u32 | 0 <= i < j < |rs| ensures !(Covers(rs[i], p) && Covers(rs[j], p)) {
        assert l[i] == SpanOf(rs[i]) && l[j] == SpanOf(rs[j]) && Apart(l[i], l[j]);
      }
      assert forall i :: 0 <= i < |rs| ==> l[i] == SpanOf(rs[i]);
    }
  }

  lemma TableBlocks(file: seq<u8>, phdrs: seq<Phdr>, bssStart: u32, bssSize: u32, addrs: seq<nat>)
    requires Sane(phdrs, |file|) && |addrs| >= |phdrs| + 2 && bssStart != 0
    ensures var rs := Table(file, phdrs, bssStart, bssSize, addrs);
      && (forall i :: 0 <= i < |rs| ==> |rs[i].bytes| == rs[i].szReserved > 0)
      && var k := |Taken(phdrs, |file|)|;
         && |rs| == k + 2 && (forall i :: 0 <= i < k ==> rs[i].tag == LoadTag)
         && rs[k].tag == HeapTag && rs[k + 1].tag == StackTag
  {
    var t := Taken(phdrs, |file|);
    forall k | 0 <= k < |t| ensures Copyable(phdrs[t[k]], |file|) && phdrs[t[k]].memsz > 0 {
      assert Loadable(phdrs[t[k]], |file|);
    }
  }

  /** The k-th entry spans the addresses of the k-th header taken, in the k-th block allocated. Heap and
      stack, a mebibyte each, are the two entries after the segments, the stack right above the heap. */
  lemma RegionsPlaced(file: seq<u8>, phdrs: seq<Phdr>, bssStart: u32, bssSize: u32, addrs: seq<nat>)
    requires Sane(phdrs, |file|) && |addrs| >= |phdrs| + 2 && bssStart != 0
    ensures var rs := Table(file, phdrs, bssStart, bssSize, addrs);
      var t := Taken(phdrs, |file|);
      var k := |t|;
      && |rs| == k + 2
      && (forall i :: 0 <= i < k ==>
            SpanOf(rs[i]) == Span(phdrs[t[i]].vaddr, addrs[i], phdrs[t[i]].memsz, LoadTag) && rs[i].szAlloc == 0)
      && SpanOf(rs[k]) == Span((bssStart + bssSize) % 0x1_0000_0000, addrs[k], 0x10_0000, HeapTag)
      && SpanOf(rs[k + 1])
         == Span((bssStart + bssSize + 0x10_0000) % 0x1_0000_0000, addrs[k + 1], 0x10_0000, StackTag)
      && rs[k].szAlloc == 0 && rs[k + 1].szAlloc == 0
      && FindTag(rs, HeapTag, 0) == Some(k) && FindTag(rs, StackTag, 0) == Some(k + 1)
  {
    hide Table, Segments, Taken, FindTag, Loadable;
    TableBlocks(file, phdrs, bssStart, bssSize, addrs);
    PlacedAt(file, phdrs, bssStart, bssSize, addrs);
    WrapAgain(bssStart + bssSize, 0x10_0000);
    var rs := Table(file, phdrs, bssStart, bssSize, addrs);
    FindTagIs(rs, HeapTag, |rs| - 2);
    FindTagIs(rs, StackTag, |rs| - 1);
    var t := Taken(phdrs, |file|);
    forall i | 0 <= i < |t| ensures Copyable(phdrs[t[i]], |file|) { SaneAt(phdrs, |file|, t[i]); }
  }

  /** Without a .bss section the last two entries are zero: they cover and host nothing. */
  lemma NoBssPlaced(file: seq<u8>, phdrs: seq<Phdr>, bssSize: u32, addrs: seq<nat>)
    requires Sane(phdrs, |file|) && |addrs| >= |phdrs| + 2
    ensures var rs := Table(file, phdrs, 0, bssSize, addrs);
      var k := |Taken(phdrs, |file|)|;
      && |rs| == k + 2 && !HasHeap(rs)
      && rs[k] == rs[k + 1] == Region(0, 0, [], 0, 0, NoTag)
      && rs[..k] == Segments(file, phdrs, addrs)
  {
  }

  lemma WrapAgain(x: int, y: int)
    ensures Wrap32(Wrap32(x) + y) == Wrap32(x + y)
  {
  }

  /** Unless the stack's end overflows or an earlier entry covers some of it, every address from bp to sp
      belongs to the stack, is mapped, and may be written up to sp inclusive. */
  lemma StackUsable(file: seq<u8>, phdrs: seq<Phdr>, bssStart: u32, bssSize: u32, addrs: seq<nat>,
                    a: int, data: seq<u8>)
    requires Sane(phdrs, |file|) && |addrs| >= |phdrs| + 2 && bssStart != 0
    requires var bp := (bssStart + bssSize + 0x10_0000) % 0x1_0000_0000;
      var rs := Table(file, phdrs, bssStart, bssSize, addrs);
      && bp + 0x10_0000 < 0x1_0000_0000
      && (forall i, p: u32 :: 0 <= i < |rs| - 1 && bp <= p < bp + 0x10_0000 ==> !Covers(rs[i], p))
      && bp <= a && a + |data| <= bp + 0x10_0000 && |data| > 0
    ensures var rs := Table(file, phdrs, bssStart, bssSize, addrs);
      && MemOk(rs) && a in Flat(rs)
      && Translate(rs, a)
         == Some(HostLoc(|rs| - 1, a - (bssStart + bssSize + 0x10_0000) % 0x1_0000_0000))
      && Inside(Layout(rs), a, |data|) && Store(rs, a, data).Done?
  {
    hide Table, Taken, Flat, Find, Sane;
    RegionsPlaced(file, phdrs, bssStart, bssSize, addrs);
    TableBlocks(file, phdrs, bssStart, bssSize, addrs);
    var rs := Table(file, phdrs, bssStart, bssSize, addrs);
    var bp, k := rs[|rs| - 1].vmaBase, |rs| - 1;
    forall p: u32 | bp <= p < bp + 0x10_0000 ensures First(Layout(rs), k, p) && Find(rs, p, 0) == Some(k) {
      FirstAbove(rs, k, p);
    }
    assert Inside(Layout(rs), a, |data|) by {
      assert First(Layout(rs), k, a);
      forall p | a <= p < a + |data| ensures First(Layout(rs), k, p) { }
    }
    StoreIsFlat(rs, a, data);
    FlatInside(rs, k, a);
  }

  lemma FirstAbove(rs: seq<Region>, k: nat, p: u32)
    requires k < |rs| && Covers(rs[k], p) && forall i :: 0 <= i < k ==> !Covers(rs[i], p)
    ensures First(Layout(rs), k, p) && Find(rs, p, 0) == Some(k)
  {
  }

  lemma FindTagIs(rs: seq<Region>, tag: Tag, k: nat)
    requires k < |rs| && rs[k].tag == tag && forall i :: 0 <= i < k ==> rs[i].tag != tag
    ensures FindTag(rs, tag, 0) == Some(k)
  {
  }

  lemma PlacedAt(file: seq<u8>, phdrs: seq<Phdr>, bssStart: u32, bssSize: u32, addrs: seq<nat>)
    requires Sane(phdrs, |file|) && |addrs| >= |phdrs| + 2 && bssStart != 0
    ensures var rs := Table(file, phdrs, bssStart, bssSize, addrs);
      var k := |Taken(phdrs, |file|)|;
      && |rs| == k + 2
      && rs[k] == HeapRegion(Wrap32(bssStart + bssSize), addrs[k])
      && rs[k + 1] == StackRegion(Wrap32(bssStart + bssSize), addrs[k + 1])
      && (forall i :: 0 <= i < k ==> rs[i] == Segments(file, phdrs, addrs)[i])
  {
  }

  /** The byte at distance j from a segment's start: the file's, then zero. */
  function SegmentByte(file: seq<u8>, ph: Phdr, j: int): u8 {
    if 0 <= j < ph.filesz && ph.offset + j < |file| then file[ph.offset + j] else 0
  }

  /** In the memory of a loaded image, overlapping ranges or not, an address is mapped when some entry of
      the table covers it, and holds the byte of the first that does: a segment's, or a zero of the heap
      or the stack. */
  lemma LoadedByte(file: seq<u8>, phdrs: seq<Phdr>, bssStart: u32, bssSize: u32, addrs: seq<nat>, a: u32)
    requires Sane(phdrs, |file|) && |addrs| >= |phdrs| + 2 && bssStart != 0
    ensures var rs := Table(file, phdrs, bssStart, bssSize, addrs);
      var t := Taken(phdrs, |file|);
      && MemOk(rs) && |rs| == |t| + 2
      && (a in Flat(rs) <==> exists k: nat :: k < |rs| && First(Layout(rs), k, a))
      && forall k: nat :: k < |rs| && First(Layout(rs), k, a) ==>
           a in Flat(rs)
           && Flat(rs)[a] == if k < |t| then SegmentByte(file, phdrs[t[k]], a - phdrs[t[k]].vaddr) else 0
  {
    hide Table, Flat, Taken, Segments, Layout, Loadable, First, Find;
    var rs := Table(file, phdrs, bssStart, bssSize, addrs);
    TableBlocks(file, phdrs, bssStart, bssSize, addrs);
    FlatAt(rs, a);
    if k :| Find(rs, a, 0) == Some(k) { FindIsFirst(rs, k, a); }
    forall k: nat | k < |rs| && First(Layout(rs), k, a)
      ensures a in Flat(rs)
      ensures var t := Taken(phdrs, |file|);
        Flat(rs)[a] == if k < |t| then SegmentByte(file, phdrs[t[k]], a - phdrs[t[k]].vaddr) else 0
    {
      FindIsFirst(rs, k, a);
      FlatInside(rs, k, a);
      EntryByte(file, phdrs, bssStart, bssSize, addrs, k, a - rs[k].vmaBase);
    }
  }

  lemma EntryByte(file: seq<u8>, phdrs: seq<Phdr>, bssStart: u32, bssSize: u32, addrs: seq<nat>, k: nat, j: nat)
    requires Sane(phdrs, |file|) && |addrs| >= |phdrs| + 2 && bssStart != 0
    requires var rs := Table(file, phdrs, bssStart, bssSize, addrs); k < |rs| && j < |rs[k].bytes|
    ensures var rs := Table(file, phdrs, bssStart, bssSize, addrs);
      var t := Taken(phdrs, |file|);
      if k < |t| then rs[k].vmaBase == phdrs[t[k]].vaddr && rs[k].bytes[j] == SegmentByte(file, phdrs[t[k]], j)
      else rs[k].bytes[j] == 0
  {
    hide Table, Taken, Segments, Loadable;
    PlacedAt(file, phdrs, bssStart, bssSize, addrs);
    TableBlocks(file, phdrs, bssStart, bssSize, addrs);
    var t := Taken(phdrs, |file|);
    if k < |t| { SaneAt(phdrs, |file|, t[k]); }
  }

  /** Where the ranges are separate every entry is the first to cover each of its addresses. */
  lemma SeparateVisible(rs: seq<Region>, k: nat, a: int)
    requires Separate(Layout(rs)) && k < |rs| && rs[k].vmaBase <= a < rs[k].vmaBase + rs[k].szReserved
    ensures First(Layout(rs), k, a)
  {
    var l := Layout(rs);
    assert l[k].vmaBase + l[k].szReserved < TWO32;
    forall j | 0 <= j < k ensures !SpanCovers(l[j], a) {
      assert Apart(l[j], l[k]) && l[j].vmaBase + l[j].szReserved < TWO32;
    }
  }

  // ----- an image whose segments overlap -------------------------------------

  /** The second segment, loaded at 0, runs past the start of the first, loaded at 1. */
  const OVERLAPPING: seq<Phdr> := [Phdr(PT_LOAD, 0, 1, 1, 1), Phdr(PT_LOAD, 1, 0, 2, 2)]

  lemma OverlappingLoadable(length: nat)
    requires length == 3
    ensures Loadable(OVERLAPPING[0], length) && Loadable(OVERLAPPING[1], length) && Sane(OVERLAPPING, length)
  {
  }

  lemma OverlappingTaken(length: nat)
    requires length == 3
    ensures Taken(OVERLAPPING, length) == [0, 1]
  {
    hide Loadable;
    var ps := OVERLAPPING;
    OverlappingLoadable(length);
    assert ps[..1][..0] == [] && ps[..1][0] == ps[0];
    assert Taken(ps[..1], length) == [0];
  }

  lemma OverlappingEntries(file: seq<u8>, addrs: seq<nat>)
    requires file == [7, 5, 6] && |addrs| == 4
    ensures Sane(OVERLAPPING, 3)
    ensures var rs := Table(file, OVERLAPPING, 0x1000, 0, addrs);
      && MemOk(rs) && |rs| == 4
      && rs[0] == Region(1, addrs[0], [7], 0, 1, LoadTag) && rs[1] == Region(0, addrs[1], [5, 6], 0, 2, LoadTag)
  {
    hide Table, Taken, Sane, Loadable, Zeros;
    OverlappingLoadable(3);
    OverlappingTaken(3);
    TableBlocks(file, OVERLAPPING, 0x1000, 0, addrs);
    PlacedAt(file, OVERLAPPING, 0x1000, 0, addrs);
    SaneAt(OVERLAPPING, 3, 0);
    SaneAt(OVERLAPPING, 3, 1);
    assert Image(file, OVERLAPPING[0]) == [7];
    assert Image(file, OVERLAPPING[1]) == [5, 6];
  }

  lemma OverlappingFinds(rs: seq<Region>)
    requires |rs| >= 2 && rs[0].vmaBase == 1 && rs[0].szReserved == 1
    requires rs[1].vmaBase == 0 && rs[1].szReserved == 2
    ensures Find(rs, 0, 0) == Some(1) && Find(rs, 1, 0) == Some(0)
  {
    assert !Covers(rs[0], 0) && Covers(rs[1], 0) && Covers(rs[0], 1);
    assert Find(rs, 0, 1) == Some(1);
  }

  /** In this image a read of two bytes at 0 returns 5 and 6 while the addresses hold 5 and 7, and a
      write there leaves the 7 at address 1 as it was. */
  lemma OverlapWitness(addrs: seq<nat>)
    requires |addrs| == 4
    ensures Sane(OVERLAPPING, 3)
    ensures var rs := Table([7, 5, 6], OVERLAPPING, 0x1000, 0, addrs);
      && MemOk(rs) && AllMapped(Flat(rs), 0, 2)
      && Load(rs, 0, 2) == Done([5, 6]) && FlatLoad(Flat(rs), 0, 2) == [5, 7]
      && Store(rs, 0, [8, 9]).Done?
      && var rs' := Store(rs, 0, [8, 9]).value;
         MemOk(rs') && 1 in Flat(rs') && Flat(rs')[1] == 7
  {
    hide Table, Taken, Flat, Find, Sane;
    OverlappingEntries([7, 5, 6], addrs);
    var rs := Table([7, 5, 6], OVERLAPPING, 0x1000, 0, addrs);
    OverlappingFinds(rs);
    FlatInside(rs, 1, 0);
    FlatInside(rs, 0, 1);
    assert AllMapped(Flat(rs), 0, 2);
    assert [5, 6][0..2] == [5, 6];
    StoreIsFlat(rs, 0, [8, 9]);
    var rs' := Store(rs, 0, [8, 9]).value;
    FindByLayout(rs, rs', 1, 0);
    FlatInside(rs', 0, 1);
  }

  // ----- a loaded program runs -----------------------------------------------

  /** An image with a .bss section starts in a state the refinement theorems cover, its break at the
      heap's base; the theorems' converses apply too when the ranges are separate. */
  lemma BootInv(file: seq<u8>, phdrs: seq<Phdr>, bssStart: u32, bssSize: u32, addrs: seq<nat>,
                entry: u32, sp: u32)
    requires Sane(phdrs, |file|) && |addrs| >= |phdrs| + 2 && bssStart != 0
    ensures var rs := Table(file, phdrs, bssStart, bssSize, addrs);
      var h := Wrap32(bssStart + bssSize);
      && Inv(Boot(rs, entry, sp))
      && Abs(Boot(rs, entry, sp)).brk == Break(h, h, (h + 0x10_0000) % 0x1_0000_0000)
      && (Separate(Layout(rs)) ==> VmaDisjoint(rs))
  {
    hide Separate, Table, Flat, FindTag, VmaDisjoint;
    var rs := Table(file, phdrs, bssStart, bssSize, addrs);
    TableBlocks(file, phdrs, bssStart, bssSize, addrs);
    SeparateExactly(rs);
    PlacedAt(file, phdrs, bssStart, bssSize, addrs);
    RegionsPlaced(file, phdrs, bssStart, bssSize, addrs);
  }
}
