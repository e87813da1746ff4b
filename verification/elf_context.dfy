/** The region table as the program keeps it: an array of records updated in place, each owning a
    separately allocated block of host memory. */
module ElfContexts {
  import opened Words
  import opened Memory
  import opened ProgramBreak

  /** One table entry. A zeroed entry has no block. */
  datatype RegionRec = RegionRec(
    vmaBase: u32, memBase: nat, block: array?<u8>, szAlloc: u32, szReserved: u32, tag: Tag)
  {
    function Bytes(): seq<u8>
      reads block
    {
      if block == null then [] else block[..]
    }

    function Value(): Region
      reads block
    {
      Region(vmaBase, memBase, Bytes(), szAlloc, szReserved, tag)
    }
  }

  const ZERO_REC := RegionRec(0, 0, null, 0, 0, NoTag)

  class ElfContext {
    var loadRegions: array<RegionRec>
    var nrRegions: nat
    var entryPoint: u32
    var bp: u32
    var sp: u32
    ghost var Repr: set<object>

    ghost predicate Valid()
      reads this, Repr
    {
      && this in Repr && loadRegions in Repr
      && nrRegions <= loadRegions.Length
      && (forall i :: 0 <= i < nrRegions && loadRegions[i].block != null ==> loadRegions[i].block in Repr)
      && (forall i, j :: 0 <= i < j < nrRegions && loadRegions[i].block != null ==>
            loadRegions[i].block != loadRegions[j].block)
    }

    /** A context over a filled table; `blocks` are the blocks its first entries own. */
    constructor (slots: array<RegionRec>, count: nat, entry: u32, bp: u32, sp: u32, ghost blocks: set<object>)
      requires count <= slots.Length
      requires forall i :: 0 <= i < count && slots[i].block != null ==> slots[i].block in blocks
      requires forall i, j :: 0 <= i < j < count && slots[i].block != null ==> slots[i].block != slots[j].block
      ensures Valid() && fresh(Repr - {slots} - blocks)
      ensures loadRegions == slots && nrRegions == count
      ensures entryPoint == entry && this.bp == bp && this.sp == sp
    {
      loadRegions, nrRegions, entryPoint, this.bp, this.sp := slots, count, entry, bp, sp;
      Repr := {this, slots} + blocks;
    }

    ghost function Regions(): (rs: seq<Region>)
      requires Valid()
      reads this, Repr
      ensures |rs| == nrRegions
      ensures forall i :: 0 <= i < nrRegions ==> rs[i] == loadRegions[i].Value()
    {
      seq(nrRegions, i requires 0 <= i < nrRegions && Valid() reads this, Repr => loadRegions[i].Value())
    }

    /** `elf_vma_to_mem`: the place in host memory an address names, or nothing. */
    method VmaToMem(p: u32) returns (at: Option<HostLoc>)
      requires Valid()
      ensures at == Translate(Regions(), p)
    {
      var i := 0;
      while i < nrRegions
        invariant 0 <= i <= nrRegions
        invariant Find(Regions(), p, 0) == Find(Regions(), p, i)
      {
        var r := loadRegions[i];
        if !(r.vmaBase > p || p >= Wrap32(r.vmaBase + r.szReserved)) {
          return Some(HostLoc(i, p - r.vmaBase));
        }
        i := i + 1;
      }
      return None;
    }

    /** `elf_mem_to_vma` */
    method MemToVma(h: nat) returns (p: u32)
      requires Valid()
      ensures p == Memory.MemToVma(Regions(), h)
    {
      var i := 0;
      while i < nrRegions
        invariant 0 <= i <= nrRegions
        invariant FindHost(Regions(), h, 0) == FindHost(Regions(), h, i)
      {
        var r := loadRegions[i];
        if !(r.memBase > h || h >= r.memBase + r.szReserved) {
          return Wrap32(r.vmaBase + (h - r.memBase));
        }
        i := i + 1;
      }
      return 0;
    }

    /** `elf_get_region_by_tag` */
    method RegionByTag(tag: Tag) returns (which: Option<nat>)
      requires Valid()
      ensures which == FindTag(Regions(), tag, 0)
    {
      var i := 0;
      while i < nrRegions
        invariant 0 <= i <= nrRegions
        invariant FindTag(Regions(), tag, 0) == FindTag(Regions(), tag, i)
      {
        if loadRegions[i].tag == tag { return Some(i); }
        i := i + 1;
      }
      return None;
    }

    method LoadBytes(p: u32, n: nat) returns (r: Access<seq<u8>>)
      requires Valid()
      ensures r == Load(Regions(), p, n)
    {
      var at := VmaToMem(p);
      match at {
        case None => return Trap;
        case Some(l) =>
          var bytes := loadRegions[l.region].Bytes();
          if l.offset + n > |bytes| { return Undefined; }
          return Done(bytes[l.offset..l.offset + n]);
      }
    }

    /** Writes into the block of one region. */
    method WriteRegion(i: nat, offset: nat, data: seq<u8>)
      requires Valid() && i < nrRegions && offset + |data| <= |Regions()[i].bytes|
      modifies Repr
      ensures Valid() && Repr == old(Repr)
      ensures Regions()
           == old(Regions())[i := old(Regions())[i].(bytes := Splice(old(Regions())[i].bytes, offset, data))]
    {
      ghost var bytes := loadRegions[i].Bytes();
      if loadRegions[i].block != null {
        WriteBlock(loadRegions[i].block, offset, data);
      }
      assert loadRegions[i].Bytes() == Splice(bytes, offset, data);
    }

    /** Writes the bytes through the pointer for p; the table itself is untouched. */
    method StoreBytes(p: u32, data: seq<u8>) returns (r: Access<()>)
      requires Valid()
      modifies Repr
      ensures Valid() && Repr == old(Repr)
      ensures match Store(old(Regions()), p, data)
              case Trap => r.Trap? && Regions() == old(Regions())
              case Undefined => r.Undefined? && Regions() == old(Regions())
              case Done(rs) => r.Done? && Regions() == rs
    {
      hide Translate, Splice, Wrap32;
      var at := VmaToMem(p);
      match at {
        case None => return Trap;
        case Some(l) =>
          if l.offset + |data| > |loadRegions[l.region].Bytes()| { return Undefined; }
          WriteRegion(l.region, l.offset, data);
          return Done(());
      }
    }

    method SetAlloc(i: nat, szAlloc: u32)
      requires Valid() && i < nrRegions
      modifies loadRegions
      ensures Valid()
      ensures Regions() == old(Regions())[i := old(Regions())[i].(szAlloc := szAlloc)]
    {
      loadRegions[i] := loadRegions[i].(szAlloc := szAlloc);
    }

    /** The heap region's new allocation for a break request, and the break returned. */
    method Brk(request: u32) returns (ret: u32)
      requires Valid() && HasHeap(Regions())
      modifies Repr
      ensures Valid() && Repr == old(Repr)
      ensures (Regions(), ret) == ProgramBreak.Brk(old(Regions()), request)
    {
      hide Wrap32;
      var which := RegionByTag(HeapTag);
      var i := which.value;
      var heap := loadRegions[i];
      var minBrk := heap.vmaBase;
      var currentBrk := Wrap32(minBrk + heap.szAlloc);
      var maxBrk := Wrap32(heap.vmaBase + heap.szReserved);
      BrkRejected(Regions(), request);
      if request == 0 { return currentBrk; }
      if request < minBrk || request > maxBrk { return currentBrk; }
      SetAlloc(i, Wrap32(heap.szAlloc + Wrap32(request - currentBrk)));
      return request;
    }
  }

  lemma BrkRejected(rs: seq<Region>, request: u32)
    requires HasHeap(rs)
    ensures !Accepts(Heap(rs), request) ==>
              ProgramBreak.Brk(rs, request) == (rs, CurrentBreak(Heap(rs)))
  {
    var i := FindTag(rs, HeapTag, 0).value;
    assert rs[i := rs[i]] == rs;
  }

  method WriteBlock(block: array<u8>, offset: nat, data: seq<u8>)
    requires offset + |data| <= block.Length
    modifies block
    ensures block[..] == Splice(old(block[..]), offset, data)
  {
    var k := 0;
    while k < |data|
      invariant 0 <= k <= |data|
      invariant forall j :: 0 <= j < block.Length ==>
                  block[j] == if offset <= j < offset + k then data[j - offset] else old(block[j])
    {
      block[offset + k] := data[k];
      k := k + 1;
    }
  }
}
