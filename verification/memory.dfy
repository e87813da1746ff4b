/** The emulator's segmented memory as a value: a table of load regions searched first match first,
    each with its own host block. */
module Memory {
  import opened Words

  /** The region's name; NoTag is the null pointer. */
  datatype Tag = NoTag | LoadTag | HeapTag | StackTag

  /** `memBase` is the host address of the block and `bytes` its contents. */
  datatype Region = Region(
    vmaBase: u32, memBase: nat, bytes: seq<u8>, szAlloc: u32, szReserved: u32, tag: Tag)

  /** A place in host memory: a byte offset into the block of one region. */
  datatype HostLoc = HostLoc(region: nat, offset: nat)

  /** The outcome of a host access: the process traps, or C leaves the access undefined. */
  datatype Access<+T> = Done(value: T) | Trap | Undefined

  // ----- address translation -------------------------------------------------

  /** The range test of `elf_vma_to_mem`, with the end of the range computed in 32 bits. */
  predicate Covers(r: Region, p: u32) {
    !(r.vmaBase > p || p >= Wrap32(r.vmaBase + r.szReserved))
  }

  /** The range test of `elf_mem_to_vma`; host pointers do not wrap. */
  predicate Hosts(r: Region, h: nat) {
    !(r.memBase > h || h >= r.memBase + r.szReserved)
  }

  /** The first region from index i on that covers p. */
  function Find(rs: seq<Region>, p: u32, i: nat): (r: Option<nat>)
    requires i <= |rs|
    decreases |rs| - i
    ensures r.Some? ==> i <= r.value < |rs| && Covers(rs[r.value], p)
    ensures r.Some? ==> forall j :: i <= j < r.value ==> !Covers(rs[j], p)
    ensures r.None? ==> forall j :: i <= j < |rs| ==> !Covers(rs[j], p)
  {
    if i == |rs| then None
    else if Covers(rs[i], p) then Some(i)
    else Find(rs, p, i + 1)
  }

  function Translate(rs: seq<Region>, p: u32): (r: Option<HostLoc>)
    ensures r.Some? ==> r.value.region < |rs|
  {
    match Find(rs, p, 0)
    case None => None
    case Some(i) => Some(HostLoc(i, p - rs[i].vmaBase))
  }

  /** The host pointer `elf_vma_to_mem` returns. */
  function VmaToMem(rs: seq<Region>, p: u32): Option<nat> {
    match Translate(rs, p)
    case None => None
    case Some(l) => Some(rs[l.region].memBase + l.offset)
  }

  function FindHost(rs: seq<Region>, h: nat, i: nat): (r: Option<nat>)
    requires i <= |rs|
    decreases |rs| - i
    ensures r.Some? ==> i <= r.value < |rs| && Hosts(rs[r.value], h)
    ensures r.Some? ==> forall j :: i <= j < r.value ==> !Hosts(rs[j], h)
    ensures r.None? ==> forall j :: i <= j < |rs| ==> !Hosts(rs[j], h)
  {
    if i == |rs| then None
    else if Hosts(rs[i], h) then Some(i)
    else FindHost(rs, h, i + 1)
  }

  /** The address `elf_mem_to_vma` returns: 0 when no region hosts the pointer. */
  function MemToVma(rs: seq<Region>, h: nat): u32 {
    match FindHost(rs, h, 0)
    case None => 0
    case Some(i) => Wrap32(rs[i].vmaBase + (h - rs[i].memBase))
  }

  /** The host blocks of distinct regions do not overlap. */
  ghost predicate HostDisjoint(rs: seq<Region>) {
    forall i, j, h :: 0 <= i < |rs| && 0 <= j < |rs| && Hosts(rs[i], h) && Hosts(rs[j], h) ==> i == j
  }

  /** No address belongs to two regions. */
  ghost predicate VmaDisjoint(rs: seq<Region>) {
    forall i, j, p :: 0 <= i < |rs| && 0 <= j < |rs| && Covers(rs[i], p) && Covers(rs[j], p) ==> i == j
  }

  /** The end of the region's address range overflows 32 bits. */
  predicate Wraps(r: Region) { r.vmaBase + r.szReserved >= TWO32 }

  /** A region whose end overflows covers no address at all: the wrapped end lies below its base. */
  lemma WrappedCoversNothing(r: Region)
    ensures Wraps(r) <==> r.szReserved > 0 && forall p: u32 :: !Covers(r, p)
  {
    if !Wraps(r) && r.szReserved > 0 { assert Covers(r, r.vmaBase); }
  }

  /** A one-byte region at the last address does not cover it. */
  lemma WrapWitness()
    ensures var r := Region(0xFFFF_FFFF, 0, [7], 0, 1, LoadTag);
      Wraps(r) && Load([r], 0xFFFF_FFFF, 1) == Trap
  {
    var r := Region(0xFFFF_FFFF, 0, [7], 0, 1, LoadTag);
    WrappedCoversNothing(r);
  }

  /** Mapping a mapped address to the host and back returns it, even where address ranges overlap. */
  lemma VmaRoundTrip(rs: seq<Region>, p: u32)
    requires HostDisjoint(rs) && VmaToMem(rs, p).Some?
    ensures MemToVma(rs, VmaToMem(rs, p).value) == p
  {
    var l := Translate(rs, p).value;
    var h := VmaToMem(rs, p).value;
    assert Hosts(rs[l.region], h);
  }

  /** The two searches fail alike: no host pointer for an address no region covers, and address zero for
      a pointer no region hosts. */
  lemma NotFound(rs: seq<Region>, p: u32, h: nat)
    ensures VmaToMem(rs, p) == None <==> forall i :: 0 <= i < |rs| ==> !Covers(rs[i], p)
    ensures (forall i :: 0 <= i < |rs| ==> !Hosts(rs[i], h)) ==> MemToVma(rs, h) == 0
  {
  }

  /** Mapping a host byte of a region to its address and back returns it exactly when the region's
      address range does not overflow 32 bits. */
  lemma HostRoundTrip(rs: seq<Region>, i: nat, h: nat)
    requires HostDisjoint(rs) && VmaDisjoint(rs)
    requires i < |rs| && Hosts(rs[i], h)
    ensures VmaToMem(rs, MemToVma(rs, h)) == Some(h) <==> !Wraps(rs[i])
  {
    var p := MemToVma(rs, h);
    assert FindHost(rs, h, 0) == Some(i);
    if !Wraps(rs[i]) {
      assert Covers(rs[i], p);
      assert Find(rs, p, 0) == Some(i);
    } else if VmaToMem(rs, p).Some? {
      var l := Translate(rs, p).value;
      assert Covers(rs[l.region], p);
      assert Hosts(rs[l.region], VmaToMem(rs, p).value);
    }
  }

  // ----- bytes ---------------------------------------------------------------

  /** The little-endian value of some bytes. */
  function FromBytes(bs: seq<u8>): nat {
    if |bs| == 0 then 0 else bs[0] + 0x100 * FromBytes(bs[1..])
  }

  function ToBytes(v: nat, n: nat): (bs: seq<u8>)
    ensures |bs| == n
  {
    if n == 0 then [] else [v % 0x100] + ToBytes(v / 0x100, n - 1)
  }

  lemma {:induction false} BytesRoundTrip(bs: seq<u8>)
    ensures ToBytes(FromBytes(bs), |bs|) == bs
  {
    if |bs| == 0 {
    } else {
      BytesRoundTrip(bs[1..]);
      QuotientIs(FromBytes(bs), 0x100, FromBytes(bs[1..]), bs[0]);
    }
  }

  lemma {:induction false} FromBytesBound(bs: seq<u8>)
    ensures FromBytes(bs) < Pow2(8 * |bs|)
  {
    if |bs| == 0 {
    } else {
      FromBytesBound(bs[1..]);
      var p := Pow2(8 * (|bs| - 1));
      assert Pow2(8 * |bs|) == 0x100 * p by {
        assert Pow2(8) == 0x100;
        Pow2Add(8, 8 * (|bs| - 1));
      }
      hide Pow2;
    }
  }

  lemma {:induction false} ValueOfBytes(v: nat, n: nat)
    ensures FromBytes(ToBytes(v, n)) == v % Pow2(8 * n)
  {
    if n == 0 {
    } else {
      ValueOfBytes(v / 0x100, n - 1);
      Pow2Add(8, 8 * (n - 1));
      assert Pow2(8) == 0x100;
      SplitRemainder(v, 0x100, Pow2(8 * (n - 1)));
    }
  }

  lemma SplitRemainder(v: nat, d: nat, k: nat)
    requires d >= 1 && k >= 1
    ensures v % (d * k) == v % d + d * (v / d % k)
  {
    var q, r := v / d, v % d;
    DivideByPositive(v, d);
    DivideByPositive(q, k);
    var a, b := q / k, q % k;
    assert v == q * d + r && q == a * k + b;
    SplitAt(v, d, k, a, b, r);
  }

  lemma SplitAt(v: nat, d: nat, k: nat, a: nat, b: nat, r: nat)
    requires b < k && r < d && v == (a * k + b) * d + r
    ensures v % (d * k) == r + d * b
  {
    var dk := d * k;
    assert v == a * dk + (b * d + r);
    assert b * d + r < dk by { MultipleBounds(k - b, d); assert dk == b * d + (k - b) * d; }
    QuotientIs(v, dk, a, b * d + r);
  }

  // ----- accesses ------------------------------------------------------------

  /** n bytes read through the pointer `rvmem_at` returns: only the first byte is range-checked. */
  function Load(rs: seq<Region>, p: u32, n: nat): (r: Access<seq<u8>>)
    ensures r.Done? ==> |r.value| == n
  {
    match Translate(rs, p)
    case None => Trap
    case Some(l) =>
      var block := rs[l.region].bytes;
      if l.offset + n > |block| then Undefined else Done(block[l.offset..l.offset + n])
  }

  function Splice(block: seq<u8>, offset: nat, data: seq<u8>): (r: seq<u8>)
    requires offset + |data| <= |block|
    ensures |r| == |block|
  {
    block[..offset] + data + block[offset + |data|..]
  }

  /** Bytes written through the pointer `rvmem_at` returns. */
  function Store(rs: seq<Region>, p: u32, data: seq<u8>): Access<seq<Region>> {
    match Translate(rs, p)
    case None => Trap
    case Some(l) =>
      var r := rs[l.region];
      if l.offset + |data| > |r.bytes| then Undefined
      else Done(rs[l.region := r.(bytes := Splice(r.bytes, l.offset, data))])
  }

  /** Bytes stored are the bytes a load of the same place then returns, whatever else covers it. */
  lemma StoredIsRead(rs: seq<Region>, p: u32, data: seq<u8>)
    requires Store(rs, p, data).Done?
    ensures Load(Store(rs, p, data).value, p, |data|) == Done(data)
  {
    hide Find;
    var rs' := Store(rs, p, data).value;
    var i := Find(rs, p, 0).value;
    SameFind(rs, rs', p, 0);
    var o := p - rs[i].vmaBase;
    assert rs'[i].bytes[o..o + |data|] == data;
  }

  lemma {:induction false} SameFind(rs: seq<Region>, rs': seq<Region>, p: u32, i: nat)
    requires |rs'| == |rs| && i <= |rs|
    requires forall k :: 0 <= k < |rs| ==> rs'[k].vmaBase == rs[k].vmaBase && rs'[k].szReserved == rs[k].szReserved
    ensures Find(rs', p, i) == Find(rs, p, i)
    decreases |rs| - i
  {
    if i == |rs| {
    } else {
      SameFind(rs, rs', p, i + 1);
    }
  }

  // ----- the part of the table that never changes ----------------------------

  datatype Span = Span(vmaBase: u32, memBase: nat, szReserved: u32, tag: Tag)

  function SpanOf(r: Region): Span { Span(r.vmaBase, r.memBase, r.szReserved, r.tag) }

  /** The table without the blocks' contents and the program break. */
  function Layout(rs: seq<Region>): (l: seq<Span>)
    ensures |l| == |rs| && forall i :: 0 <= i < |rs| ==> l[i] == SpanOf(rs[i])
  {
    seq(|rs|, i requires 0 <= i < |rs| => SpanOf(rs[i]))
  }

  lemma {:induction false} FindByLayout(rs: seq<Region>, rs': seq<Region>, p: u32, i: nat)
    requires Layout(rs) == Layout(rs') && i <= |rs|
    ensures Find(rs', p, i) == Find(rs, p, i)
    decreases |rs| - i
  {
    assert |rs| == |Layout(rs)| == |rs'|;
    if i == |rs| {
    } else {
      assert SpanOf(rs[i]) == Layout(rs)[i] == SpanOf(rs'[i]);
      FindByLayout(rs, rs', p, i + 1);
    }
  }

  // ----- the flat view -------------------------------------------------------

  /** Every block has its region's size. */
  ghost predicate MemOk(rs: seq<Region>) {
    forall i :: 0 <= i < |rs| ==> |rs[i].bytes| == rs[i].szReserved
  }

  predicate Mapped(rs: seq<Region>, p: u32) { Find(rs, p, 0).Some? }

  function ByteAt(rs: seq<Region>, p: u32): u8
    requires MemOk(rs) && Mapped(rs, p)
  {
    var r := rs[Find(rs, p, 0).value];
    r.bytes[p - r.vmaBase]
  }

  /** The memory as one map from addresses to bytes. */
  ghost function Flat(rs: seq<Region>): map<int, u8>
    requires MemOk(rs)
  {
    map p: int | 0 <= p < 0x1_0000_0000 && Mapped(rs, p) :: ByteAt(rs, p)
  }

  predicate SpanCovers(s: Span, p: int) { s.vmaBase <= p < Wrap32(s.vmaBase + s.szReserved) }

  /** Entry i is the first of the table that covers p. */
  predicate First(l: seq<Span>, i: nat, p: int)
    requires i < |l|
  {
    SpanCovers(l[i], p) && forall j :: 0 <= j < i ==> !SpanCovers(l[j], p)
  }

  /** One entry is the first to cover p and each of the n bytes from p on. */
  ghost predicate Inside(l: seq<Span>, p: u32, n: nat) {
    exists i: nat :: i < |l| && First(l, i, p) && forall a :: p <= a < p + n ==> First(l, i, a)
  }

  /** The first entry to cover p holds the last of the n bytes too. */
  predicate Contained(l: seq<Span>, p: u32, n: nat) {
    exists i: nat :: i < |l| && First(l, i, p) && p + n <= l[i].vmaBase + l[i].szReserved
  }

  lemma FindIsFirst(rs: seq<Region>, i: nat, p: u32)
    requires i < |rs|
    ensures Find(rs, p, 0) == Some(i) <==> First(Layout(rs), i, p)
  {
    var l := Layout(rs);
    assert forall j :: 0 <= j < |rs| ==> (Covers(rs[j], p) <==> SpanCovers(l[j], p));
  }

  lemma FindContained(rs: seq<Region>, p: u32, n: nat)
    ensures Contained(Layout(rs), p, n)
       <==> match Find(rs, p, 0)
            case None => false
            case Some(i) => p + n <= rs[i].vmaBase + rs[i].szReserved
  {
    var l := Layout(rs);
    if i: nat :| i < |l| && First(l, i, p) && p + n <= l[i].vmaBase + l[i].szReserved {
      FindIsFirst(rs, i, p);
    }
    match Find(rs, p, 0)
    case None =>
    case Some(i) => FindIsFirst(rs, i, p);
  }

  /** Where no two ranges overlap, an access lies inside when the region covering its first byte holds
      its last. */
  lemma InsideExactly(rs: seq<Region>, p: u32, n: nat)
    requires VmaDisjoint(rs)
    ensures Inside(Layout(rs), p, n) <==> Contained(Layout(rs), p, n)
  {
    hide VmaDisjoint, Inside, Contained;
    if Inside(Layout(rs), p, n) { InsideContained(Layout(rs), p, n); }
    if Contained(Layout(rs), p, n) {
      FindContained(rs, p, n);
      CoveredIsFirst(rs, p, n, Find(rs, p, 0).value);
    }
  }

  lemma InsideContained(l: seq<Span>, p: u32, n: nat)
    requires Inside(l, p, n)
    ensures Contained(l, p, n)
  {
    var i: nat :| i < |l| && First(l, i, p) && forall a :: p <= a < p + n ==> First(l, i, a);
    if n > 0 { assert First(l, i, p + n - 1); }
  }

  lemma CoveredIsFirst(rs: seq<Region>, p: u32, n: nat, i: nat)
    requires VmaDisjoint(rs) && i < |rs| && Covers(rs[i], p) && p + n <= rs[i].vmaBase + rs[i].szReserved
    ensures Inside(Layout(rs), p, n)
  {
    var l := Layout(rs);
    forall a | a == p || p <= a < p + n ensures First(l, i, a) {
      assert Covers(rs[i], a);
      forall j | 0 <= j < i ensures !SpanCovers(l[j], a) {
        assert !Covers(rs[j], a);
      }
    }
    assert First(l, i, p);
  }

  ghost predicate AllMapped(m: map<int, u8>, p: int, n: nat) {
    forall a :: p <= a < p + n ==> a in m
  }

  ghost function FlatLoad(m: map<int, u8>, p: int, n: nat): (r: seq<u8>)
    requires AllMapped(m, p, n)
    ensures |r| == n
  {
    seq(n, k requires 0 <= k < n => m[p + k])
  }

  ghost function FlatStore(m: map<int, u8>, p: int, data: seq<u8>): map<int, u8> {
    map a | a in m :: if p <= a < p + |data| then data[a - p] else m[a]
  }

  /** Where no two ranges overlap the region covering an address is unique. */
  lemma FindCovering(rs: seq<Region>, p: u32, i: nat)
    requires VmaDisjoint(rs) && i < |rs| && Covers(rs[i], p)
    ensures Find(rs, p, 0) == Some(i)
  {
  }

  lemma FirstInRegion(rs: seq<Region>, i: nat, a: int)
    requires i < |rs| && First(Layout(rs), i, a)
    ensures rs[i].vmaBase <= a < rs[i].vmaBase + rs[i].szReserved && a < TWO32
  {
  }

  lemma InsideRegion(rs: seq<Region>, p: u32, n: nat) returns (i: nat)
    requires MemOk(rs) && Inside(Layout(rs), p, n)
    ensures i < |rs| && Find(rs, p, 0) == Some(i) && p - rs[i].vmaBase + n <= |rs[i].bytes|
    ensures forall a: u32 :: p <= a < p + n ==> Find(rs, a, 0) == Some(i)
    ensures p + n <= TWO32
  {
    hide First, Find;
    var l := Layout(rs);
    i :| 0 <= i < |l| && First(l, i, p) && forall a :: p <= a < p + n ==> First(l, i, a);
    FindIsFirst(rs, i, p);
    FirstInRegion(rs, i, if n > 0 then p + n - 1 else p);
    forall a: u32 | p <= a < p + n ensures Find(rs, a, 0) == Some(i) {
      FindIsFirst(rs, i, a);
    }
  }

  lemma FlatAt(rs: seq<Region>, p: u32)
    requires MemOk(rs)
    ensures p in Flat(rs) <==> Mapped(rs, p)
    ensures Mapped(rs, p) ==> Flat(rs)[p] == ByteAt(rs, p)
  {
  }

  lemma FlatInside(rs: seq<Region>, i: nat, a: u32)
    requires MemOk(rs) && i < |rs| && Find(rs, a, 0) == Some(i)
    ensures a in Flat(rs) && a - rs[i].vmaBase < |rs[i].bytes| && Flat(rs)[a] == rs[i].bytes[a - rs[i].vmaBase]
  {
    FlatAt(rs, a);
  }

  lemma LoadOutcome(rs: seq<Region>, p: u32, n: nat)
    requires MemOk(rs)
    ensures Load(rs, p, n).Trap? <==> p !in Flat(rs)
    ensures Inside(Layout(rs), p, n) ==> Load(rs, p, n).Done?
    ensures VmaDisjoint(rs) && Load(rs, p, n).Done? ==> Inside(Layout(rs), p, n)
    ensures Load(rs, p, n).Done? <==> Contained(Layout(rs), p, n)
  {
    FlatAt(rs, p);
    hide Flat, Inside;
    if Load(rs, p, n).Done? && VmaDisjoint(rs) {
      CoveredIsFirst(rs, p, n, Find(rs, p, 0).value);
    }
    if Inside(Layout(rs), p, n) {
      var i := InsideRegion(rs, p, n);
    }
    FindContained(rs, p, n);
  }

  lemma ContainedMapped(rs: seq<Region>, p: u32, n: nat)
    requires MemOk(rs) && Contained(Layout(rs), p, n)
    ensures AllMapped(Flat(rs), p, n)
  {
    hide Flat, Contained;
    FindContained(rs, p, n);
    var i := Find(rs, p, 0).value;
    forall a | p <= a < p + n ensures a in Flat(rs) {
      assert Covers(rs[i], a);
      FlatAt(rs, a);
    }
  }

  /** A load traps exactly when its first byte is unmapped, and is defined exactly when the first region
      to cover that byte holds its last byte too. When one region is the first to cover all of
      its bytes it reads what the flat memory holds, overlapping ranges or not; where no two ranges
      overlap it succeeds on no other access. */
  lemma LoadIsFlat(rs: seq<Region>, p: u32, n: nat)
    requires MemOk(rs)
    ensures Load(rs, p, n).Trap? <==> p !in Flat(rs)
    ensures Load(rs, p, n).Done? <==> Contained(Layout(rs), p, n)
    ensures Inside(Layout(rs), p, n) ==>
              AllMapped(Flat(rs), p, n) && Load(rs, p, n) == Done(FlatLoad(Flat(rs), p, n))
    ensures VmaDisjoint(rs) ==> (Load(rs, p, n).Done? <==> Inside(Layout(rs), p, n))
  {
    hide VmaDisjoint, Inside;
    LoadOutcome(rs, p, n);
    if Inside(Layout(rs), p, n) {
      var i := InsideRegion(rs, p, n);
      BlockIsFlat(rs, i, p, n);
    }
  }

  lemma BlockIsFlat(rs: seq<Region>, i: nat, p: u32, n: nat)
    requires MemOk(rs) && i < |rs| && rs[i].vmaBase <= p && p - rs[i].vmaBase + n <= |rs[i].bytes|
    requires p + n <= TWO32 && forall a: u32 :: p <= a < p + n ==> Find(rs, a, 0) == Some(i)
    ensures AllMapped(Flat(rs), p, n)
    ensures rs[i].bytes[p - rs[i].vmaBase..p - rs[i].vmaBase + n] == FlatLoad(Flat(rs), p, n)
  {
    hide Flat, Find;
    forall a | p <= a < p + n
      ensures a in Flat(rs) && Flat(rs)[a] == rs[i].bytes[a - rs[i].vmaBase]
    {
      FlatInside(rs, i, a);
    }
  }

  /** A store traps and is defined exactly when a load is, and keeps the layout. When one region is the
      first to cover all of its bytes it changes exactly these bytes of the flat memory, overlapping
      ranges or not; where no two ranges overlap it succeeds on no other access. */
  lemma StoreIsFlat(rs: seq<Region>, p: u32, data: seq<u8>)
    requires MemOk(rs)
    ensures Store(rs, p, data).Trap? <==> p !in Flat(rs)
    ensures Store(rs, p, data).Done? <==> Contained(Layout(rs), p, |data|)
    ensures Store(rs, p, data).Done? ==>
              MemOk(Store(rs, p, data).value) && Layout(Store(rs, p, data).value) == Layout(rs)
    ensures Inside(Layout(rs), p, |data|) ==>
              && Store(rs, p, data).Done?
              && Flat(Store(rs, p, data).value) == FlatStore(Flat(rs), p, data)
    ensures VmaDisjoint(rs) ==> (Store(rs, p, data).Done? <==> Inside(Layout(rs), p, |data|))
  {
    hide VmaDisjoint, Inside;
    LoadOutcome(rs, p, |data|);
    if Store(rs, p, data).Done? {
      var rs' := Store(rs, p, data).value;
      assert Layout(rs') == Layout(rs);
      StoreKeepsMemOk(rs, rs');
      if Inside(Layout(rs), p, |data|) {
        StoredBytes(rs, p, data);
        StoredFlat(rs, rs', p, data);
      }
    }
  }

  lemma StoredBytes(rs: seq<Region>, p: u32, data: seq<u8>)
    requires MemOk(rs) && Store(rs, p, data).Done? && Inside(Layout(rs), p, |data|)
    requires MemOk(Store(rs, p, data).value) && Layout(Store(rs, p, data).value) == Layout(rs)
    ensures forall a: u32 :: Mapped(Store(rs, p, data).value, a) == Mapped(rs, a)
    ensures forall a: u32 :: Mapped(rs, a) ==>
              ByteAt(Store(rs, p, data).value, a)
              == if p <= a < p + |data| then data[a - p] else ByteAt(rs, a)
  {
    hide Inside;
    var rs' := Store(rs, p, data).value;
    var i := InsideRegion(rs, p, |data|);
    forall a: u32
      ensures Mapped(rs', a) == Mapped(rs, a)
      ensures Mapped(rs, a) ==>
                ByteAt(rs', a) == if p <= a < p + |data| then data[a - p] else ByteAt(rs, a)
    {
      FindByLayout(rs, rs', a, 0);
    }
  }

  lemma StoredFlat(rs: seq<Region>, rs': seq<Region>, p: u32, data: seq<u8>)
    requires MemOk(rs) && MemOk(rs')
    requires forall a: u32 :: Mapped(rs', a) == Mapped(rs, a)
    requires forall a: u32 :: Mapped(rs, a) ==>
               ByteAt(rs', a) == if p <= a < p + |data| then data[a - p] else ByteAt(rs, a)
    ensures Flat(rs') == FlatStore(Flat(rs), p, data)
  {
    hide ByteAt, Mapped;
    var m, m' := Flat(rs), Flat(rs');
    assert forall a :: a in m <==> 0 <= a < TWO32 && Mapped(rs, a);
    assert forall a :: a in m' <==> 0 <= a < TWO32 && Mapped(rs', a);
  }

  lemma StoreKeepsMemOk(rs: seq<Region>, rs': seq<Region>)
    requires MemOk(rs) && Layout(rs') == Layout(rs)
    requires forall i :: 0 <= i < |rs'| ==> i < |rs| && |rs'[i].bytes| == |rs[i].bytes|
    ensures MemOk(rs')
  {
    assert |rs'| == |rs|;
    forall i | 0 <= i < |rs| ensures SpanOf(rs'[i]) == SpanOf(rs[i]) {
      assert Layout(rs')[i] == Layout(rs)[i];
    }
  }

  lemma DisjointByLayout(rs: seq<Region>, rs': seq<Region>)
    requires VmaDisjoint(rs) && Layout(rs') == Layout(rs)
    ensures VmaDisjoint(rs')
  {
    assert |rs| == |Layout(rs)| == |rs'|;
    forall i, p: u32 | 0 <= i < |rs'| ensures Covers(rs'[i], p) == Covers(rs[i], p) {
      assert SpanOf(rs[i]) == Layout(rs)[i] == SpanOf(rs'[i]);
    }
  }

  // ----- overlapping ranges --------------------------------------------------

  /** rs' is rs with other bytes in its blocks. */
  ghost predicate Refilled(rs: seq<Region>, rs': seq<Region>) {
    |rs'| == |rs| &&
    forall i :: 0 <= i < |rs| ==>
                  |rs'[i].bytes| == |rs[i].bytes| && rs'[i] == rs[i].(bytes := rs'[i].bytes)
  }

  lemma RefilledKeeps(rs: seq<Region>, rs': seq<Region>)
    requires MemOk(rs) && Refilled(rs, rs')
    ensures MemOk(rs') && Layout(rs') == Layout(rs)
  {
    forall i | 0 <= i < |rs| ensures SpanOf(rs'[i]) == SpanOf(rs[i]) { }
    assert Layout(rs') == Layout(rs);
  }

  /** Block j filled with x, every other with zeros. */
  function Fill(rs: seq<Region>, j: nat, x: u8): (r: seq<Region>)
    ensures Refilled(rs, r)
    ensures forall i :: 0 <= i < |r| ==> forall k :: 0 <= k < |r[i].bytes| ==> r[i].bytes[k] == if i == j then x else 0
  {
    seq(|rs|, i requires 0 <= i < |rs| => rs[i].(bytes := seq(|rs[i].bytes|, _ => if i == j then x else 0)))
  }

  /** The load returns what the flat memory holds. */
  ghost predicate ReadsFlat(rs: seq<Region>, p: u32, n: nat)
    requires MemOk(rs)
  {
    AllMapped(Flat(rs), p, n) && Load(rs, p, n) == Done(FlatLoad(Flat(rs), p, n))
  }

  /** The store leaves what a store to the flat memory leaves. */
  ghost predicate WritesFlat(rs: seq<Region>, p: u32, data: seq<u8>)
    requires MemOk(rs)
  {
    Store(rs, p, data).Done? && MemOk(Store(rs, p, data).value)
    && Flat(Store(rs, p, data).value) == FlatStore(Flat(rs), p, data)
  }

  /** A defined access that is not inside has a byte that another region is the first to cover. */
  lemma StrayByte(rs: seq<Region>, p: u32, n: nat) returns (a: u32, j: nat)
    requires MemOk(rs) && Contained(Layout(rs), p, n) && !Inside(Layout(rs), p, n)
    ensures p <= a < p + n && j < |rs| && Find(rs, a, 0) == Some(j)
    ensures Find(rs, p, 0).Some? && Find(rs, p, 0).value != j
  {
    var l := Layout(rs);
    FindContained(rs, p, n);
    var i := Find(rs, p, 0).value;
    FindIsFirst(rs, i, p);
    a :| p <= a < p + n && !First(l, i, a);
    assert Covers(rs[i], a);
    j := Find(rs, a, 0).value;
    FindIsFirst(rs, i, a);
  }

  lemma FillFinds(rs: seq<Region>, j: nat, x: u8, a: u32)
    requires MemOk(rs)
    ensures MemOk(Fill(rs, j, x)) && Layout(Fill(rs, j, x)) == Layout(rs)
    ensures Find(Fill(rs, j, x), a, 0) == Find(rs, a, 0)
  {
    RefilledKeeps(rs, Fill(rs, j, x));
    FindByLayout(rs, Fill(rs, j, x), a, 0);
  }

  /** What the flat memory of a filled table holds at an address that block k is the first to cover. */
  lemma FillHolds(rs: seq<Region>, j: nat, x: u8, a: u32, k: nat)
    requires MemOk(rs) && k < |rs| && Find(rs, a, 0) == Some(k)
    ensures MemOk(Fill(rs, j, x))
    ensures a in Flat(Fill(rs, j, x)) && Flat(Fill(rs, j, x))[a] == if k == j then x else 0
  {
    hide Flat, Find;
    FillFinds(rs, j, x, a);
    FlatInside(Fill(rs, j, x), k, a);
  }

  lemma FillLoads(rs: seq<Region>, j: nat, x: u8, p: u32, n: nat)
    requires MemOk(rs) && Load(rs, p, n).Done? && Find(rs, p, 0) != Some(j)
    ensures Load(Fill(rs, j, x), p, n) == Done(seq(n, _ => 0))
  {
    hide Find;
    var rs' := Fill(rs, j, x);
    FillFinds(rs, j, x, p);
    var i := Find(rs, p, 0).value;
    var o := p - rs[i].vmaBase;
    assert rs'[i].bytes[o..o + n] == seq(n, _ => 0);
  }

  /** Some contents show that an access which is not inside does not read the flat memory. */
  lemma StrayRead(rs: seq<Region>, p: u32, n: nat) returns (rs': seq<Region>)
    requires MemOk(rs) && !Inside(Layout(rs), p, n)
    ensures Refilled(rs, rs') && MemOk(rs') && !ReadsFlat(rs', p, n)
  {
    hide Flat, Inside, Contained, Refilled, Find, Load;
    RefilledSelf(rs);
    LoadIsFlat(rs, p, n);
    if !Contained(Layout(rs), p, n) { return rs; }
    var a, j := StrayByte(rs, p, n);
    rs' := Fill(rs, j, 1);
    FillHolds(rs, j, 1, a, j);
    FillLoads(rs, j, 1, p, n);
    if AllMapped(Flat(rs'), p, n) { assert FlatLoad(Flat(rs'), p, n)[a - p] == 1; }
  }

  /** An access lies inside exactly when its load reads the flat memory whatever the blocks hold. */
  lemma LoadFlatExactly(rs: seq<Region>, p: u32, n: nat)
    requires MemOk(rs)
    ensures Inside(Layout(rs), p, n)
       <==> forall rs' :: Refilled(rs, rs') ==> MemOk(rs') && ReadsFlat(rs', p, n)
  {
    hide Flat, Inside, Contained, Refilled, Load, ReadsFlat;
    if Inside(Layout(rs), p, n) {
      forall rs' | Refilled(rs, rs') ensures MemOk(rs') && ReadsFlat(rs', p, n) {
        RefilledKeeps(rs, rs');
        InsideReads(rs', p, n);
      }
    } else {
      var rs' := StrayRead(rs, p, n);
    }
  }

  lemma InsideReads(rs: seq<Region>, p: u32, n: nat)
    requires MemOk(rs) && Inside(Layout(rs), p, n)
    ensures ReadsFlat(rs, p, n)
  {
    hide Flat, Inside, Load;
    LoadIsFlat(rs, p, n);
  }

  lemma RefilledSelf(rs: seq<Region>)
    ensures Refilled(rs, rs)
  {
  }

  lemma FillStores(rs: seq<Region>, j: nat, x: u8, p: u32, data: seq<u8>, a: u32)
    requires MemOk(rs) && Contained(Layout(rs), p, |data|) && j < |rs|
    requires Find(rs, a, 0) == Some(j) && Find(rs, p, 0) != Some(j)
    ensures var rs' := Fill(rs, j, x);
      && MemOk(rs') && Store(rs', p, data).Done? && MemOk(Store(rs', p, data).value)
      && a in Flat(Store(rs', p, data).value) && Flat(Store(rs', p, data).value)[a] == x
  {
    hide Flat, Contained, Find;
    var rs' := Fill(rs, j, x);
    FillFinds(rs, j, x, p);
    FillFinds(rs, j, x, a);
    StoreIsFlat(rs', p, data);
    var rs'' := Store(rs', p, data).value;
    FindByLayout(rs', rs'', a, 0);
    FlatInside(rs'', j, a);
  }

  /** For any data some contents show that an access which is not inside does not write the flat memory. */
  lemma StrayWrite(rs: seq<Region>, p: u32, data: seq<u8>) returns (rs': seq<Region>)
    requires MemOk(rs) && !Inside(Layout(rs), p, |data|)
    ensures Refilled(rs, rs') && MemOk(rs') && !WritesFlat(rs', p, data)
  {
    hide Flat, Inside, Contained, Refilled, Find, Store;
    RefilledSelf(rs);
    StoreIsFlat(rs, p, data);
    if !Contained(Layout(rs), p, |data|) { return rs; }
    var a, j := StrayByte(rs, p, |data|);
    var x := if data[a - p] == 0 then 1 else 0;
    rs' := Fill(rs, j, x);
    FillHolds(rs, j, x, a, j);
    FillStores(rs, j, x, p, data, a);
    assert FlatStore(Flat(rs'), p, data)[a] == data[a - p];
  }

  /** For any data, an access lies inside exactly when its store changes the flat memory at its bytes and
      nowhere else, whatever the blocks hold. */
  lemma StoreFlatExactly(rs: seq<Region>, p: u32, data: seq<u8>)
    requires MemOk(rs)
    ensures Inside(Layout(rs), p, |data|)
       <==> forall rs' :: Refilled(rs, rs') ==> MemOk(rs') && WritesFlat(rs', p, data)
  {
    hide Flat, Inside, Contained, Refilled, Store, WritesFlat;
    if Inside(Layout(rs), p, |data|) {
      forall rs' | Refilled(rs, rs') ensures MemOk(rs') && WritesFlat(rs', p, data) {
        RefilledKeeps(rs, rs');
        InsideWrites(rs', p, data);
      }
    } else {
      var rs' := StrayWrite(rs, p, data);
    }
  }

  lemma InsideWrites(rs: seq<Region>, p: u32, data: seq<u8>)
    requires MemOk(rs) && Inside(Layout(rs), p, |data|)
    ensures WritesFlat(rs, p, data)
  {
    hide Flat, Inside, Store;
    StoreIsFlat(rs, p, data);
  }

  // ----- any sequence of accesses --------------------------------------------

  datatype MemOp = Read(p: u32, n: nat) | Write(p: u32, data: seq<u8>)

  /** The accesses on the region table: the table afterwards and the bytes each read returned. */
  function RunOps(rs: seq<Region>, ops: seq<MemOp>): Access<(seq<Region>, seq<seq<u8>>)>
    decreases |ops|
  {
    if |ops| == 0 then Done((rs, []))
    else
      match ops[0]
      case Read(p, n) =>
        (match Load(rs, p, n)
         case Trap => Trap
         case Undefined => Undefined
         case Done(bs) =>
           match RunOps(rs, ops[1..])
           case Done(rest) => Done((rest.0, [bs] + rest.1))
           case a => a)
      case Write(p, data) =>
        match Store(rs, p, data)
        case Trap => Trap
        case Undefined => Undefined
        case Done(rs') => RunOps(rs', ops[1..])
  }

  /** The same accesses on one flat memory. */
  ghost function FlatOps(m: map<int, u8>, ops: seq<MemOp>): (map<int, u8>, seq<seq<u8>>)
    decreases |ops|
  {
    if |ops| == 0 then (m, [])
    else
      match ops[0]
      case Read(p, n) =>
        var rest := FlatOps(m, ops[1..]);
        (rest.0, [if AllMapped(m, p, n) then FlatLoad(m, p, n) else []] + rest.1)
      case Write(p, data) => FlatOps(FlatStore(m, p, data), ops[1..])
  }

  ghost predicate AllInside(l: seq<Span>, ops: seq<MemOp>) {
    forall k :: 0 <= k < |ops| ==>
                  match ops[k]
                  case Read(p, n) => Inside(l, p, n)
                  case Write(p, data) => Inside(l, p, |data|)
  }

  /** Any sequence of accesses that each stay inside one region reads the same bytes from the region
      table as from one flat memory, and leaves the two holding the same, even where ranges overlap. */
  lemma {:induction false} OpsRefine(rs: seq<Region>, ops: seq<MemOp>)
    requires MemOk(rs) && AllInside(Layout(rs), ops)
    ensures var o := RunOps(rs, ops);
      && o.Done? && MemOk(o.value.0) && Layout(o.value.0) == Layout(rs)
      && FlatOps(Flat(rs), ops) == (Flat(o.value.0), o.value.1)
    decreases |ops|
  {
    hide MemOk, Flat, Inside, Load, Store;
    if |ops| == 0 {
    } else {
      var l := Layout(rs);
      assert AllInside(l, ops[1..]) by {
        forall k | 0 <= k < |ops| - 1 ensures ops[1..][k] == ops[k + 1] { }
      }
      match ops[0]
      case Read(p, n) =>
        LoadIsFlat(rs, p, n);
        OpsRefine(rs, ops[1..]);
      case Write(p, data) =>
        StoreIsFlat(rs, p, data);
        OpsRefine(Store(rs, p, data).value, ops[1..]);
    }
  }
}
