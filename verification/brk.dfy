/** The program break: `rvsysc_brk` over the heap region's 32-bit sizes. */
module ProgramBreak {
  import opened Words
  import opened Memory

  /** The first region tagged as the heap, from index i on. */
  function FindTag(rs: seq<Region>, tag: Tag, i: nat): (r: Option<nat>)
    requires i <= |rs|
    decreases |rs| - i
    ensures r.Some? ==> i <= r.value < |rs| && rs[r.value].tag == tag
    ensures r.Some? ==> forall j :: i <= j < r.value ==> rs[j].tag != tag
    ensures r.None? ==> forall j :: i <= j < |rs| ==> rs[j].tag != tag
  {
    if i == |rs| then None
    else if rs[i].tag == tag then Some(i)
    else FindTag(rs, tag, i + 1)
  }

  predicate HasHeap(rs: seq<Region>) { FindTag(rs, HeapTag, 0).Some? }

  function Heap(rs: seq<Region>): Region
    requires HasHeap(rs)
  {
    rs[FindTag(rs, HeapTag, 0).value]
  }

  function CurrentBreak(h: Region): u32 { Wrap32(h.vmaBase + h.szAlloc) }

  /** The request is nonzero and lies between the break's bounds as 32-bit arithmetic computes them. */
  predicate Accepts(h: Region, request: u32) {
    request != 0 && !(request < h.vmaBase || request > Wrap32(h.vmaBase + h.szReserved))
  }

  /** The heap region after a request, and the value returned. */
  function Request(h: Region, request: u32): (Region, u32) {
    if Accepts(h, request) then
      (h.(szAlloc := Wrap32(h.szAlloc + Wrap32(request - CurrentBreak(h)))), request)
    else (h, CurrentBreak(h))
  }

  function Brk(rs: seq<Region>, request: u32): (seq<Region>, u32)
    requires HasHeap(rs)
  {
    var i := FindTag(rs, HeapTag, 0).value;
    var (h, ret) := Request(rs[i], request);
    (rs[i := h], ret)
  }

  /** An accepted request moves the break exactly there, growing or shrinking; the wrapped subtraction
      loses nothing. A rejected or zero request changes nothing and returns the current break. */
  lemma RequestExact(h: Region, request: u32)
    ensures var (h', ret) := Request(h, request);
      && h' == (if Accepts(h, request) then h.(szAlloc := request - h.vmaBase) else h)
      && ret == CurrentBreak(h')
      && (h.szAlloc <= h.szReserved ==> h'.szAlloc <= h'.szReserved)
  {
    if Accepts(h, request) {
      WrappedDifference(h.vmaBase, h.szAlloc, request);
    }
  }

  lemma WrappedDifference(base: u32, alloc: u32, request: u32)
    requires base <= request
    ensures Wrap32(alloc + Wrap32(request - Wrap32(base + alloc))) == request - base
  {
  }

  /** Every request is rejected exactly when the heap's end overflows. */
  lemma RejectsAllExactly(h: Region)
    requires h.szReserved > 0
    ensures (forall request: u32 :: !Accepts(h, request)) <==> Wraps(h)
  {
    if !Wraps(h) { assert Accepts(h, h.vmaBase + 1); }
  }

  // ----- any sequence of requests --------------------------------------------

  function Requests(h: Region, requests: seq<u32>): (Region, seq<u32>)
    decreases |requests|
  {
    if |requests| == 0 then (h, [])
    else
      var (h1, ret) := Request(h, requests[0]);
      var (h2, rets) := Requests(h1, requests[1..]);
      (h2, [ret] + rets)
  }

  /** The last request of the sequence that the bounds admit. */
  function LastAccepted(h: Region, requests: seq<u32>): (r: Option<u32>)
    ensures r.Some? ==> r.value in requests && Accepts(h, r.value)
  {
    if |requests| == 0 then None
    else
      var last := requests[|requests| - 1];
      if Accepts(h, last) then Some(last) else LastAccepted(h, requests[..|requests| - 1])
  }

  /** After any sequence of requests the allocation is the last accepted break minus the base, or what
      it was before if none was accepted; nothing else of the region changes, and it never exceeds the
      reservation. */
  lemma {:induction false} RequestsLaw(h: Region, requests: seq<u32>)
    ensures var h' := Requests(h, requests).0;
      && h' == h.(szAlloc := match LastAccepted(h, requests)
                             case None => h.szAlloc
                             case Some(brk) => brk - h.vmaBase)
      && (h.szAlloc <= h.szReserved ==> h'.szAlloc <= h'.szReserved)
    decreases |requests|
  {
    if |requests| == 0 {
    } else {
      RequestExact(h, requests[0]);
      var h1 := Request(h, requests[0]).0;
      RequestsLaw(h1, requests[1..]);
      SameBounds(h, h1, requests[1..]);
      LastAcceptedFirst(h, requests);
    }
  }

  lemma {:induction false} SameBounds(h: Region, h': Region, requests: seq<u32>)
    requires h'.vmaBase == h.vmaBase && h'.szReserved == h.szReserved
    ensures LastAccepted(h', requests) == LastAccepted(h, requests)
  {
    if |requests| == 0 {
    } else {
      SameBounds(h, h', requests[..|requests| - 1]);
    }
  }

  /** Splitting off the first request instead of the last. */
  lemma {:induction false} LastAcceptedFirst(h: Region, requests: seq<u32>)
    requires |requests| > 0
    ensures LastAccepted(h, requests)
         == match LastAccepted(h, requests[1..])
            case Some(brk) => Some(brk)
            case None => if Accepts(h, requests[0]) then Some(requests[0]) else None
  {
    var n := |requests|;
    if n == 1 {
    } else {
      LastAcceptedFirst(h, requests[..n - 1]);
      assert requests[1..][..n - 2] == requests[..n - 1][1..];
    }
  }

  /** Each value returned is the break in force after the request. */
  lemma {:induction false} ReturnsCurrent(h: Region, requests: seq<u32>, k: nat)
    requires k < |requests|
    ensures |Requests(h, requests).1| == |requests|
    ensures Requests(h, requests).1[k] == CurrentBreak(Requests(h, requests[..k + 1]).0)
    decreases |requests|
  {
    RequestExact(h, requests[0]);
    var h1 := Request(h, requests[0]).0;
    if k > 0 {
      ReturnsCurrent(h1, requests[1..], k - 1);
      assert requests[..k + 1][1..] == requests[1..][..k];
    } else {
      assert Requests(h1, requests[..1][1..]).0 == h1;
      RequestsLength(h1, requests[1..]);
    }
  }

  lemma {:induction false} RequestsLength(h: Region, requests: seq<u32>)
    ensures |Requests(h, requests).1| == |requests|
    decreases |requests|
  {
    if |requests| == 0 {
    } else {
      RequestsLength(Request(h, requests[0]).0, requests[1..]);
    }
  }

  /** Where no two ranges overlap, every address from the heap's base up to the break resolves into the
      heap block, at its distance from the base, unless the heap's end overflows. */
  lemma BelowBreakIsHeap(rs: seq<Region>, p: u32)
    requires VmaDisjoint(rs) && HasHeap(rs) && Heap(rs).szAlloc <= Heap(rs).szReserved
    requires Heap(rs).vmaBase <= p < Heap(rs).vmaBase + Heap(rs).szAlloc
    ensures Translate(rs, p) == Some(HostLoc(FindTag(rs, HeapTag, 0).value, p - Heap(rs).vmaBase))
       <==> !Wraps(Heap(rs))
  {
    WrappedCoversNothing(Heap(rs));
    if !Wraps(Heap(rs)) { FindCovering(rs, p, FindTag(rs, HeapTag, 0).value); }
  }

  // ----- the whole table -----------------------------------------------------

  lemma {:induction false} FindTagByLayout(rs: seq<Region>, rs': seq<Region>, tag: Tag, i: nat)
    requires Layout(rs) == Layout(rs') && i <= |rs|
    ensures FindTag(rs', tag, i) == FindTag(rs, tag, i)
    decreases |rs| - i
  {
    assert |rs| == |Layout(rs)| == |rs'|;
    if i == |rs| {
    } else {
      assert SpanOf(rs[i]) == Layout(rs)[i] == SpanOf(rs'[i]);
      FindTagByLayout(rs, rs', tag, i + 1);
    }
  }

  /** A request leaves the layout and every byte of memory as they were. */
  lemma BrkFrame(rs: seq<Region>, request: u32)
    requires MemOk(rs) && HasHeap(rs)
    ensures var rs' := Brk(rs, request).0;
      && Layout(rs') == Layout(rs) && MemOk(rs') && Flat(rs') == Flat(rs)
      && HasHeap(rs') && Heap(rs') == Request(Heap(rs), request).0
  {
    var rs' := Brk(rs, request).0;
    assert Layout(rs') == Layout(rs);
    StoreKeepsMemOk(rs, rs');
    FindTagByLayout(rs, rs', HeapTag, 0);
    forall a: u32 ensures Mapped(rs', a) == Mapped(rs, a) && (Mapped(rs, a) ==> ByteAt(rs', a) == ByteAt(rs, a)) {
      FindByLayout(rs, rs', a, 0);
    }
    assert Flat(rs') == Flat(rs);
  }
}
