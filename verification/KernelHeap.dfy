/**
 The code of kmalloc between one acquisition of kmalloc_spinlock and the next
 release: each method is one locked section.
 */
module KernelHeap {
  import opened Basics
  import opened HeapMemory
  import opened HeapPage
  import opened HeapBlocks
  import opened Heap
  import opened HeapCheck
  import opened PageRefs

  // What subpage_kfree found: not a subpage pointer (-1), an address on a heap page that is no live
  // block (it panics), a block of a page that stays, or the last block of a page that now goes back
  // to free_kpages.
  datatype FreeResult = NotOurs | Panics | Freed | PageReturned(page: nat)

  class Kmalloc {
    const ram: array<Byte>
    var refs: map<nat, PageRef>
    var sizebases: seq<seq<nat>>
    var allbase: seq<nat>
    var generation: nat
    ghost var free: map<nat, seq<nat>>
    ghost var live: map<nat, map<nat, nat>>

    ghost function Abs(): Heap
      reads this, ram
    {
      Heap(ram[..], refs, sizebases, allbase, free, live)
    }

    ghost predicate Valid()
      reads this, ram
    {
      ram.Length <= WORD_LIMIT && generation < WORD_LIMIT && HeapOk(Abs())
    }

    constructor (ram: array<Byte>)
      requires ram.Length <= WORD_LIMIT
      ensures Valid() && this.ram == ram && refs == map[]
    {
      this.ram := ram;
      refs := map[];
      sizebases := seq(NSIZES, i => []);
      allbase := [];
      generation := 0;
      free := map[];
      live := map[];
    }

    // The pagerefs on a list exist and their pages lie in memory.
    predicate Listed(list: seq<nat>)
      reads this
    {
      forall i | 0 <= i < |list| :: list[i] in refs && InRam(refs[list[i]], ram.Length)
    }

    /**
     checksubpages: its assertions hold exactly when every page on either kind of list is accepted,
     the lists are no longer than there are pagerefs, and their lengths agree.
     */
    method CheckSubpages() returns (ok: bool)
      requires |sizebases| == NSIZES && Listed(allbase) && forall t: Kind :: Listed(sizebases[t])
      ensures ok <==> Passes(Abs())
    {
      hide Accepts, InRam;
      var sc, t := 0, 0;
      while t < NSIZES
        invariant 0 <= t <= NSIZES && sc == TotalLength(sizebases, t) <= TOTAL_PAGEREFS
        invariant forall k: Kind | k < t :: ListAccepted(Abs(), sizebases[k])
      {
        TotalMono(sizebases, t + 1);
        var checked := CheckList(sizebases[t], sc);
        if !checked {
          return false;
        }
        sc := sc + |sizebases[t]|;
        t := t + 1;
      }
      ok := CheckList(allbase, 0);
      ok := ok && sc == |allbase|;
    }

    // One list, with the running count n that is asserted to stay below the number of pagerefs.
    method CheckList(list: seq<nat>, n: nat) returns (ok: bool)
      requires Listed(list) && n <= TOTAL_PAGEREFS
      ensures ok <==> ListAccepted(Abs(), list) && n + |list| <= TOTAL_PAGEREFS
    {
      hide Accepts, InRam;
      var i := 0;
      while i < |list|
        invariant 0 <= i <= |list| && n + i <= TOTAL_PAGEREFS
        invariant forall k | 0 <= k < i :: Accepts(ram[..], refs[list[k]])
      {
        var checked := CheckSubpage(ram, refs[list[i]]);
        if !checked || !(n + i < TOTAL_PAGEREFS) {
          return false;
        }
        i := i + 1;
      }
      return true;
    }

    /**
     The first locked section of subpage_kmalloc: take a block from the first page of the right
     size that has one. None means no page had a free block and nothing changed.
     */
    method TryAlloc(kind: Kind, cs: nat, site: nat) returns (ptr: Option<nat>, ghost p: nat)
      requires Valid() && site < WORD_LIMIT
      requires LABEL_PTROFFSET <= cs && SmallerSize(kind) < cs + GUARD_OVERHEAD <= BlockSize(kind)
      modifies this, ram
      ensures Valid()
      ensures ptr.None? ==> Abs() == old(Abs()) && forall q: nat | q in sizebases[kind] :: refs[q].nfree == 0
      ensures ptr.Some? ==> AllocStep(old(Abs()), Abs(), p, cs) && FirstWithRoom(old(Abs()), old(sizebases)[kind], p)
      ensures ptr.Some? ==> old(refs)[p].Tag() == kind
      ensures ptr.Some? ==> ptr.value == BlockAddr(old(refs)[p], old(free)[p][0]) + GUARD_PTROFFSET + LABEL_PTROFFSET
    {
      hide PageOk, PageRef.Tag, PageRef.Addr, Distinct, BlockAddr, BlockSize, SmallerSize, AllocStep;
      var list := sizebases[kind];
      var i := 0;
      ptr, p := None, 0;
      while i < |list|
        invariant 0 <= i <= |list|
        invariant forall k | 0 <= k < i :: list[k] in refs && refs[list[k]].nfree == 0
      {
        assert list[i] in sizebases[kind];
        if refs[list[i]].nfree > 0 {
          p := list[i];
          assert FirstWithRoom(Abs(), list, p);
          var got := AllocFrom(list[i], kind, cs, site);
          return Some(got), p;
        }
        i := i + 1;
      }
    }

    // The code at doalloc, for pageref p.
    method AllocFrom(p: nat, kind: Kind, cs: nat, site: nat) returns (ptr: nat)
      requires Valid() && site < WORD_LIMIT && p in refs && refs[p].Tag() == kind && refs[p].nfree > 0
      requires LABEL_PTROFFSET <= cs && SmallerSize(kind) < cs + GUARD_OVERHEAD <= BlockSize(kind)
      modifies this, ram
      ensures Valid()
      ensures AllocStep(old(Abs()), Abs(), p, cs)
      ensures ptr == BlockAddr(old(refs)[p], old(free)[p][0]) + GUARD_PTROFFSET + LABEL_PTROFFSET
    {
      hide FreeBlockOk, LiveBlockOk, PageRef.Addr, PageRef.Tag, BlockSize, NumBlocks, SmallerSize, Distinct, ListsOk,
           ChainShape, HeadOffset;
      ghost var h := Abs();
      assert PageOk(ram[..], refs[p], free[p], live[p]);
      HeadNotLive(h, p);
      var r';
      ptr, r' := PopBlock(ram, refs[p], cs, site, generation, free[p], live[p]);
      ghost var b: nat := free[p][0];
      SameWord(r', refs[p]);
      StaysInPage(h, p, b, ram[..]);
      WithPageKeeps(h, ram[..], p, r', free[p][1..], live[p][b := cs]);
      refs := refs[p := r'];
      ghost var live': map<nat, nat> := live[p][b := cs];
      live := live[p := live'];
      free := free[p := free[p][1..]];
      assert Abs() == WithPage(h, ram[..], p, r', h.free[p][1..], h.live[p][b := cs]);
      LiveFacts(h.refs[p], r', ram[..], free[p], live', b);
    }

    /**
     The last locked section of subpage_kmalloc: a fresh page becomes a page of blocks, joins
     both lists, and its first block is handed out at once.
     */
    method AddPage(p: nat, page: nat, kind: Kind, cs: nat, site: nat) returns (ptr: nat, ghost mid: Heap)
      requires Valid() && site < WORD_LIMIT && p !in refs
      requires page % PAGE_SIZE == 0 && PAGE_SIZE <= page && page + PAGE_SIZE <= ram.Length
      requires forall q: nat | q in refs :: refs[q].Addr() != page
      requires LABEL_PTROFFSET <= cs && SmallerSize(kind) < cs + GUARD_OVERHEAD <= BlockSize(kind)
      modifies this, ram
      ensures Valid()
      ensures NewPageStep(old(Abs()), mid, p, page, kind) && AllocStep(mid, Abs(), p, cs)
      ensures ptr == BlockAddr(mid.refs[p], mid.free[p][0]) + GUARD_PTROFFSET + LABEL_PTROFFSET
    {
      hide FreeBlockOk, LiveBlockOk, PageRef.Addr, PageRef.Tag, BlockSize, SmallerSize, Distinct, ListsOk, AllocStep,
           NumBlocks, ChainShape;
      ghost var h := Abs();
      SizesLength(h);
      var r := InitPage(ram, page, kind);
      refs := refs[p := r];
      free := free[p := Down(NumBlocks(kind))];
      live := live[p := map[]];
      sizebases := sizebases[kind := [p] + sizebases[kind]];
      allbase := [p] + allbase;
      mid := Abs();
      NewPageKeeps(h, mid, p, page, kind);
      ptr := AllocFrom(p, kind, cs, site);
    }

    /**
     subpage_kfree on any pointer at all. One on no heap page is refused, aligned or not; one on a
     heap page that is not what kmalloc returned for a live block makes it panic; neither changes
     anything. A live block is found on exactly the page it came from, and the page is returned
     exactly when that block was its last live one.
     */
    method SubpageKfree(ptr: nat) returns (r: FreeResult, ghost p: nat, ghost b: nat)
      requires Valid() && ptr < WORD_LIMIT
      modifies this, ram
      ensures Valid()
      ensures r.NotOurs? <==> OffHeap(old(Abs()), ptr)
      ensures r.Panics? <==> !OffHeap(old(Abs()), ptr) && !exists q: nat, c: nat :: Names(old(Abs()), ptr, q, c)
      ensures r.NotOurs? || r.Panics? ==> Abs() == old(Abs())
      ensures r.Freed? || r.PageReturned? ==> Names(old(Abs()), ptr, p, b)
      ensures r.Freed? ==> FreeStep(old(Abs()), Abs(), p, b)
      ensures r.PageReturned? ==> DropStep(old(Abs()), Abs(), p, b) && r.page == old(refs)[p].Addr()
    {
      ghost var h := Abs();
      hide HeapOk, PageRef.Addr, PageRef.Tag, BlockAddr, FreeStep, DropStep, Names;
      p, b := 0, 0;
      if ptr % PAGE_SIZE == 0 {
        return NotOurs, p, b;
      }
      var ptraddr := (ptr - GUARD_PTROFFSET) % WORD_LIMIT;
      if ptraddr % PAGE_SIZE == 0 {
        return NotOurs, p, b;
      }
      ptraddr := (ptraddr - LABEL_PTROFFSET) % WORD_LIMIT;
      assert ptraddr == BlockOf(ptr);
      ListedInUse(h);
      var i := 0;
      while i < |allbase| && !OnPage(refs[allbase[i]], ptraddr)
        invariant 0 <= i <= |allbase|
        invariant forall k | 0 <= k < i :: !OnPage(refs[allbase[k]], ptraddr)
      {
        i := i + 1;
      }
      if i == |allbase| {
        NotListed(h, ptr);
        return NotOurs, p, b;
      }
      p := allbase[i];
      assert !OffHeap(h, ptr);
      NamesHere(h, ptr, p);
      var ok;
      ok, b := FindBlock(allbase[i], ptraddr);
      if !ok {
        return Panics, p, b;
      }
      assert IsLive(h, p, b) && refs[p].Tag() < NSIZES && ptraddr == BlockAddr(refs[p], b);
      r := FreeBlock(allbase[i], ptraddr, b);
    }

    // The alignment and guard checks on pageref p: they pass exactly at a live block.
    method FindBlock(p: nat, ptraddr: nat) returns (ok: bool, ghost b: nat)
      requires Valid() && p in refs && OnPage(refs[p], ptraddr)
      ensures ok <==> exists c: nat :: At(Abs(), p, c, ptraddr)
      ensures ok ==> At(Abs(), p, b, ptraddr)
    {
      ghost var h := Abs();
      var pr := refs[p];
      hide HeapOk, PageRef.Addr, PageRef.Tag, BlockAddr, BlockSize, NumBlocks, SmallerSize, GuardCheck, At, OnPage,
           Aligned, BlockNo;
      TagInRange(h, p);
      b := 0;
      if !Aligned(pr, ptraddr) {
        Misaligned(h, p, ptraddr);
        return false, b;
      }
      b := BlockNo(pr, ptraddr);
      OnlyBlock(h, p, b, ptraddr);
      GuardsTell(h, p, b, ptraddr);
      ok := CheckGuardBand(ram, ptraddr, SmallerSize(pr.Tag()), BlockSize(pr.Tag()));
      assert Abs() == h;
    }

    // The rest of subpage_kfree, on a live block of pageref p.
    method FreeBlock(p: nat, ptraddr: nat, ghost b: nat) returns (r: FreeResult)
      requires Valid() && IsLive(Abs(), p, b) && refs[p].Tag() < NSIZES && ptraddr == BlockAddr(refs[p], b)
      modifies this, ram
      ensures Valid()
      ensures r.Freed? || r.PageReturned?
      ensures r.Freed? ==> FreeStep(old(Abs()), Abs(), p, b)
      ensures r.PageReturned? ==> DropStep(old(Abs()), Abs(), p, b) && r.page == old(refs)[p].Addr()
    {
      hide FreeBlockOk, LiveBlockOk, PageRef.Addr, PageRef.Tag, BlockSize, NumBlocks, Distinct, ListsOk, ChainShape,
           HeadOffset, Partition, BlockAddr;
      ghost var h := Abs();
      assert PageOk(ram[..], refs[p], free[p], live[p]);
      var pr := refs[p];
      var pr' := PushBlock(ram, pr, ptraddr, free[p], live[p], b);
      SizesLength(h);
      LiveInPage(h, p, b);
      PageFull(ram[..], pr', [b] + free[p], live[p] - {b});
      SameWord(pr, pr');
      if pr'.nfree == PAGE_SIZE / BlockSize(pr.Tag()) {
        live := live - {p};
        free := free - {p};
        RemoveLists(p, pr.Tag());
        refs := refs - {p};
        EmptyAfter(h, p, b);
        DropKeeps(h, Abs(), p, b);
        return PageReturned(pr.Addr());
      } else {
        refs := refs[p := pr'];
        live := live[p := live[p] - {b}];
        free := free[p := [b] + free[p]];
        ChainFacts(pr, pr', ram[..], h.free[p], live[p], b);
        FreeKeeps(h, Abs(), p, b);
        return Freed;
      }
    }

    // remove_lists: the two list walks.
    method RemoveLists(p: nat, kind: nat)
      requires kind < |sizebases|
      modifies this`sizebases, this`allbase
      ensures sizebases == old(sizebases)[kind := RemoveFrom(old(sizebases)[kind], p)]
      ensures allbase == RemoveFrom(old(allbase), p)
    {
      var s := Unlink(sizebases[kind], p);
      sizebases := sizebases[kind := s];
      allbase := Unlink(allbase, p);
    }
  }

  // p is the first pageref of the list whose page has a free block.
  ghost predicate FirstWithRoom(h: Heap, list: seq<nat>, p: nat) {
    exists i | 0 <= i < |list| :: list[i] == p && forall k | 0 <= k < i ::
          list[k] in h.refs && h.refs[list[k]].nfree == 0
  }

  ghost predicate ListAccepted(h: Heap, list: seq<nat>) {
    forall i | 0 <= i < |list| :: list[i] in h.refs && Accepts(h.mem, h.refs[list[i]])
  }

  ghost predicate Passes(h: Heap) {
    && |h.sizes| == NSIZES && (forall t: Kind :: ListAccepted(h, h.sizes[t])) && ListAccepted(h, h.all)
    && TotalLength(h.sizes, NSIZES) == |h.all| <= TOTAL_PAGEREFS
  }

  // No assertion of checksubpages fires on a heap that satisfies the invariant.
  lemma GoodHeapPasses(h: Heap)
    requires HeapOk(h) && |h.all| <= TOTAL_PAGEREFS
    ensures Passes(h)
  {
    hide PageOk, PageRef.Tag, PageRef.Addr, Distinct, Accepts;
    ListsAgree(h);
    forall p: nat | p in h.refs
      ensures Accepts(h.mem, h.refs[p])
    {
      GoodAccepted(h.mem, h.refs[p], h.free[p], h.live[p]);
    }
    forall t: Kind, i | 0 <= i < |h.sizes[t]|
      ensures h.sizes[t][i] in h.refs
    {
      assert h.sizes[t][i] in h.sizes[t];
    }
    forall i | 0 <= i < |h.all|
      ensures h.all[i] in h.refs
    {
      assert h.all[i] in h.all;
    }
  }

  lemma {:induction false} TotalMono(s: seq<seq<nat>>, n: nat)
    requires n <= |s|
    ensures TotalLength(s, n) <= TotalLength(s, |s|)
    decreases |s| - n
  {
    if n < |s| {
      TotalMono(s, n + 1);
    }
  }

  // One walk of remove_lists: follow the links up to p and splice it out.
  method Unlink(list: seq<nat>, p: nat) returns (out: seq<nat>)
    ensures out == RemoveFrom(list, p)
  {
    var i := 0;
    while i < |list| && list[i] != p
      invariant 0 <= i <= |list|
      invariant RemoveFrom(list, p) == list[..i] + RemoveFrom(list[i..], p)
    {
      assert list[i..][1..] == list[i + 1..];
      assert list[..i + 1] == list[..i] + [list[i]];
      i := i + 1;
    }
    if i < |list| {
      assert list[i..][1..] == list[i + 1..];
      out := list[..i] + list[i + 1..];
    } else {
      out := list;
    }
  }

  lemma LiveFacts(r: PageRef, r': PageRef, m: seq<Byte>, free: seq<nat>, live: map<nat, nat>, b: nat)
    requires r.pab == r'.pab && PageOk(m, r', free, live) && b in live
    ensures r.Tag() < NSIZES && live[b] + GUARD_OVERHEAD <= BlockSize(r.Tag())
    ensures BlockAddr(r, b) + BlockSize(r.Tag()) <= |m|
    ensures Guarded(m, BlockAddr(r, b), live[b], BlockSize(r.Tag()))
  {
    hide FreeBlockOk, Guarded, BlockSize, NumBlocks, SmallerSize, Distinct, ChainShape, HeadOffset, PageRef.Addr,
         PageRef.Tag;
    SameWord(r, r');
    assert LiveBlockOk(m, r', b, live[b]);
    BlockInPage(r', b);
  }

  lemma ChainFacts(r: PageRef, r': PageRef, m: seq<Byte>, free: seq<nat>, live: map<nat, nat>, b: nat)
    requires r.pab == r'.pab && PageOk(m, r', [b] + free, live)
    ensures r.Tag() < NSIZES && BlockAddr(r, b) + BlockSize(r.Tag()) <= |m|
    ensures Beef(m, BlockAddr(r, b), BlockSize(r.Tag()))
    ensures Load32(m, BlockAddr(r, b)) == if |free| == 0 then 0 else BlockAddr(r, free[0])
  {
    hide LiveBlockOk, Beef, BlockSize, NumBlocks, SmallerSize, Distinct, HeadOffset, PageRef.Addr, PageRef.Tag, Load32;
    SameWord(r, r');
    var chain := [b] + free;
    assert chain[0] == b && FreeBlockOk(m, r', chain, 0);
    BlockInPage(r', b);
  }

  lemma SizesLength(h: Heap)
    requires HeapOk(h)
    ensures |h.sizes| == NSIZES
  {}

  lemma HeadNotLive(h: Heap, p: nat)
    requires HeapOk(h) && p in h.refs && h.refs[p].nfree > 0
    ensures |h.free[p]| > 0 && h.refs[p].Tag() < NSIZES && h.free[p][0] !in h.live[p]
    ensures h.free[p][0] < NumBlocks(h.refs[p].Tag())
  {
    hide FreeBlockOk, LiveBlockOk, PageRef.Addr, PageRef.Tag, BlockSize, NumBlocks, Distinct, ListsOk, HeadOffset;
    assert PageOk(h.mem, h.refs[p], h.free[p], h.live[p]);
  }

  lemma StaysInPage(h: Heap, p: nat, b: nat, m': seq<Byte>)
    requires PagesOk(h) && p in h.refs && h.refs[p].Tag() < NSIZES && b < NumBlocks(h.refs[p].Tag())
    requires SameOutside(h.mem, m', BlockAddr(h.refs[p], b), BlockAddr(h.refs[p], b) + BlockSize(h.refs[p].Tag()))
    ensures SameOutside(h.mem, m', h.refs[p].Addr(), h.refs[p].Addr() + PAGE_SIZE)
  {
    hide PageOk, PageRef.Addr, PageRef.Tag, BlockAddr, BlockSize, NumBlocks;
    ChainBlockInPage(h, p, b);
  }

  lemma LiveInPage(h: Heap, p: nat, b: nat)
    requires HeapOk(h) && IsLive(h, p, b)
    ensures h.refs[p].Tag() < NSIZES && b < NumBlocks(h.refs[p].Tag())
    ensures h.refs[p].Addr() <= BlockAddr(h.refs[p], b)
    ensures BlockAddr(h.refs[p], b) + BlockSize(h.refs[p].Tag()) <= h.refs[p].Addr() + PAGE_SIZE
  {
    hide FreeBlockOk, LiveBlockOk, PageRef.Addr, PageRef.Tag, BlockSize, NumBlocks, Distinct, ListsOk, HeadOffset,
         BlockAddr;
    assert PageOk(h.mem, h.refs[p], h.free[p], h.live[p]);
    BlockInPage(h.refs[p], b);
  }

  // A page is entirely free exactly when it has no live block left.
  lemma PageFull(m: seq<Byte>, r: PageRef, free: seq<nat>, live: map<nat, nat>)
    requires PageOk(m, r, free, live)
    ensures r.nfree <= PAGE_SIZE / BlockSize(r.Tag())
    ensures r.nfree == PAGE_SIZE / BlockSize(r.Tag()) <==> live.Keys == {}
  {
    BlockCount(m, r, free, live);
    assert NumBlocks(r.Tag()) == PAGE_SIZE / BlockSize(r.Tag());
    hide *;
    assert |live| == |live.Keys|;
    if |live| == 0 {
      assert live.Keys == {};
    }
  }

  lemma EmptyAfter(h: Heap, p: nat, b: nat)
    requires p in h.live && b in h.live[p] && (h.live[p] - {b}).Keys == {}
    ensures h.live[p].Keys == {b}
  {
    assert h.live[p].Keys == (h.live[p] - {b}).Keys + {b};
  }

  // A client pointer is 12 bytes into its block, so it is not page aligned, nor is it after
  // taking off the guard offset.
  lemma ClientOffsets(h: Heap, p: nat, b: nat, ptr: nat)
    requires HeapOk(h) && IsLive(h, p, b) && h.refs[p].Tag() < NSIZES
    requires ptr == BlockAddr(h.refs[p], b) + GUARD_PTROFFSET + LABEL_PTROFFSET
    ensures ptr % PAGE_SIZE != 0 && (ptr - GUARD_PTROFFSET) % PAGE_SIZE != 0
    ensures OnPage(h.refs[p], ptr - GUARD_PTROFFSET - LABEL_PTROFFSET)
  {
    hide PageOk, PageRef.Addr, PageRef.Tag, BlockAddr;
    LiveInPage(h, p, b);
    AlignedAddr(h.refs[p]);
    InsidePage(h.refs[p].Addr(), BlockAddr(h.refs[p], b) - h.refs[p].Addr());
  }

  lemma InsidePage(page: nat, o: nat)
    requires page % PAGE_SIZE == 0 && o + 16 <= PAGE_SIZE
    ensures (page + o + 12) % PAGE_SIZE != 0 && (page + o + 8) % PAGE_SIZE != 0
  {}

  // The address subpage_kfree takes for the start of ptr's block, in 32-bit arithmetic.
  function BlockOf(ptr: nat): nat {
    (ptr - GUARD_PTROFFSET - LABEL_PTROFFSET) % WORD_LIMIT
  }

  predicate OnPage(r: PageRef, addr: nat) {
    r.Addr() <= addr < r.Addr() + PAGE_SIZE
  }

  // A pointer that cannot have come from a subpage block, or whose block would be on no heap page.
  ghost predicate OffHeap(h: Heap, ptr: nat) {
    || ptr % PAGE_SIZE == 0 || (ptr - GUARD_PTROFFSET) % WORD_LIMIT % PAGE_SIZE == 0
    || forall q: nat | q in h.refs :: !OnPage(h.refs[q], BlockOf(ptr))
  }

  lemma ListedInUse(h: Heap)
    requires HeapOk(h)
    ensures forall i | 0 <= i < |h.all| :: h.all[i] in h.refs
  {
    hide PagesOk, PageRef.Tag, Distinct;
    assert forall i | 0 <= i < |h.all| :: h.all[i] in h.all;
  }

  lemma NotListed(h: Heap, ptr: nat)
    requires HeapOk(h) && (forall i | 0 <= i < |h.all| :: h.all[i] in h.refs && !OnPage(h.refs[h.all[i]], BlockOf(ptr)))
    ensures OffHeap(h, ptr)
  {
    hide PagesOk, PageRef.Tag, PageRef.Addr, Distinct, OnPage, BlockOf;
    forall q: nat | q in h.refs
      ensures !OnPage(h.refs[q], BlockOf(ptr))
    {
      assert q in h.all;
    }
  }

  // Block p/b is live and starts at addr.
  ghost predicate At(h: Heap, p: nat, b: nat, addr: nat) {
    IsLive(h, p, b) && h.refs[p].Tag() < NSIZES && addr == BlockAddr(h.refs[p], b)
  }

  // ptr is what kmalloc returned for the live block p/b.
  ghost predicate Names(h: Heap, ptr: nat, p: nat, b: nat) {
    GUARD_PTROFFSET + LABEL_PTROFFSET <= ptr && At(h, p, b, ptr - GUARD_PTROFFSET - LABEL_PTROFFSET)
  }

  // A client pointer's block can only be on the page the search stopped at.
  lemma NamesHere(h: Heap, ptr: nat, p: nat)
    requires HeapOk(h) && ptr < WORD_LIMIT && p in h.refs && OnPage(h.refs[p], BlockOf(ptr))
    ensures forall b: nat :: Names(h, ptr, p, b) <==> At(h, p, b, BlockOf(ptr))
    ensures forall q: nat, c: nat | Names(h, ptr, q, c) :: q == p
  {
    hide HeapOk, PageRef.Addr, PageRef.Tag, BlockAddr;
    forall q: nat, c: nat | Names(h, ptr, q, c)
      ensures q == p && At(h, q, c, BlockOf(ptr))
    {
      ClientOffsets(h, q, c, ptr);
      PagesDiffer(h, p, q, BlockOf(ptr));
    }
    forall b: nat | At(h, p, b, BlockOf(ptr))
      ensures Names(h, ptr, p, b)
    {
      PageBounds(h, p);
      LiveInPage(h, p, b);
    }
  }

  lemma PageBounds(h: Heap, p: nat)
    requires HeapOk(h) && p in h.refs
    ensures PAGE_SIZE <= h.refs[p].Addr() && h.refs[p].Addr() + PAGE_SIZE <= |h.mem| <= WORD_LIMIT
  {
    hide ListsOk, FreeBlockOk, LiveBlockOk, Partition, ChainShape, HeadOffset, PageRef.Addr, PageRef.Tag;
    assert PageOk(h.mem, h.refs[p], h.free[p], h.live[p]);
  }

  lemma TagInRange(h: Heap, p: nat)
    requires HeapOk(h) && p in h.refs
    ensures h.refs[p].Tag() < NSIZES
  {
    hide ListsOk, FreeBlockOk, LiveBlockOk, Partition, ChainShape, HeadOffset, PageRef.Addr, PageRef.Tag;
    assert PageOk(h.mem, h.refs[p], h.free[p], h.live[p]);
  }

  // The offset of addr in its page is a multiple of the page's block size.
  predicate Aligned(r: PageRef, addr: nat)
    requires r.Tag() < NSIZES && OnPage(r, addr)
  {
    (addr - r.Addr()) % BlockSize(r.Tag()) == 0
  }

  function BlockNo(r: PageRef, addr: nat): nat
    requires r.Tag() < NSIZES && OnPage(r, addr)
  {
    (addr - r.Addr()) / BlockSize(r.Tag())
  }

  // No block starts at an offset that is no multiple of the block size.
  lemma Misaligned(h: Heap, p: nat, addr: nat)
    requires HeapOk(h) && p in h.refs && h.refs[p].Tag() < NSIZES && OnPage(h.refs[p], addr)
    requires !Aligned(h.refs[p], addr)
    ensures forall c: nat :: !At(h, p, c, addr)
  {
    hide HeapOk, PageRef.Addr, PageRef.Tag, BlockSize;
    forall c: nat | At(h, p, c, addr)
      ensures false
    {
      LiveInPage(h, p, c);
      BlockInPage(h.refs[p], c);
    }
  }

  // At a multiple of the block size there is a block, and no other.
  lemma OnlyBlock(h: Heap, p: nat, b: nat, addr: nat)
    requires HeapOk(h) && p in h.refs && h.refs[p].Tag() < NSIZES && OnPage(h.refs[p], addr)
    requires Aligned(h.refs[p], addr) && b == BlockNo(h.refs[p], addr)
    ensures addr == BlockAddr(h.refs[p], b) && b < NumBlocks(h.refs[p].Tag())
    ensures addr + BlockSize(h.refs[p].Tag()) <= |h.mem|
    ensures forall c: nat | At(h, p, c, addr) :: c == b
  {
    hide HeapOk, PageRef.Addr, PageRef.Tag, NumBlocks, BlockSize;
    var r := h.refs[p];
    PageBounds(h, p);
    WholeBlocks(addr - r.Addr(), BlockSize(r.Tag()), NumBlocks(r.Tag()), r.Tag());
    BlockInPage(r, b);
    forall c: nat | At(h, p, c, addr)
      ensures c == b
    {
      if c != b {
        BlocksApart(r, b, c);
      }
    }
  }

  lemma WholeBlocks(o: nat, size: nat, n: nat, kind: Kind)
    requires size == BlockSize(kind) && n == NumBlocks(kind) && o < PAGE_SIZE && o % size == 0
    ensures o / size * size == o && o / size < n
  {
    BlocksFillPage(kind);
  }

  // The guard check tells live blocks from free ones: a free block ends in 0xdeadbeef.
  lemma GuardsTell(h: Heap, p: nat, b: nat, addr: nat)
    requires HeapOk(h) && p in h.refs && h.refs[p].Tag() < NSIZES && b < NumBlocks(h.refs[p].Tag())
    requires addr == BlockAddr(h.refs[p], b) && addr + BlockSize(h.refs[p].Tag()) <= |h.mem|
    ensures GuardCheck(h.mem, addr, SmallerSize(h.refs[p].Tag()), BlockSize(h.refs[p].Tag())) <==> At(h, p, b, addr)
  {
    hide ListsOk, PageRef.Addr, PageRef.Tag, BlockSize, NumBlocks, ChainShape, HeadOffset, SmallerSize, BlockAddr,
         LiveBlockOk, FreeBlockOk, GuardCheck;
    var r, free, live := h.refs[p], h.free[p], h.live[p];
    assert PageOk(h.mem, r, free, live);
    if b in live {
      assert LiveBlockOk(h.mem, r, b, live[b]);
      LiveChecks(h.mem, r, b, live[b]);
    } else {
      assert b in free;
      var i: nat :| i < |free| && free[i] == b;
      FreeFails(h.mem, r, free, i);
    }
  }

  lemma FreeFails(m: seq<Byte>, r: PageRef, free: seq<nat>, i: nat)
    requires RefOk(r, |m|) && ChainShape(r.Tag(), free) && i < |free| && FreeBlockOk(m, r, free, i)
    requires BlockAddr(r, free[i]) + BlockSize(r.Tag()) <= |m|
    ensures !GuardCheck(m, BlockAddr(r, free[i]), SmallerSize(r.Tag()), BlockSize(r.Tag()))
  {
    hide PageRef.Addr, PageRef.Tag, NumBlocks, SmallerSize, BlockAddr, BlockSize, Load32;
    var a, size := BlockAddr(r, free[i]), BlockSize(r.Tag());
    assert m[a + (size - 4)] == BeefByte(size - 4) == 0xde;
    assert Load16(m, a + size - 4) != GUARD_HALFWORD;
  }

  lemma PagesDiffer(h: Heap, p: nat, q: nat, addr: nat)
    requires HeapOk(h) && p in h.refs && q in h.refs && OnPage(h.refs[p], addr) && OnPage(h.refs[q], addr)
    ensures p == q
  {
    hide PageOk, ListsOk, PageRef.Addr;
    if p != q {
      PagesApart(h, p, q);
    }
  }
}
