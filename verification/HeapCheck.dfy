/**
 The heap's own consistency checks, as tests: which pages they accept.
 */
module HeapCheck {
  import opened Basics
  import opened Bits
  import opened HeapMemory
  import opened HeapPage
  import opened HeapBlocks
  import opened PageRefs

  // The pageref's page lies inside memory, whatever its block type says.
  predicate InRam(r: PageRef, top: nat) {
    PAGE_SIZE <= r.Addr() && r.Addr() + PAGE_SIZE <= top <= WORD_LIMIT
  }

  /**
   What checksubpage accepts: a page with free blocks exactly when the page invariant holds of it,
   for some chain and some recorded sizes. A page marked full is only asked for its count; its
   guard bands are not looked at.
   */
  ghost predicate Accepts(m: seq<Byte>, r: PageRef) {
    if r.offset == INVALID_OFFSET then r.nfree == 0
    else exists free: seq<nat>, live: map<nat, nat> :: |free| > 0 && PageOk(m, r, free, live)
  }

  // A page that satisfies the invariant is accepted.
  lemma GoodAccepted(m: seq<Byte>, r: PageRef, free: seq<nat>, live: map<nat, nat>)
    requires PageOk(m, r, free, live)
    ensures Accepts(m, r)
  {
    hide FreeBlockOk, LiveBlockOk, Distinct, NumBlocks;
    if r.offset == INVALID_OFFSET {
      NoHead(m, r, free);
    } else {
      assert |free| > 0;
    }
  }

  lemma NoHead(m: seq<Byte>, r: PageRef, free: seq<nat>)
    requires ChainOk(m, r, free) && r.offset == INVALID_OFFSET
    ensures |free| == 0
  {
    hide NumBlocks, Distinct;
    if |free| > 0 {
      BlockInPage(r, free[0]);
    }
  }

  // checkdeadbeef.
  method CheckDeadbeef(ram: array<Byte>, block: nat, size: nat) returns (ok: bool)
    requires block + size <= ram.Length && size % 4 == 0
    ensures ok <==> Beef(ram[..], block, size)
  {
    var i := 1;
    while i < size / 4
      invariant 1 <= i
      invariant i <= size / 4 || size < 4
      invariant forall k | 4 <= k < 4 * i && k < size :: ram[block + k] == BeefByte(k)
    {
      var a := block + 4 * i;
      if !(ram[a] == 0xde && ram[a + 1] == 0xad && ram[a + 2] == 0xbe && ram[a + 3] == 0xef) {
        assert !(ram[..][block + 4 * i] == BeefByte(4 * i) && ram[..][block + (4 * i + 1)] == BeefByte(4 * i + 1)
                 && ram[..][block + (4 * i + 2)] == BeefByte(4 * i + 2)
                   && ram[..][block + (4 * i + 3)] == BeefByte(4 * i + 3));
        return false;
      }
      i := i + 1;
    }
    return true;
  }

  // ---------------------------------------------------------------- the chain walk

  // An aligned address inside the page is the address of one of its blocks.
  lemma BlockAt(r: PageRef, fl: nat)
    requires r.Tag() < NSIZES && r.Addr() <= fl < r.Addr() + PAGE_SIZE && (fl - r.Addr()) % BlockSize(r.Tag()) == 0
    ensures var b := (fl - r.Addr()) / BlockSize(r.Tag()); b < NumBlocks(r.Tag()) && BlockAddr(r, b) == fl
  {
    hide NumBlocks, BlockSize, PageRef.Addr, PageRef.Tag;
    var size, o := BlockSize(r.Tag()), fl - r.Addr();
    DivMod(o, size);
    BlocksFillPage(r.Tag());
    if o / size >= NumBlocks(r.Tag()) {
      MulMono(NumBlocks(r.Tag()), o / size, size);
      assert false;
    }
  }

  lemma BlockNumber(b: nat, size: nat)
    requires size > 0
    ensures (b * size) / size == b
  {
    DivModUnique(b * size, size, b, 0);
  }

  // A chain has no more links than the page has blocks.
  lemma ShapeBound(k: Kind, free: seq<nat>)
    requires ChainShape(k, free)
    ensures |free| <= NumBlocks(k)
  {
    hide NumBlocks;
    SeqAsSet(free);
    RangeSize(NumBlocks(k));
    SubsetSize(Elements(free), Range(NumBlocks(k)));
  }

  /**
   The blocks met so far on the walk: distinct, filled, each linked to the next, the last one to
   fl; the first one is where the pageref says.
   */
  predicate Walked(m: seq<Byte>, r: PageRef, met: seq<nat>, fl: nat) {
    && RefOk(r, |m|) && ChainShape(r.Tag(), met)
    && (forall i | 0 <= i < |met| :: MetOk(m, r, met, i, fl))
    && (if |met| == 0 then fl == r.Addr() + r.offset else r.offset == met[0] * BlockSize(r.Tag()))
  }

  predicate MetOk(m: seq<Byte>, r: PageRef, met: seq<nat>, i: nat, fl: nat)
    requires RefOk(r, |m|) && ChainShape(r.Tag(), met) && i < |met|
  {
    BlockInPage(r, met[i]);
    && Beef(m, BlockAddr(r, met[i]), BlockSize(r.Tag()))
    && Load32(m, BlockAddr(r, met[i])) == if i + 1 < |met| then BlockAddr(r, met[i + 1]) else fl
  }

  lemma WalkOn(m: seq<Byte>, r: PageRef, met: seq<nat>, fl: nat, b: nat)
    requires Walked(m, r, met, fl) && b < NumBlocks(r.Tag()) && b !in met && fl == BlockAddr(r, b)
    requires BlockAddr(r, b) + BlockSize(r.Tag()) <= |m| && Beef(m, fl, BlockSize(r.Tag()))
    ensures Walked(m, r, met + [b], Load32(m, fl))
  {
    hide NumBlocks, BlockSize, Beef, Load32, PageRef.Addr, PageRef.Tag;
    var more := met + [b];
    assert ChainShape(r.Tag(), more);
    forall i | 0 <= i < |more|
      ensures MetOk(m, r, more, i, Load32(m, fl))
    {
      if i < |met| {
        assert MetOk(m, r, met, i, fl);
      }
    }
    hide MetOk, Distinct;
    assert |met| > 0 ==> more[0] == met[0];
  }

  // A walk that has come to the end has seen a whole chain.
  lemma WalkEnds(m: seq<Byte>, r: PageRef, met: seq<nat>)
    requires Walked(m, r, met, 0) && |met| > 0
    ensures ChainOk(m, r, met)
  {
    hide NumBlocks, BlockSize, Beef, Load32, PageRef.Addr, PageRef.Tag, Distinct;
    forall i | 0 <= i < |met|
      ensures FreeBlockOk(m, r, met, i)
    {
      assert MetOk(m, r, met, i, 0);
    }
  }

  // The walk is where a chain known to be good says it should be.
  ghost predicate Follows(r: PageRef, good: bool, chain: seq<nat>, met: seq<nat>, fl: nat)
    requires r.Tag() < NSIZES
  {
    good ==> |met| <= |chain| && met == chain[..|met|] && fl == if |met| < |chain| then BlockAddr(r, chain[|met|])
      else 0
  }

  // One turn on a good chain: every test passes.
  lemma GoodTurn(m: seq<Byte>, r: PageRef, chain: seq<nat>, met: seq<nat>, fl: nat)
    requires ChainOk(m, r, chain) && Follows(r, true, chain, met, fl) && fl != 0
    ensures r.Addr() <= fl < r.Addr() + PAGE_SIZE && (fl - r.Addr()) % BlockSize(r.Tag()) == 0
    ensures fl + BlockSize(r.Tag()) <= |m| && Beef(m, fl, BlockSize(r.Tag())) && Load32(m, fl) != fl
    ensures var b := (fl - r.Addr()) / BlockSize(r.Tag());
                b !in met && Follows(r, true, chain, met + [b], Load32(m, fl))
  {
    hide NumBlocks, BlockSize, Beef, Load32, PageRef.Addr, PageRef.Tag;
    var n := |met|;
    var b := chain[n];
    assert FreeBlockOk(m, r, chain, n);
    BlockInPage(r, b);
    BlockNumber(b, BlockSize(r.Tag()));
    if n + 1 < |chain| {
      BlockInPage(r, chain[n + 1]);
      BlocksApart(r, b, chain[n + 1]);
    }
    assert chain[..n + 1] == chain[..n] + [b];
  }

  /**
   The chain walk of checksubpage: it passes exactly on a whole chain of nfree filled blocks, and
   marks those blocks. good and chain are a chain known to be right, if there is one.
   */
  method CheckChain(ram: array<Byte>, r: PageRef, isfree: array<bool>, ghost good: bool, ghost chain: seq<nat>)
    returns (ok: bool, ghost free: seq<nat>)
    requires RefOk(r, ram.Length) && r.offset < PAGE_SIZE && r.offset % BlockSize(r.Tag()) == 0
    requires isfree.Length == NumBlocks(r.Tag()) && forall b | 0 <= b < isfree.Length :: !isfree[b]
    requires good ==> ChainOk(ram[..], r, chain) && |chain| > 0 && r.nfree == |chain|
    modifies isfree
    ensures good ==> ok && free == chain
    ensures ok ==> ChainOk(ram[..], r, free) && |free| > 0 && r.nfree == |free|
    ensures ok ==> forall b | 0 <= b < isfree.Length :: isfree[b] <==> b in free
  {
    var prpage, size, nfree := r.Addr(), BlockSize(r.Tag()), 0;
    var fl: nat := prpage + r.offset;
    free := [];
    if good {
      HeadLink(ram[..], r, chain);
    }
    assert Walked(ram[..], r, free, fl) && Follows(r, good, chain, free, fl);
    hide Walked, Follows, ChainOk, NumBlocks, BlockSize, Beef, Load32, PageRef.Addr, PageRef.Tag, BlockAddr;
    while fl != 0
      invariant nfree == |free| && Walked(ram[..], r, free, fl) && Follows(r, good, chain, free, fl)
      invariant forall b | 0 <= b < isfree.Length :: isfree[b] <==> b in free
      invariant nfree == 0 ==> fl != 0
      decreases NumBlocks(r.Tag()) - nfree
    {
      if good {
        GoodTurn(ram[..], r, chain, free, fl);
      }
      if !(prpage <= fl < prpage + PAGE_SIZE && (fl - prpage) % size == 0) {
        return false, free;
      }
      var b := (fl - prpage) / size;
      BlockAt(r, fl);
      BlockInPage(r, b);
      var beef := CheckDeadbeef(ram, fl, size);
      if !beef {
        return false, free;
      }
      if isfree[b] {
        return false, free;
      }
      WalkOn(ram[..], r, free, fl, b);
      isfree[b] := true;
      var next := Load32(ram[..], fl);
      if next == fl {
        return false, free;
      }
      free := free + [b];
      WalkBound(ram[..], r, free, next);
      fl := next;
      nfree := nfree + 1;
    }
    WalkEnds(ram[..], r, free);
    if good {
      GoodEnd(r, chain, free);
    }
    return nfree == r.nfree, free;
  }

  lemma WalkBound(m: seq<Byte>, r: PageRef, met: seq<nat>, fl: nat)
    requires Walked(m, r, met, fl)
    ensures |met| <= NumBlocks(r.Tag())
  {
    hide NumBlocks, MetOk;
    ShapeBound(r.Tag(), met);
  }

  lemma GoodEnd(r: PageRef, chain: seq<nat>, met: seq<nat>)
    requires r.Tag() < NSIZES && PAGE_SIZE <= r.Addr() && Follows(r, true, chain, met, 0)
    ensures met == chain
  {
    hide BlockSize, PageRef.Addr, PageRef.Tag;
    assert chain[..|chain|] == chain;
  }

  // ---------------------------------------------------------------- a whole page

  // The sizes the guard bands of blocks below n record, for the blocks not in the chain.
  ghost predicate Sized(m: seq<Byte>, r: PageRef, free: seq<nat>, live: map<nat, nat>, n: nat)
    requires RefOk(r, |m|) && n <= NumBlocks(r.Tag())
  {
    && (forall b: nat :: b in live <==> b < n && b !in free)
    && (forall b: nat | b in live :: LiveBlockOk(m, r, b, live[b]))
  }

  /**
   checksubpage: it passes exactly on the pages Accepts describes.
   */
  method CheckSubpage(ram: array<Byte>, r: PageRef) returns (ok: bool)
    requires InRam(r, ram.Length)
    ensures ok <==> Accepts(ram[..], r)
  {
    if r.offset == INVALID_OFFSET {
      return r.nfree == 0;
    }
    ghost var good := exists free: seq<nat>, live: map<nat, nat> :: |free| > 0 && PageOk(ram[..], r, free, live);
    ghost var chain: seq<nat>, sizes: map<nat, nat> := [], map[];
    if good {
      chain, sizes :| |chain| > 0 && PageOk(ram[..], r, chain, sizes);
      GoodFacts(ram[..], r, chain, sizes);
    }
    hide PageOk, ChainOk, NumBlocks, BlockSize, LiveBlockOk, FreeBlockOk, PageRef.Addr, PageRef.Tag, Guarded,
         SmallerSize, Distinct;
    if !(r.Tag() < NSIZES) {
      return false;
    }
    var size := BlockSize(r.Tag());
    if !(r.offset < PAGE_SIZE && r.offset % size == 0) {
      return false;
    }
    var isfree := new bool[NumBlocks(r.Tag())](i => false);
    ghost var free;
    ok, free := CheckChain(ram, r, isfree, good, chain);
    if ok {
      ghost var live;
      ok, live := CheckGuards(ram, r, isfree, free, good, sizes);
      if ok {
        WholePage(ram[..], r, free, live);
      }
    }
  }

  lemma GoodFacts(m: seq<Byte>, r: PageRef, chain: seq<nat>, sizes: map<nat, nat>)
    requires PageOk(m, r, chain, sizes) && |chain| > 0
    ensures ChainOk(m, r, chain) && r.nfree == |chain| && r.Tag() < NSIZES
    ensures r.offset < PAGE_SIZE && r.offset % BlockSize(r.Tag()) == 0
    ensures Sized(m, r, chain, sizes, NumBlocks(r.Tag()))
  {
    hide NumBlocks, BlockSize, LiveBlockOk, FreeBlockOk, Distinct, PageRef.Addr, PageRef.Tag;
    HeadLink(m, r, chain);
  }

  lemma WholePage(m: seq<Byte>, r: PageRef, free: seq<nat>, live: map<nat, nat>)
    requires ChainOk(m, r, free) && r.nfree == |free| && Sized(m, r, free, live, NumBlocks(r.Tag()))
    ensures PageOk(m, r, free, live)
  {
    hide NumBlocks, BlockSize, LiveBlockOk, FreeBlockOk, Distinct, PageRef.Addr, PageRef.Tag;
  }

  // The last loop of checksubpage: the guard bands of every block not marked free.
  method CheckGuards(ram: array<Byte>, r: PageRef, isfree: array<bool>, ghost free: seq<nat>, ghost good: bool,
        ghost sizes: map<nat, nat>)
    returns (ok: bool, ghost live: map<nat, nat>)
    requires RefOk(r, ram.Length) && isfree.Length == NumBlocks(r.Tag())
    requires forall b | 0 <= b < isfree.Length :: isfree[b] <==> b in free
    requires good ==> Sized(ram[..], r, free, sizes, NumBlocks(r.Tag()))
    ensures good ==> ok
    ensures ok ==> Sized(ram[..], r, free, live, NumBlocks(r.Tag()))
  {
    hide NumBlocks, BlockSize, PageRef.Addr, PageRef.Tag, Guarded, SmallerSize, Load16, LiveBlockOk;
    var i := 0;
    live := map[];
    while i < NumBlocks(r.Tag())
      invariant 0 <= i <= NumBlocks(r.Tag()) && Sized(ram[..], r, free, live, i)
    {
      if !isfree[i] {
        BlockInPage(r, i);
        if good {
          LiveChecks(ram[..], r, i, sizes[i]);
        }
        var guarded := CheckGuardBand(ram, r.Addr() + i * BlockSize(r.Tag()), SmallerSize(r.Tag()), BlockSize(r.Tag()));
        if !guarded {
          return false, live;
        }
        ghost var size: nat := Load16(ram[..], BlockAddr(r, i) + 2);
        GuardedIsLive(ram[..], r, i);
        live := live[i := size];
      }
      i := i + 1;
    }
    ok := true;
  }

  lemma GuardedIsLive(m: seq<Byte>, r: PageRef, b: nat)
    requires RefOk(r, |m|) && b < NumBlocks(r.Tag()) && BlockAddr(r, b) + BlockSize(r.Tag()) <= |m|
    requires GuardCheck(m, BlockAddr(r, b), SmallerSize(r.Tag()), BlockSize(r.Tag()))
    ensures LiveBlockOk(m, r, b, Load16(m, BlockAddr(r, b) + 2))
  {
    hide NumBlocks, BlockSize, PageRef.Addr, PageRef.Tag, Guarded, SmallerSize, Load16;
  }
}
