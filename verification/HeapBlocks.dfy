/**
 The operations of the subpage allocator on one page: making the free chain,
 taking a block from it, putting a block back, and checking the page.
 */
module HeapBlocks {
  import opened Basics
  import opened Bits
  import opened HeapMemory
  import opened HeapPage

  // ---------------------------------------------------------------- taking a block

  function PopRef(r: PageRef, free: seq<nat>): PageRef
    requires r.Tag() < NSIZES && |free| > 0 && r.nfree > 0
  {
    PageRef(r.pab, HeadOffset(r, free[1..]), r.nfree - 1)
  }

  lemma ChainTail(k: Kind, free: seq<nat>, live: map<nat, nat>, cs: nat)
    requires |free| > 0 && ChainShape(k, free) && Partition(k, free, live)
    ensures ChainShape(k, free[1..]) && free[0] !in live && free[0] !in free[1..]
    ensures Partition(k, free[1..], live[free[0] := cs])
  {
    hide NumBlocks;
    var b, t := free[0], free[1..];
    assert free == [b] + t;
    assert b !in t;
  }

  // Handing out the head of the chain keeps the page invariant.
  lemma PopKeeps(m: seq<Byte>, m': seq<Byte>, r: PageRef, free: seq<nat>, live: map<nat, nat>, cs: nat)
    requires PageOk(m, r, free, live) && |free| > 0
    requires SmallerSize(r.Tag()) < cs + GUARD_OVERHEAD <= BlockSize(r.Tag())
    requires SameOutside(m, m', BlockAddr(r, free[0]), BlockAddr(r, free[0]) + BlockSize(r.Tag()))
    requires BlockAddr(r, free[0]) + BlockSize(r.Tag()) <= |m|
    requires Guarded(m', BlockAddr(r, free[0]), cs, BlockSize(r.Tag()))
    ensures PageOk(m', PopRef(r, free), free[1..], live[free[0] := cs])
  {
    hide BlockSize, NumBlocks, PageRef.Addr, SmallerSize, BlockAddr, Guarded, Beef, Distinct;
    var r', b, t, live' := PopRef(r, free), free[0], free[1..], live[free[0] := cs];
    ChainTail(r.Tag(), free, live, cs);
    SameRef(r, r');
    forall i | 0 <= i < |t|
      ensures FreeBlockOk(m', r', t, i)
    {
      assert FreeBlockOk(m, r, free, i + 1) && t[i] == free[i + 1];
      OutsideBlock(m, m', r, b, free[i + 1]);
      FreeBlockFrame(m, m', r, free, i + 1);
      SameBlock(m', r, r', free, i + 1, t, i);
    }
    forall c: nat | c in live'
      ensures LiveBlockOk(m', r', c, live'[c])
    {
      if c == b {
        LiveSame(m', r, r', b, cs);
      } else {
        assert LiveBlockOk(m, r, c, live[c]);
        OutsideBlock(m, m', r, b, c);
        LiveBlockFrame(m, m', r, c, live[c]);
        LiveSame(m', r, r', c, live[c]);
      }
    }
  }

  // Only the page word of a pageref matters to addresses.
  lemma SameRef(r: PageRef, r': PageRef)
    requires r.pab == r'.pab && r.Tag() < NSIZES
    ensures r.Addr() == r'.Addr() && r.Tag() == r'.Tag()
    ensures forall b: nat :: BlockAddr(r, b) == BlockAddr(r', b)
  {}

  lemma OutsideBlock(m: seq<Byte>, m': seq<Byte>, r: PageRef, b: nat, c: nat)
    requires r.Tag() < NSIZES && b != c && RefOk(r, |m|) && c < NumBlocks(r.Tag())
    requires SameOutside(m, m', BlockAddr(r, b), BlockAddr(r, b) + BlockSize(r.Tag()))
    ensures SameInside(m, m', BlockAddr(r, c), BlockAddr(r, c) + BlockSize(r.Tag()))
  {
    hide BlockSize, NumBlocks, PageRef.Addr, PageRef.Tag, BlockAddr;
    BlocksApart(r, b, c);
    BlockInPage(r, c);
  }

  lemma SameBlock(m: seq<Byte>, r: PageRef, r': PageRef, free: seq<nat>, i: nat, free': seq<nat>, j: nat)
    requires r.pab == r'.pab && RefOk(r, |m|) && ChainShape(r.Tag(), free) && ChainShape(r.Tag(), free')
    requires i < |free| && j < |free'| && free[i..] == free'[j..]
    requires FreeBlockOk(m, r, free, i)
    ensures FreeBlockOk(m, r', free', j)
  {
    hide BlockSize, NumBlocks, PageRef.Addr, Beef, Distinct;
    SameRef(r, r');
    assert free[i] == free[i..][0] && free'[j] == free'[j..][0];
    if i + 1 < |free| {
      assert free[i + 1] == free[i..][1] && free'[j + 1] == free'[j..][1];
    }
  }

  lemma LiveSame(m: seq<Byte>, r: PageRef, r': PageRef, b: nat, cs: nat)
    requires r.pab == r'.pab && RefOk(r, |m|) && b < NumBlocks(r.Tag())
    requires SmallerSize(r.Tag()) < cs + GUARD_OVERHEAD <= BlockSize(r.Tag())
    requires BlockAddr(r, b) + BlockSize(r.Tag()) <= |m| && Guarded(m, BlockAddr(r, b), cs, BlockSize(r.Tag()))
    ensures LiveBlockOk(m, r', b, cs)
  {
    hide BlockSize, NumBlocks, PageRef.Addr, Guarded, SmallerSize;
    SameRef(r, r');
  }

  /**
   The allocation at label doalloc: unlink the head of the chain, then write the guards and
   the label. Its assertions about nfree hold.
   */
  method PopBlock(ram: array<Byte>, r: PageRef, cs: nat, site: nat, generation: nat,
                  ghost free: seq<nat>, ghost live: map<nat, nat>)
    returns (ptr: nat, r': PageRef)
    requires PageOk(ram[..], r, free, live) && r.nfree > 0
    requires LABEL_PTROFFSET <= cs && SmallerSize(r.Tag()) < cs + GUARD_OVERHEAD <= BlockSize(r.Tag())
    requires site < WORD_LIMIT && generation < WORD_LIMIT
    modifies ram
    ensures ptr == BlockAddr(r, free[0]) + GUARD_PTROFFSET + LABEL_PTROFFSET
    ensures r' == PopRef(r, free)
    ensures PageOk(ram[..], r', free[1..], live[free[0] := cs])
    ensures SameOutside(old(ram[..]), ram[..], BlockAddr(r, free[0]), BlockAddr(r, free[0]) + BlockSize(r.Tag()))
  {
    hide NumBlocks, Guarded, Beef, Distinct, SmallerSize, Load32;
    ghost var m := ram[..];
    assert FreeBlockOk(m, r, free, 0);
    BlockInPage(r, free[0]);
    var prpage := r.Addr();
    var fla := prpage + r.offset;
    assert fla == BlockAddr(r, free[0]);
    var next := Load32(ram[..], fla);
    var nfree := r.nfree - 1;
    if next != 0 {
      assert nfree > 0;
      BlockInPage(r, free[1]);
      assert next - prpage < PAGE_SIZE;
      r' := PageRef(r.pab, next - prpage, nfree);
    } else {
      assert nfree == 0 by {
        if |free| > 1 {
          BlockInPage(r, free[1]);
        }
      }
      r' := PageRef(r.pab, INVALID_OFFSET, nfree);
    }
    ptr := WriteBlock(ram, fla, cs, BlockSize(r.Tag()), site, generation);
    PopKeeps(m, ram[..], r, free, live, cs);
  }

  // Guards first, then the label inside the guarded client data.
  method WriteBlock(ram: array<Byte>, block: nat, cs: nat, size: nat, site: nat, generation: nat) returns (ptr: nat)
    requires LABEL_PTROFFSET <= cs && cs + GUARD_OVERHEAD <= size <= 2048 && block + size <= ram.Length
    requires site < WORD_LIMIT && generation < WORD_LIMIT
    modifies ram
    ensures ptr == block + GUARD_PTROFFSET + LABEL_PTROFFSET
    ensures SameOutside(old(ram[..]), ram[..], block, block + size)
    ensures Guarded(ram[..], block, cs, size)
  {
    hide Load32;
    var data := EstablishGuardBand(ram, block, cs, size);
    ghost var m := ram[..];
    ptr := EstablishLabel(ram, data, site, generation);
    GuardsSurvive(m, ram[..], block, cs, size);
  }

  // Any change confined to the client data leaves the guards intact.
  lemma GuardsSurvive(m: seq<Byte>, m': seq<Byte>, block: nat, cs: nat, size: nat)
    requires cs + GUARD_OVERHEAD <= size && block + size <= |m| && Guarded(m, block, cs, size)
    requires SameOutside(m, m', block + 4, block + 4 + cs)
    ensures Guarded(m', block, cs, size)
  {}

  // ---------------------------------------------------------------- putting a block back

  function PushRef(r: PageRef, b: nat): PageRef
    requires r.Tag() < NSIZES
  {
    PageRef(r.pab, b * BlockSize(r.Tag()), r.nfree + 1)
  }

  lemma ChainPush(k: Kind, free: seq<nat>, live: map<nat, nat>, b: nat)
    requires ChainShape(k, free) && Partition(k, free, live) && b in live
    ensures ChainShape(k, [b] + free) && b < NumBlocks(k)
    ensures Partition(k, [b] + free, live - {b})
  {
    hide NumBlocks;
    assert b !in free;
  }

  lemma PushKeeps(m: seq<Byte>, m': seq<Byte>, r: PageRef, free: seq<nat>, live: map<nat, nat>, b: nat)
    requires PageOk(m, r, free, live) && b in live
    requires BlockAddr(r, b) + BlockSize(r.Tag()) <= |m|
    requires SameOutside(m, m', BlockAddr(r, b), BlockAddr(r, b) + BlockSize(r.Tag()))
    requires Beef(m', BlockAddr(r, b), BlockSize(r.Tag()))
    requires Load32(m', BlockAddr(r, b)) == if |free| == 0 then 0 else BlockAddr(r, free[0])
    ensures PageOk(m', PushRef(r, b), [b] + free, live - {b})
  {
    hide BlockSize, NumBlocks, PageRef.Addr, SmallerSize, BlockAddr, Guarded, Beef, Distinct, Load32;
    var r', t, live' := PushRef(r, b), [b] + free, live - {b};
    ChainPush(r.Tag(), free, live, b);
    SameRef(r, r');
    forall i | 0 <= i < |t|
      ensures FreeBlockOk(m', r', t, i)
    {
      if i == 0 {
        HeadOk(m', r, r', free, b);
      } else {
        assert FreeBlockOk(m, r, free, i - 1);
        OutsideBlock(m, m', r, b, free[i - 1]);
        FreeBlockFrame(m, m', r, free, i - 1);
        assert free[i - 1..] == t[i..];
        SameBlock(m', r, r', free, i - 1, t, i);
      }
    }
    forall c: nat | c in live'
      ensures LiveBlockOk(m', r', c, live'[c])
    {
      assert LiveBlockOk(m, r, c, live[c]);
      OutsideBlock(m, m', r, b, c);
      LiveBlockFrame(m, m', r, c, live[c]);
      LiveSame(m', r, r', c, live[c]);
    }
  }

  lemma HeadOk(m: seq<Byte>, r: PageRef, r': PageRef, free: seq<nat>, b: nat)
    requires r.pab == r'.pab && RefOk(r, |m|) && ChainShape(r.Tag(), [b] + free)
    requires BlockAddr(r, b) + BlockSize(r.Tag()) <= |m| && Beef(m, BlockAddr(r, b), BlockSize(r.Tag()))
    requires Load32(m, BlockAddr(r, b)) == if |free| == 0 then 0 else BlockAddr(r, free[0])
    ensures FreeBlockOk(m, r', [b] + free, 0)
  {
    hide BlockSize, NumBlocks, PageRef.Addr, Beef, Distinct, Load32;
    SameRef(r, r');
  }

  // The chain of a page, whatever the rest of the page holds.
  predicate ChainOk(m: seq<Byte>, r: PageRef, free: seq<nat>) {
    && RefOk(r, |m|) && ChainShape(r.Tag(), free) && r.offset == HeadOffset(r, free)
    && forall i | 0 <= i < |free| :: FreeBlockOk(m, r, free, i)
  }

  // The walk that makes sure the freed block is not already in the chain.
  method WalkChain(ram: array<Byte>, r: PageRef, fl: nat, ghost free: seq<nat>, ghost b: nat)
    returns (ok: bool)
    requires ChainOk(ram[..], r, free) && b !in free && fl == BlockAddr(r, b)
    ensures ok
  {
    hide NumBlocks, Beef, Distinct, Load32;
    ghost var i := 0;
    HeadLink(ram[..], r, free);
    var fl2 := if r.offset == INVALID_OFFSET then 0 else r.Addr() + r.offset;
    while fl2 != 0
      invariant 0 <= i <= |free|
      invariant fl2 == if i < |free| then BlockAddr(r, free[i]) else 0
      decreases |free| - i
    {
      assert FreeBlockOk(ram[..], r, free, i);
      BlockInPage(r, free[i]);
      BlocksApart(r, b, free[i]);
      if fl2 == fl {
        return false;
      }
      fl2 := Load32(ram[..], fl2);
      i := i + 1;
    }
    return true;
  }

  // The head of the chain, found from the pageref's offset.
  lemma HeadLink(m: seq<Byte>, r: PageRef, free: seq<nat>)
    requires ChainOk(m, r, free)
    ensures (if r.offset == INVALID_OFFSET then 0 else r.Addr() + r.offset)
         == (if |free| == 0 then 0 else BlockAddr(r, free[0]))
    ensures |free| > 0 ==> r.offset < PAGE_SIZE && r.offset % BlockSize(r.Tag()) == 0
  {
    hide NumBlocks, FreeBlockOk, Distinct;
    if |free| > 0 {
      BlockInPage(r, free[0]);
    }
  }

  // Overwriting a live block does not touch the chain.
  lemma ChainSurvives(m: seq<Byte>, m': seq<Byte>, r: PageRef, free: seq<nat>, b: nat)
    requires ChainOk(m, r, free) && b !in free
    requires SameOutside(m, m', BlockAddr(r, b), BlockAddr(r, b) + BlockSize(r.Tag()))
    ensures ChainOk(m', r, free)
  {
    hide NumBlocks, BlockSize, PageRef.Addr, PageRef.Tag, BlockAddr, Beef, Distinct, Load32;
    forall i | 0 <= i < |free|
      ensures FreeBlockOk(m', r, free, i)
    {
      assert FreeBlockOk(m, r, free, i);
      OutsideBlock(m, m', r, b, free[i]);
      FreeBlockFrame(m, m', r, free, i);
    }
  }

  /**
   The middle of subpage_kfree: check the guards, fill the block with 0xdeadbeef, link it in
   front of the chain. Neither the guard check nor the double-free walk can fail.
   */
  method PushBlock(ram: array<Byte>, r: PageRef, ptraddr: nat, ghost free: seq<nat>, ghost live: map<nat, nat>,
        ghost b: nat)
    returns (r': PageRef)
    requires PageOk(ram[..], r, free, live) && b in live && ptraddr == BlockAddr(r, b)
    modifies ram
    ensures r' == PushRef(r, b)
    ensures PageOk(ram[..], r', [b] + free, live - {b})
    ensures SameOutside(old(ram[..]), ram[..], BlockAddr(r, b), BlockAddr(r, b) + BlockSize(r.Tag()))
  {
    hide NumBlocks, BlockSize, Beef, Distinct, Load32, SmallerSize, Guarded, Load16;
    ghost var m := ram[..];
    assert LiveBlockOk(m, r, b, live[b]);
    BlockInPage(r, b);
    var prpage := r.Addr();
    var offset := ptraddr - prpage;
    assert offset < PAGE_SIZE && offset % BlockSize(r.Tag()) == 0;
    LiveChecks(m, r, b, live[b]);
    var ok := CheckGuardBand(ram, ptraddr, SmallerSize(r.Tag()), BlockSize(r.Tag()));
    assert ok;
    assert ChainOk(m, r, free);
    HeadLink(m, r, free);
    FillDeadbeef(ram, ptraddr, BlockSize(r.Tag()));
    ghost var m1 := ram[..];
    var next := if r.offset == INVALID_OFFSET then 0 else prpage + r.offset;
    if |free| > 0 {
      BlockInPage(r, free[0]);
    }
    Store32(ram, ptraddr, next);
    ghost var m2 := ram[..];
    FilledThenLinked(m, m1, m2, ptraddr, BlockSize(r.Tag()));
    ChainSurvives(m, m2, r, free, b);
    var once := WalkChain(ram, r, ptraddr, free, b);
    assert once;
    r' := PageRef(r.pab, offset, r.nfree + 1);
    PushKeeps(m, m2, r, free, live, b);
  }

  lemma LiveChecks(m: seq<Byte>, r: PageRef, b: nat, cs: nat)
    requires RefOk(r, |m|) && b < NumBlocks(r.Tag()) && LiveBlockOk(m, r, b, cs)
    ensures BlockAddr(r, b) + BlockSize(r.Tag()) <= |m|
    ensures GuardCheck(m, BlockAddr(r, b), SmallerSize(r.Tag()), BlockSize(r.Tag()))
  {
    BlockInPage(r, b);
  }

  lemma FilledThenLinked(m: seq<Byte>, m1: seq<Byte>, m2: seq<Byte>, a: nat, size: nat)
    requires a + size <= |m| && 16 <= size
    requires SameOutside(m, m1, a, a + size) && SameOutside(m1, m2, a, a + 4)
    requires forall k | 0 <= k < size :: m1[a + k] == BeefByte(k)
    ensures SameOutside(m, m2, a, a + size) && Beef(m2, a, size)
  {
    forall k | 4 <= k < size
      ensures m2[a + k] == BeefByte(k)
    {
      assert m1[a + k] == m2[a + k];
    }
  }

  // ---------------------------------------------------------------- a fresh page

  // The chain of a fresh page runs from its last block down to its first.
  function Down(n: nat): (s: seq<nat>)
    ensures |s| == n
    ensures forall i | 0 <= i < n :: s[i] == n - 1 - i
  {
    seq(n, i requires 0 <= i < n => n - 1 - i)
  }

  // A page part way through initialisation: every block is 0xdeadbeef past its first word,
  // and blocks 0..i carry their links.
  predicate Linked(m: seq<Byte>, r: PageRef, i: nat)
    requires RefOk(r, |m|) && i <= NumBlocks(r.Tag())
  {
    && (forall b | 0 <= b < NumBlocks(r.Tag()) :: BeefAt(m, r, b))
    && (forall b | 0 <= b < i :: LinkAt(m, r, b))
  }

  predicate BeefAt(m: seq<Byte>, r: PageRef, b: nat)
    requires RefOk(r, |m|) && b < NumBlocks(r.Tag())
  {
    BlockInPage(r, b);
    Beef(m, BlockAddr(r, b), BlockSize(r.Tag()))
  }

  predicate LinkAt(m: seq<Byte>, r: PageRef, b: nat)
    requires RefOk(r, |m|) && b < NumBlocks(r.Tag())
  {
    BlockInPage(r, b);
    Load32(m, BlockAddr(r, b)) == if b == 0 then 0 else BlockAddr(r, b - 1)
  }

  lemma FreshPageOk(m: seq<Byte>, r: PageRef)
    requires RefOk(r, |m|) && r.nfree == NumBlocks(r.Tag())
    requires r.offset == (NumBlocks(r.Tag()) - 1) * BlockSize(r.Tag())
    requires Linked(m, r, NumBlocks(r.Tag()))
    ensures PageOk(m, r, Down(NumBlocks(r.Tag())), map[])
  {
    hide BlockSize, NumBlocks, PageRef.Addr, PageRef.Tag, Beef, BlockAddr, Load32;
    var n := NumBlocks(r.Tag());
    var free := Down(n);
    forall i | 0 <= i < |free|
      ensures FreeBlockOk(m, r, free, i)
    {
      assert BeefAt(m, r, n - 1 - i) && LinkAt(m, r, n - 1 - i);
    }
    forall b: nat
      ensures b in free <==> b < n
    {
      if b < n {
        assert free[n - 1 - b] == b;
      }
    }
  }

  // The whole page is 0xdeadbeef, so every block is.
  lemma FilledPage(m: seq<Byte>, r: PageRef)
    requires RefOk(r, |m|)
    requires forall k | 0 <= k < PAGE_SIZE :: m[r.Addr() + k] == BeefByte(k)
    ensures Linked(m, r, 0)
  {
    hide NumBlocks, PageRef.Addr, PageRef.Tag, BlockSize;
    forall b | 0 <= b < NumBlocks(r.Tag())
      ensures BeefAt(m, r, b)
    {
      BlockInPage(r, b);
      WordAligned(b, BlockSize(r.Tag()));
      FilledBlock(m, r.Addr(), b * BlockSize(r.Tag()), BlockSize(r.Tag()));
    }
  }

  lemma FilledBlock(m: seq<Byte>, page: nat, o: nat, size: nat)
    requires page + PAGE_SIZE <= |m| && o + size <= PAGE_SIZE && o % 4 == 0
    requires forall k | 0 <= k < PAGE_SIZE :: m[page + k] == BeefByte(k)
    ensures Beef(m, page + o, size)
  {
    forall k | 4 <= k < size
      ensures m[page + o + k] == BeefByte(k)
    {
      assert m[page + (o + k)] == BeefByte(o + k);
      assert (o + k) % 4 == k % 4;
    }
  }

  lemma WordAligned(b: nat, s: nat)
    requires s % 4 == 0
    ensures (b * s) % 4 == 0
  {
    MulAssoc(b, s / 4, 4);
    ModShift(0, 4, b * (s / 4));
  }

  // Writing a block's first word leaves every other link, and all the filler, as it was.
  lemma LinkKeeps(m: seq<Byte>, m': seq<Byte>, r: PageRef, i: nat)
    requires RefOk(r, |m|) && i < NumBlocks(r.Tag()) && Linked(m, r, i)
    requires SameOutside(m, m', BlockAddr(r, i), BlockAddr(r, i) + 4)
    requires LinkAt(m', r, i)
    ensures Linked(m', r, i + 1)
  {
    hide NumBlocks, PageRef.Addr, PageRef.Tag, BlockSize, BlockAddr, Load32;
    forall b | 0 <= b < NumBlocks(r.Tag())
      ensures BeefAt(m', r, b)
    {
      assert BeefAt(m, r, b);
      BlockInPage(r, b);
      BeefSurvives(m, m', r, i, b);
    }
    forall b | 0 <= b < i + 1
      ensures LinkAt(m', r, b)
    {
      if b < i {
        assert LinkAt(m, r, b);
        BlockInPage(r, b);
        BlocksApart(r, i, b);
        Load32Frame(m, m', BlockAddr(r, b));
      }
    }
  }

  lemma BeefSurvives(m: seq<Byte>, m': seq<Byte>, r: PageRef, i: nat, b: nat)
    requires RefOk(r, |m|) && i < NumBlocks(r.Tag()) && b < NumBlocks(r.Tag()) && BeefAt(m, r, b)
    requires SameOutside(m, m', BlockAddr(r, i), BlockAddr(r, i) + 4)
    ensures BeefAt(m', r, b)
  {
    hide NumBlocks, PageRef.Addr, PageRef.Tag, BlockSize, BlockAddr;
    BlockInPage(r, b);
    if b != i {
      BlocksApart(r, i, b);
    }
    forall k | 4 <= k < BlockSize(r.Tag())
      ensures m'[BlockAddr(r, b) + k] == BeefByte(k)
    {
      assert m[BlockAddr(r, b) + k] == m'[BlockAddr(r, b) + k];
    }
  }

  /**
   Turning a page from alloc_kpages into a page of blocks: fill it with 0xdeadbeef, then link
   the blocks from the first to the last.
   */
  method InitPage(ram: array<Byte>, page: nat, kind: Kind) returns (r: PageRef)
    requires page % PAGE_SIZE == 0 && PAGE_SIZE <= page && page + PAGE_SIZE <= ram.Length <= WORD_LIMIT
    modifies ram
    ensures SameOutside(old(ram[..]), ram[..], page, page + PAGE_SIZE)
    ensures r.Addr() == page && r.Tag() == kind
    ensures PageOk(ram[..], r, Down(NumBlocks(kind)), map[])
  {
    hide NumBlocks, SmallerSize, BlockSize, Linked, PageRef.Addr, PageRef.Tag, MkPab, PageOk, BlockAddr;
    FillDeadbeef(ram, page, PAGE_SIZE);
    PabRoundTrip(page, kind, 0, NumBlocks(kind));
    ghost var r0 := PageRef(MkPab(page, kind), 0, NumBlocks(kind));
    FilledPage(ram[..], r0);
    var fl := LinkAll(ram, page, kind, r0);
    NextAddr(r0, NumBlocks(kind) - 1);
    r := PageRef(MkPab(page, kind), fl - page, NumBlocks(kind));
    assert r.offset == (r.nfree - 1) * BlockSize(kind);
    Relink(ram[..], r0, r);
    FreshPageOk(ram[..], r);
  }

  // The linking loop; fl ends at the last block, which becomes the head of the chain.
  method LinkAll(ram: array<Byte>, page: nat, kind: Kind, ghost r: PageRef) returns (fl: nat)
    requires RefOk(r, ram.Length) && r.Addr() == page && r.Tag() == kind && Linked(ram[..], r, 0)
    modifies ram
    ensures SameOutside(old(ram[..]), ram[..], page, page + PAGE_SIZE)
    ensures Linked(ram[..], r, NumBlocks(kind)) && fl == BlockAddr(r, NumBlocks(kind) - 1)
  {
    hide NumBlocks, SmallerSize, BlockSize, Linked, PageRef.Addr, PageRef.Tag, BlockAddr;
    var nfree := NumBlocks(kind);
    StartAddr(r);
    fl := page;
    LinkBlock(ram, r, fl, 0, 0);
    var i := 1;
    while i < nfree
      invariant 1 <= i <= nfree == NumBlocks(kind)
      invariant SameOutside(old(ram[..]), ram[..], page, page + PAGE_SIZE)
      invariant Linked(ram[..], r, i)
      invariant fl == BlockAddr(r, i - 1)
    {
      NextAddr(r, i);
      fl := page + i * BlockSize(kind);
      LinkBlock(ram, r, fl, page + (i - 1) * BlockSize(kind), i);
      i := i + 1;
    }
  }

  lemma StartAddr(r: PageRef)
    requires r.Tag() < NSIZES
    ensures BlockAddr(r, 0) == r.Addr()
  {}

  lemma NextAddr(r: PageRef, i: nat)
    requires r.Tag() < NSIZES && i > 0
    ensures BlockAddr(r, i) == r.Addr() + i * BlockSize(r.Tag())
    ensures BlockAddr(r, i - 1) == r.Addr() + (i - 1) * BlockSize(r.Tag())
  {}

  lemma Relink(m: seq<Byte>, r: PageRef, r': PageRef)
    requires r.pab == r'.pab && RefOk(r, |m|) && Linked(m, r, NumBlocks(r.Tag()))
    ensures r.Addr() == r'.Addr() && r.Tag() == r'.Tag() && RefOk(r', |m|)
    ensures Linked(m, r', NumBlocks(r'.Tag()))
  {
    hide NumBlocks, BlockSize, Load32, Beef;
    forall b | 0 <= b < NumBlocks(r.Tag())
      ensures BeefAt(m, r', b) && LinkAt(m, r', b)
    {
      assert BeefAt(m, r, b) && LinkAt(m, r, b);
    }
  }

  // fl->next = next, for block i of a page being initialised.
  method LinkBlock(ram: array<Byte>, ghost r: PageRef, fl: nat, next: nat, ghost i: nat)
    requires RefOk(r, ram.Length) && i < NumBlocks(r.Tag()) && Linked(ram[..], r, i)
    requires fl == BlockAddr(r, i) && next == if i == 0 then 0 else BlockAddr(r, i - 1)
    modifies ram
    ensures SameOutside(old(ram[..]), ram[..], r.Addr(), r.Addr() + PAGE_SIZE)
    ensures Linked(ram[..], r, i + 1)
  {
    hide NumBlocks, PageRef.Addr, PageRef.Tag, BlockSize, BlockAddr, Load32, Linked;
    BlockInPage(r, i);
    if i > 0 {
      BlockInPage(r, i - 1);
    }
    ghost var m := ram[..];
    Store32(ram, fl, next);
    LinkKeeps(m, ram[..], r, i);
  }
}
