/**
 One page of the subpage allocator: blocks of one size, a free chain threaded
 through the first word of each free block, and a pageref describing it.
 */
module HeapPage {
  import opened Basics
  import opened Bits
  import opened HeapMemory

  const PAGE_SIZE := 4096
  const NSIZES := 8
  const SIZES: seq<nat> := [16, 32, 64, 128, 256, 512, 1024, 2048]
  const LARGEST_SUBPAGE_SIZE := 2048
  const INVALID_OFFSET := 0xffff

  type Kind = k: nat | k < NSIZES

  function BlockSize(k: Kind): (s: nat)
    ensures 16 <= s <= 2048 && s % 4 == 0
  {
    SIZES[k]
  }

  function NumBlocks(k: Kind): (n: nat)
    ensures 2 <= n <= 256
  {
    PAGE_SIZE / BlockSize(k)
  }

  // The block size of the next smaller class, for the guard check.
  function SmallerSize(k: Kind): nat {
    if k > 0 then SIZES[k - 1] else 0
  }

  lemma BlocksFillPage(k: Kind)
    ensures NumBlocks(k) * BlockSize(k) == PAGE_SIZE
  {}

  /**
   blocktype: the smallest class that fits. It panics (here: None) when none does.
   */
  method BlockType(sz: nat) returns (r: Option<Kind>)
    ensures r.None? <==> sz > LARGEST_SUBPAGE_SIZE
    ensures r.Some? ==> sz <= BlockSize(r.value)
    ensures r.Some? ==> forall k: Kind | sz <= BlockSize(k) :: r.value <= k
    ensures r.Some? && sz > 0 ==> SmallerSize(r.value) < sz
  {
    var i := 0;
    while i < NSIZES
      invariant 0 <= i <= NSIZES
      invariant forall k: Kind | k < i :: SIZES[k] < sz
    {
      if sz <= SIZES[i] {
        return Some(i);
      }
      i := i + 1;
    }
    assert SIZES[NSIZES - 1] < sz;
    return None;
  }

  // struct pageref, without its two list links: the page address and the block type share a word.
  datatype PageRef = PageRef(pab: nat, offset: nat, nfree: nat) {
    function Addr(): nat {
      pab - pab % PAGE_SIZE
    }
    function Tag(): nat {
      pab % PAGE_SIZE
    }
  }

  function MkPab(pa: nat, kind: nat): nat {
    (pa - pa % PAGE_SIZE) + kind % PAGE_SIZE
  }

  lemma PabRoundTrip(pa: nat, kind: Kind, offset: nat, nfree: nat)
    requires pa % PAGE_SIZE == 0
    ensures PageRef(MkPab(pa, kind), offset, nfree).Addr() == pa
    ensures PageRef(MkPab(pa, kind), offset, nfree).Tag() == kind
  {}

  // The pageref names a page that lies inside memory.
  predicate RefOk(r: PageRef, top: nat) {
    r.Tag() < NSIZES && PAGE_SIZE <= r.Addr() && r.Addr() + PAGE_SIZE <= top <= WORD_LIMIT
  }

  function BlockAddr(r: PageRef, b: nat): nat
    requires r.Tag() < NSIZES
  {
    r.Addr() + b * BlockSize(r.Tag())
  }

  lemma BlockInPage(r: PageRef, b: nat)
    requires r.Tag() < NSIZES && b < NumBlocks(r.Tag())
    ensures r.Addr() <= BlockAddr(r, b) && BlockAddr(r, b) + BlockSize(r.Tag()) <= r.Addr() + PAGE_SIZE
    ensures b * BlockSize(r.Tag()) < PAGE_SIZE && (b * BlockSize(r.Tag())) % BlockSize(r.Tag()) == 0
  {
    hide BlockSize, NumBlocks, PageRef.Addr, PageRef.Tag;
    var s, n := BlockSize(r.Tag()), NumBlocks(r.Tag());
    BlocksFillPage(r.Tag());
    ScaleBlocks(b, n, s);
  }

  lemma ScaleBlocks(b: nat, n: nat, s: nat)
    requires b < n && s > 0
    ensures 0 <= b * s && b * s + s <= n * s && (b * s) % s == 0
  {
    MulMono(b + 1, n, s);
    MulDist(b, 1, s);
    MulPos(b, s);
    ModShift(0, s, b);
    SmallMod(0, s);
  }

  // Different blocks of a page do not overlap.
  lemma BlocksApart(r: PageRef, b: nat, c: nat)
    requires r.Tag() < NSIZES && b != c
    ensures BlockAddr(r, b) + BlockSize(r.Tag()) <= BlockAddr(r, c)
            || BlockAddr(r, c) + BlockSize(r.Tag()) <= BlockAddr(r, b)
  {
    hide BlockSize, PageRef.Addr, PageRef.Tag;
    var s := BlockSize(r.Tag());
    if b < c {
      ScaleBlocks(b, c, s);
    } else {
      ScaleBlocks(c, b, s);
    }
  }

  // The chain holds block numbers, each at most once.
  predicate ChainShape(k: Kind, free: seq<nat>) {
    Distinct(free) && forall i | 0 <= i < |free| :: free[i] < NumBlocks(k)
  }

  // The link stored in the first word of the i-th block of the chain.
  function NextLink(r: PageRef, free: seq<nat>, i: nat): nat
    requires r.Tag() < NSIZES && i < |free|
  {
    if i + 1 < |free| then BlockAddr(r, free[i + 1]) else 0
  }

  function HeadOffset(r: PageRef, free: seq<nat>): nat
    requires r.Tag() < NSIZES
  {
    if |free| == 0 then INVALID_OFFSET else free[0] * BlockSize(r.Tag())
  }

  // A block of the chain, as memory holds it.
  predicate FreeBlockOk(m: seq<Byte>, r: PageRef, free: seq<nat>, i: nat)
    requires RefOk(r, |m|) && ChainShape(r.Tag(), free) && i < |free|
  {
    BlockInPage(r, free[i]);
    && Load32(m, BlockAddr(r, free[i])) == NextLink(r, free, i)
    && Beef(m, BlockAddr(r, free[i]), BlockSize(r.Tag()))
  }

  // A live block of clientsize bytes (label included), as memory holds it.
  predicate LiveBlockOk(m: seq<Byte>, r: PageRef, b: nat, clientsize: nat)
    requires RefOk(r, |m|) && b < NumBlocks(r.Tag())
  {
    BlockInPage(r, b);
    && SmallerSize(r.Tag()) < clientsize + GUARD_OVERHEAD <= BlockSize(r.Tag())
    && Guarded(m, BlockAddr(r, b), clientsize, BlockSize(r.Tag()))
  }

  // Every block is in the chain or live, never both.
  ghost predicate Partition(k: Kind, free: seq<nat>, live: map<nat, nat>) {
    forall b: nat :: b in live <==> b < NumBlocks(k) && b !in free
  }

  /**
   The page invariant: the pageref's count and offset agree with the chain in memory, the
   chain is acyclic and made of whole free blocks, and every other block is live and guarded.
   */
  ghost predicate PageOk(m: seq<Byte>, r: PageRef, free: seq<nat>, live: map<nat, nat>) {
    && RefOk(r, |m|)
    && ChainShape(r.Tag(), free)
    && r.nfree == |free| && r.offset == HeadOffset(r, free)
    && Partition(r.Tag(), free, live)
    && (forall i | 0 <= i < |free| :: FreeBlockOk(m, r, free, i))
    && (forall b: nat | b in live :: LiveBlockOk(m, r, b, live[b]))
  }

  // Free and live blocks together are all the blocks of the page.
  lemma BlockCount(m: seq<Byte>, r: PageRef, free: seq<nat>, live: map<nat, nat>)
    requires PageOk(m, r, free, live)
    ensures |free| + |live| == NumBlocks(r.Tag())
  {
    PartitionCount(r.Tag(), free, live);
  }

  lemma PartitionCount(k: Kind, free: seq<nat>, live: map<nat, nat>)
    requires ChainShape(k, free) && Partition(k, free, live)
    ensures |free| + |live| == NumBlocks(k)
  {
    hide NumBlocks, Distinct;
    var n, f, l := NumBlocks(k), Elements(free), live.Keys;
    SeqAsSet(free);
    RangeSize(n);
    assert f !! l;
    assert f + l == Range(n);
  }

  function Elements(s: seq<nat>): set<nat> {
    set b | b in s
  }

  lemma {:induction false} SeqAsSet(s: seq<nat>)
    requires Distinct(s)
    ensures |Elements(s)| == |s|
  {
    if |s| > 0 {
      var t, x := s[..|s| - 1], s[|s| - 1];
      SeqAsSet(t);
      assert s == t + [x];
      assert Elements(s) == Elements(t) + {x};
      assert x !in t;
    }
  }

  ghost function Range(n: nat): set<nat> {
    if n == 0 then {} else Range(n - 1) + {n - 1}
  }

  lemma {:induction false} RangeSize(n: nat)
    ensures |Range(n)| == n
    ensures forall b: nat :: b in Range(n) <==> b < n
  {
    if n > 0 {
      RangeSize(n - 1);
    }
  }

  // A page is untouched by writes elsewhere.
  lemma PageFrame(m: seq<Byte>, m': seq<Byte>, r: PageRef, free: seq<nat>, live: map<nat, nat>)
    requires PageOk(m, r, free, live) && |m| == |m'|
    requires SameInside(m, m', r.Addr(), r.Addr() + PAGE_SIZE)
    ensures PageOk(m', r, free, live)
  {
    hide BlockAddr, BlockSize, NumBlocks, PageRef.Addr, PageRef.Tag, SmallerSize;
    forall i | 0 <= i < |free|
      ensures FreeBlockOk(m', r, free, i)
    {
      assert FreeBlockOk(m, r, free, i);
      FreeBlockFrame(m, m', r, free, i);
    }
    forall b: nat | b in live
      ensures LiveBlockOk(m', r, b, live[b])
    {
      assert LiveBlockOk(m, r, b, live[b]);
      LiveBlockFrame(m, m', r, b, live[b]);
    }
  }

  lemma FreeBlockFrame(m: seq<Byte>, m': seq<Byte>, r: PageRef, free: seq<nat>, i: nat)
    requires RefOk(r, |m|) && |m| == |m'| && ChainShape(r.Tag(), free) && i < |free|
    requires FreeBlockOk(m, r, free, i)
    requires SameInside(m, m', BlockAddr(r, free[i]), BlockAddr(r, free[i]) + BlockSize(r.Tag()))
          || SameInside(m, m', r.Addr(), r.Addr() + PAGE_SIZE)
    ensures FreeBlockOk(m', r, free, i)
  {
    hide BlockAddr, PageRef.Addr, PageRef.Tag;
    BlockInPage(r, free[i]);
    BeefFrame(m, m', BlockAddr(r, free[i]), BlockSize(r.Tag()));
  }

  lemma LiveBlockFrame(m: seq<Byte>, m': seq<Byte>, r: PageRef, b: nat, clientsize: nat)
    requires RefOk(r, |m|) && |m| == |m'| && b < NumBlocks(r.Tag())
    requires LiveBlockOk(m, r, b, clientsize)
    requires SameInside(m, m', BlockAddr(r, b), BlockAddr(r, b) + BlockSize(r.Tag()))
          || SameInside(m, m', r.Addr(), r.Addr() + PAGE_SIZE)
    ensures LiveBlockOk(m', r, b, clientsize)
  {
    hide BlockAddr, PageRef.Addr, PageRef.Tag, SmallerSize, BlockSize;
    BlockInPage(r, b);
    GuardedFrame(m, m', BlockAddr(r, b), clientsize, BlockSize(r.Tag()));
  }
}
