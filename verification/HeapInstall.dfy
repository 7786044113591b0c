/**
 A page from alloc_kpages can always be made a heap page and its first block handed
 out: the steps of the heap that install a page are never blocked.
 */
module HeapInstall {
  import opened Basics
  import opened HeapMemory
  import opened HeapPage
  import opened HeapBlocks
  import opened Heap

  // ---------------------------------------------------------------- memory as a value

  function Put16(m: seq<Byte>, a: nat, x: nat): (m': seq<Byte>)
    requires a + 2 <= |m| && x < 0x1_0000
    ensures SameOutside(m, m', a, a + 2) && Load16(m', a) == x
  {
    m[a := x / 256][a + 1 := x % 256]
  }

  function Put32(m: seq<Byte>, a: nat, x: nat): (m': seq<Byte>)
    requires a + 4 <= |m| && x < WORD_LIMIT
    ensures SameOutside(m, m', a, a + 4) && Load32(m', a) == x
  {
    var m1 := Put16(m, a, x / 0x1_0000);
    var m2 := Put16(m1, a + 2, x % 0x1_0000);
    assert Load16(m2, a) == Load16(m1, a);
    m2
  }

  function Filled(m: seq<Byte>, page: nat): (m': seq<Byte>)
    requires page + PAGE_SIZE <= |m|
    ensures SameOutside(m, m', page, page + PAGE_SIZE)
    ensures forall k | 0 <= k < PAGE_SIZE :: m'[page + k] == BeefByte(k)
  {
    seq<Byte>(|m|, i requires 0 <= i < |m| => FilledAt(m, page, i))
  }

  function FilledAt(m: seq<Byte>, page: nat, i: nat): Byte
    requires i < |m|
  {
    if page <= i < page + PAGE_SIZE then BeefByte(i - page) else m[i]
  }

  function GuardByte(k: nat, cs: nat, size: nat): Byte
    requires cs + GUARD_OVERHEAD <= size && cs < 0x1_0000 && k < size
  {
    if k < 4 then HeadByte(k, cs)
    else if k >= size - 4 then HeadByte(k - (size - 4), cs)
    else if k < 4 + cs then GUARD_RETBYTE else GUARD_FILLBYTE
  }

  // A guard halfword followed by the size.
  function HeadByte(k: nat, cs: nat): Byte
    requires k < 4 && cs < 0x1_0000
  {
    if k == 0 then GUARD_HALFWORD / 256
    else if k == 1 then GUARD_HALFWORD % 256
    else if k == 2 then cs / 256
    else cs % 256
  }

  function WithGuards(m: seq<Byte>, block: nat, cs: nat, size: nat): (m': seq<Byte>)
    requires cs + GUARD_OVERHEAD <= size && cs < 0x1_0000 && block + size <= |m|
    ensures SameOutside(m, m', block, block + size)
    ensures forall i | block <= i < block + size :: m'[i] == GuardByte(i - block, cs, size)
  {
    seq<Byte>(|m|, i requires 0 <= i < |m| => GuardAt(m, block, cs, size, i))
  }

  function GuardAt(m: seq<Byte>, block: nat, cs: nat, size: nat, i: nat): Byte
    requires cs + GUARD_OVERHEAD <= size && cs < 0x1_0000 && i < |m|
  {
    if block <= i < block + size then GuardByte(i - block, cs, size) else m[i]
  }

  lemma GuardsThere(m: seq<Byte>, block: nat, cs: nat, size: nat)
    requires cs + GUARD_OVERHEAD <= size && cs < 0x1_0000 && block + size <= |m|
    requires forall i | block <= i < block + size :: m[i] == GuardByte(i - block, cs, size)
    ensures Guarded(m, block, cs, size)
  {}

  // The page filled with 0xdeadbeef, and its first i blocks linked.
  ghost function Chained(m: seq<Byte>, r: PageRef, i: nat): (m': seq<Byte>)
    requires RefOk(r, |m|) && i <= NumBlocks(r.Tag())
    ensures SameOutside(m, m', r.Addr(), r.Addr() + PAGE_SIZE) && Linked(m', r, i)
  {
    hide NumBlocks, BlockSize, PageRef.Addr, PageRef.Tag, Linked;
    if i == 0 then
      var m' := Filled(m, r.Addr());
      FilledPage(m', r);
      m'
    else
      var m1 := Chained(m, r, i - 1);
      ChainNext(m1, r, i - 1);
      Put32(m1, BlockAddr(r, i - 1), if i == 1 then 0 else BlockAddr(r, i - 2))
  }

  lemma ChainNext(m: seq<Byte>, r: PageRef, i: nat)
    requires RefOk(r, |m|) && i < NumBlocks(r.Tag()) && Linked(m, r, i)
    ensures r.Addr() <= BlockAddr(r, i) && BlockAddr(r, i) + 4 <= r.Addr() + PAGE_SIZE
    ensures i > 0 ==> BlockAddr(r, i - 1) < WORD_LIMIT
    ensures Linked(Put32(m, BlockAddr(r, i), if i == 0 then 0 else BlockAddr(r, i - 1)), r, i + 1)
  {
    hide NumBlocks, BlockSize, PageRef.Addr, PageRef.Tag, Linked, Put32;
    BlockInPage(r, i);
    if i > 0 {
      BlockInPage(r, i - 1);
    }
    var m' := Put32(m, BlockAddr(r, i), if i == 0 then 0 else BlockAddr(r, i - 1));
    LinkKeeps(m, m', r, i);
  }

  // ---------------------------------------------------------------- installing

  /**
   Whatever the heap, a number not in use and a page that is no heap page's can be joined to it,
   and the new page's last block handed out at once.
   */
  lemma CanInstall(h: Heap, ref: nat, page: nat, kind: Kind, cs: nat) returns (mid: Heap, h': Heap)
    requires |h.sizes| == NSIZES && ref !in h.refs && forall q: nat | q in h.refs :: h.refs[q].Addr() != page
    requires page % PAGE_SIZE == 0 && PAGE_SIZE <= page && page + PAGE_SIZE <= |h.mem| <= WORD_LIMIT
    requires SmallerSize(kind) < cs + GUARD_OVERHEAD <= BlockSize(kind)
    ensures NewPageStep(h, mid, ref, page, kind) && AllocStep(mid, h', ref, cs)
    ensures mid.free[ref][0] == NumBlocks(kind) - 1
  {
    hide NumBlocks, BlockSize, PageRef.Addr, PageRef.Tag, SmallerSize, PageOk;
    mid := CanJoin(h, ref, page, kind);
    var n := NumBlocks(kind);
    HeadCount(mid.mem, mid.refs[ref], Down(n));
    h' := HandOut(mid, ref, cs);
  }

  lemma HeadCount(m: seq<Byte>, r: PageRef, free: seq<nat>)
    requires PageOk(m, r, free, map[])
    ensures r.nfree == |free|
  {}

  lemma FreshPage(mem: seq<Byte>, page: nat, kind: Kind) returns (m: seq<Byte>, r: PageRef)
    requires page % PAGE_SIZE == 0 && PAGE_SIZE <= page && page + PAGE_SIZE <= |mem| <= WORD_LIMIT
    ensures SameOutside(mem, m, page, page + PAGE_SIZE) && r.Addr() == page && r.Tag() == kind
    ensures PageOk(m, r, Down(NumBlocks(kind)), map[])
  {
    hide NumBlocks, BlockSize, PageRef.Addr, PageRef.Tag, PageOk, MkPab, Linked, Chained, Down, BlockAddr, Load32;
    var n := NumBlocks(kind);
    var offset := LastOffset(kind);
    r := PageRef(MkPab(page, kind), offset, n);
    PabRoundTrip(page, kind, offset, n);
    m := Chained(mem, r, n);
    FreshPageOk(m, r);
  }

  function LastOffset(kind: Kind): (o: nat)
    ensures o == (NumBlocks(kind) - 1) * BlockSize(kind)
  {
    (NumBlocks(kind) - 1) * BlockSize(kind)
  }

  lemma CanJoin(h: Heap, ref: nat, page: nat, kind: Kind) returns (h': Heap)
    requires |h.sizes| == NSIZES && ref !in h.refs && forall q: nat | q in h.refs :: h.refs[q].Addr() != page
    requires page % PAGE_SIZE == 0 && PAGE_SIZE <= page && page + PAGE_SIZE <= |h.mem| <= WORD_LIMIT
    ensures NewPageStep(h, h', ref, page, kind)
  {
    hide NumBlocks, BlockSize, PageRef.Addr, PageRef.Tag, PageOk, Down;
    var n := NumBlocks(kind);
    var m, r := FreshPage(h.mem, page, kind);
    h' := h.(mem := m, refs := h.refs[ref := r], free := h.free[ref := Down(n)], live := h.live[ref := map[]],
             all := [ref] + h.all, sizes := h.sizes[kind := [ref] + h.sizes[kind]]);
  }

  lemma HandOut(h: Heap, p: nat, cs: nat) returns (h': Heap)
    requires p in h.refs && p in h.free && p in h.live && PageOk(h.mem, h.refs[p], h.free[p], h.live[p])
    requires |h.free[p]| > 0
    requires SmallerSize(h.refs[p].Tag()) < cs + GUARD_OVERHEAD <= BlockSize(h.refs[p].Tag())
    ensures AllocStep(h, h', p, cs)
  {
    hide NumBlocks, BlockSize, PageRef.Addr, PageRef.Tag, SmallerSize, Guarded, FreeBlockOk, LiveBlockOk, Distinct,
         HeadOffset;
    var r, free := h.refs[p], h.free[p];
    BlockInPage(r, free[0]);
    assert cs < 0x1_0000;
    hide GuardByte;
    var m := WithGuards(h.mem, BlockAddr(r, free[0]), cs, BlockSize(r.Tag()));
    GuardsThere(m, BlockAddr(r, free[0]), cs, BlockSize(r.Tag()));
    h' := WithPage(h, m, p, PopRef(r, free), free[1..], h.live[p][free[0] := cs]);
  }
}
