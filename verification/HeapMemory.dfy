/**
 Kernel memory as bytes, and the guard bands that kmalloc puts around every
 block it hands out.
 */
module HeapMemory {
  type Byte = x: int | 0 <= x < 256

  const WORD_LIMIT := 0x1_0000_0000

  const GUARD_RETBYTE: Byte := 0xa9
  const GUARD_FILLBYTE: Byte := 0xba
  const GUARD_HALFWORD := 0xb0b0
  const GUARD_OVERHEAD := 8
  const GUARD_PTROFFSET := 4
  const LABEL_PTROFFSET := 8

  // Big-endian loads.
  function Load16(m: seq<Byte>, a: nat): nat
    requires a + 2 <= |m|
  {
    (m[a] as int) * 256 + m[a + 1] as int
  }

  function Load32(m: seq<Byte>, a: nat): nat
    requires a + 4 <= |m|
  {
    Load16(m, a) * 0x1_0000 + Load16(m, a + 2)
  }

  // The byte at position k of a block filled with 0xdeadbeef words.
  function BeefByte(k: nat): Byte {
    if k % 4 == 0 then 0xde else if k % 4 == 1 then 0xad else if k % 4 == 2 then 0xbe else 0xef
  }

  // A free block keeps 0xdeadbeef in every word but the first, which is the chain link.
  predicate Beef(m: seq<Byte>, block: nat, size: nat)
    requires block + size <= |m|
  {
    forall k | 4 <= k < size :: m[block + k] == BeefByte(k)
  }

  // Two memories that differ at most inside [lo, hi).
  predicate SameOutside(m: seq<Byte>, m': seq<Byte>, lo: nat, hi: nat) {
    |m| == |m'| && forall i | 0 <= i < |m| && !(lo <= i < hi) :: m[i] == m'[i]
  }

  predicate SameInside(m: seq<Byte>, m': seq<Byte>, lo: nat, hi: nat) {
    hi <= |m| && hi <= |m'| && forall i | lo <= i < hi :: m[i] == m'[i]
  }

  // What a live block looks like: guard and size at both ends, fill bytes after the client's data.
  predicate Guarded(m: seq<Byte>, block: nat, clientsize: nat, size: nat)
    requires clientsize + GUARD_OVERHEAD <= size && block + size <= |m|
  {
    && Load16(m, block) == GUARD_HALFWORD
    && Load16(m, block + 2) == clientsize
    && Load16(m, block + size - 4) == GUARD_HALFWORD
    && Load16(m, block + size - 2) == clientsize
    && forall i | block + 4 + clientsize <= i < block + size - 4 :: m[i] == GUARD_FILLBYTE
  }

  // Loads and blocks depend only on the bytes they cover.
  lemma Load32Frame(m: seq<Byte>, m': seq<Byte>, a: nat)
    requires SameInside(m, m', a, a + 4)
    ensures Load32(m, a) == Load32(m', a)
  {}

  lemma GuardedFrame(m: seq<Byte>, m': seq<Byte>, block: nat, clientsize: nat, size: nat)
    requires clientsize + GUARD_OVERHEAD <= size && SameInside(m, m', block, block + size)
    requires Guarded(m, block, clientsize, size)
    ensures Guarded(m', block, clientsize, size)
  {}

  lemma BeefFrame(m: seq<Byte>, m': seq<Byte>, block: nat, size: nat)
    requires SameInside(m, m', block, block + size) && Beef(m, block, size)
    ensures Beef(m', block, size)
  {
    forall k | 4 <= k < size
      ensures m'[block + k] == BeefByte(k)
    {
      assert m[block + k] == m'[block + k];
    }
  }

  // A client that stays inside the bytes it was given leaves the guards alone.
  lemma ClientWriteKeepsGuards(m: seq<Byte>, block: nat, clientsize: nat, size: nat, i: nat, x: Byte)
    requires clientsize + GUARD_OVERHEAD <= size && block + size <= |m|
    requires Guarded(m, block, clientsize, size)
    requires block + 4 <= i < block + 4 + clientsize
    ensures Guarded(m[i := x], block, clientsize, size)
  {}

  method Store16(ram: array<Byte>, a: nat, x: nat)
    requires a + 2 <= ram.Length && x < 0x1_0000
    modifies ram
    ensures Load16(ram[..], a) == x
    ensures SameOutside(old(ram[..]), ram[..], a, a + 2)
  {
    ram[a] := x / 256;
    ram[a + 1] := x % 256;
  }

  method Store32(ram: array<Byte>, a: nat, x: nat)
    requires a + 4 <= ram.Length && x < WORD_LIMIT
    modifies ram
    ensures Load32(ram[..], a) == x
    ensures SameOutside(old(ram[..]), ram[..], a, a + 4)
  {
    Store16(ram, a, x / 0x1_0000);
    ghost var m := ram[..];
    Store16(ram, a + 2, x % 0x1_0000);
    assert Load16(ram[..], a) == Load16(m, a);
  }

  // fill_deadbeef: the whole block, a word at a time.
  method FillDeadbeef(ram: array<Byte>, a: nat, len: nat)
    requires a + len <= ram.Length && len % 4 == 0
    modifies ram
    ensures SameOutside(old(ram[..]), ram[..], a, a + len)
    ensures forall k | 0 <= k < len :: ram[a + k] == BeefByte(k)
  {
    var i := 0;
    while i < len / 4
      invariant 0 <= i <= len / 4
      invariant forall k | 0 <= k < ram.Length && !(a <= k < a + 4 * i) :: ram[k] == old(ram[k])
      invariant forall k | 0 <= k < 4 * i :: ram[a + k] == BeefByte(k)
    {
      ram[a + 4 * i], ram[a + 4 * i + 1], ram[a + 4 * i + 2], ram[a + 4 * i + 3] := 0xde, 0xad, 0xbe, 0xef;
      i := i + 1;
    }
  }

  // The two fill loops of establishguardband.
  method FillBytes(ram: array<Byte>, lo: nat, hi: nat, x: Byte)
    requires lo <= hi <= ram.Length
    modifies ram
    ensures SameOutside(old(ram[..]), ram[..], lo, hi)
    ensures forall i | lo <= i < hi :: ram[i] == x
  {
    var i := lo;
    while i < hi
      invariant lo <= i <= hi
      invariant forall k | 0 <= k < ram.Length && !(lo <= k < i) :: ram[k] == old(ram[k])
      invariant forall k | lo <= k < i :: ram[k] == x
    {
      ram[i] := x;
      i := i + 1;
    }
  }

  /**
   establishguardband: returns the address of the client data, four bytes into the block.
   */
  method EstablishGuardBand(ram: array<Byte>, block: nat, clientsize: nat, size: nat) returns (data: nat)
    requires clientsize + GUARD_OVERHEAD <= size && clientsize < 0x1_0000 && block + size <= ram.Length
    modifies ram
    ensures data == block + GUARD_PTROFFSET
    ensures SameOutside(old(ram[..]), ram[..], block, block + size)
    ensures Guarded(ram[..], block, clientsize, size)
    ensures forall i | data <= i < data + clientsize :: ram[i] == GUARD_RETBYTE
  {
    var lowguard := block;
    var lowsize := lowguard + 2;
    data := lowsize + 2;
    var enddata := data + clientsize;
    var highguard := lowguard + size - 4;
    var highsize := highguard + 2;
    ghost var m0 := ram[..];
    Store16(ram, lowguard, GUARD_HALFWORD);
    Store16(ram, lowsize, clientsize);
    ghost var m1 := ram[..];
    assert SameOutside(m0, m1, block, block + 4);
    FillBytes(ram, data, enddata, GUARD_RETBYTE);
    FillBytes(ram, enddata, highguard, GUARD_FILLBYTE);
    ghost var m2 := ram[..];
    assert SameOutside(m1, m2, data, highguard);
    Store16(ram, highguard, GUARD_HALFWORD);
    Store16(ram, highsize, clientsize);
    ghost var m3 := ram[..];
    assert SameOutside(m2, m3, highguard, block + size);
  }

  // establishlabel: the label and the generation go at the front of the client data.
  method EstablishLabel(ram: array<Byte>, data: nat, site: nat, generation: nat) returns (ptr: nat)
    requires data + LABEL_PTROFFSET <= ram.Length && site < WORD_LIMIT && generation < WORD_LIMIT
    modifies ram
    ensures ptr == data + LABEL_PTROFFSET
    ensures SameOutside(old(ram[..]), ram[..], data, data + LABEL_PTROFFSET)
    ensures Load32(ram[..], data) == site && Load32(ram[..], data + 4) == generation
  {
    Store32(ram, data, site);
    ghost var m := ram[..];
    Store32(ram, data + 4, generation);
    Load32Frame(m, ram[..], data);
    ptr := data + LABEL_PTROFFSET;
  }

  // The assertions of checkguardband: the block carries its own size, in range, at both ends.
  predicate GuardCheck(m: seq<Byte>, block: nat, smaller: nat, size: nat)
    requires GUARD_OVERHEAD <= size && block + size <= |m|
  {
    var clientsize := Load16(m, block + 2);
    smaller < clientsize + GUARD_OVERHEAD <= size && Guarded(m, block, clientsize, size)
  }

  // checkguardband: true exactly when none of its assertions would fire.
  method CheckGuardBand(ram: array<Byte>, block: nat, smaller: nat, size: nat) returns (ok: bool)
    requires GUARD_OVERHEAD <= size && block + size <= ram.Length
    ensures ok <==> GuardCheck(ram[..], block, smaller, size)
  {
    var lowguard := block;
    var lowsize := lowguard + 2;
    var data := lowsize + 2;
    var highguard := block + size - 4;
    var highsize := highguard + 2;
    var m := ram[..];
    if Load16(m, lowguard) != GUARD_HALFWORD || Load16(m, highguard) != GUARD_HALFWORD {
      return false;
    }
    var clientsize := Load16(m, lowsize);
    if clientsize != Load16(m, highsize) {
      return false;
    }
    if clientsize + GUARD_OVERHEAD <= smaller || clientsize + GUARD_OVERHEAD > size {
      return false;
    }
    var enddata := data + clientsize;
    var i := enddata;
    while i < highguard
      invariant enddata <= i <= highguard
      invariant forall k | enddata <= k < i :: m[k] == GUARD_FILLBYTE
    {
      if m[i] != GUARD_FILLBYTE {
        return false;
      }
      i := i + 1;
    }
    return true;
  }
}
