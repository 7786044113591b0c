/**
 The pageref pool of kmalloc: sixteen roots, each a page of 256 pagerefs and a
 bitmap of the ones in use.
 */
module PageRefs {
  import opened Basics
  import opened Bits
  import opened HeapPage

  const NUM_PAGEREFPAGES := 16
  const NPAGEREFS_PER_PAGE := 256
  const TOTAL_PAGEREFS := NUM_PAGEREFPAGES * NPAGEREFS_PER_PAGE
  const INUSE_WORDS := 8
  const SIZEOF_PAGEREF := 16
  const FULL_WORD := 0xffff_ffff

  // ---------------------------------------------------------------- bits of a word

  predicate TestBit(w: nat, j: nat) {
    if j == 0 then w % 2 == 1 else TestBit(w / 2, j - 1)
  }

  lemma {:induction false} TestOr(x: nat, y: nat, j: nat)
    ensures TestBit(BitOr(x, y), j) <==> TestBit(x, j) || TestBit(y, j)
  {
    if x == 0 && y == 0 {
      TestZero(j);
    } else if j > 0 {
      TestOr(x / 2, y / 2, j - 1);
    }
  }

  lemma {:induction false} TestAnd(x: nat, y: nat, j: nat)
    ensures TestBit(BitAnd(x, y), j) <==> TestBit(x, j) && TestBit(y, j)
  {
    if x == 0 || y == 0 {
      TestZero(j);
    } else if j > 0 {
      TestAnd(x / 2, y / 2, j - 1);
    }
  }

  lemma {:induction false} TestZero(j: nat)
    ensures !TestBit(0, j)
  {
    if j > 0 {
      TestZero(j - 1);
    }
  }

  // A single set bit, as the loop's k = 1 << j.
  lemma {:induction false} TestPow(j: nat, i: nat)
    ensures TestBit(Base(j), i) <==> i == j
  {
    if j == 0 {
      if i > 0 {
        TestZero(i - 1);
      }
    } else {
      assert Base(j) == 2 * Base(j - 1);
      if i > 0 {
        TestPow(j - 1, i - 1);
      }
    }
  }

  // The source's test (word & k) == 0.
  lemma {:induction false} AndPow(w: nat, j: nat)
    ensures BitAnd(w, Base(j)) == 0 <==> !TestBit(w, j)
  {
    TestAnd(w, Base(j), j);
    TestPow(j, j);
    if BitAnd(w, Base(j)) == 0 {
      TestZero(j);
    } else {
      var i := SomeBit(BitAnd(w, Base(j)));
      TestAnd(w, Base(j), i);
      TestPow(j, i);
    }
  }

  lemma {:induction false} SomeBit(w: nat) returns (i: nat)
    requires w > 0
    ensures TestBit(w, i)
  {
    if w % 2 == 1 {
      i := 0;
    } else {
      i := SomeBit(w / 2);
      i := i + 1;
    }
  }

  // A word that is not all ones has a clear bit among its n bits.
  lemma {:induction false} ClearBit(w: nat, n: nat) returns (j: nat)
    requires w < Base(n) - 1
    ensures j < n && !TestBit(w, j)
  {
    assert Base(n) == 2 * Base(n - 1);
    if w % 2 == 0 {
      j := 0;
    } else {
      j := ClearBit(w / 2, n - 1);
      j := j + 1;
    }
  }

  // The complement ~k of a single bit, within n bits.
  lemma {:induction false} TestComplement(n: nat, j: nat, i: nat)
    requires j < n
    ensures Base(j) < Base(n)
    ensures TestBit(Base(n) - 1 - Base(j), i) <==> i < n && i != j
  {
    assert Base(n) == 2 * Base(n - 1);
    if j == 0 {
      if i > 0 {
        assert (Base(n) - 2) / 2 == Base(n - 1) - 1;
        TestOnes(n - 1, i - 1);
      }
    } else {
      assert Base(j) == 2 * Base(j - 1);
      TestComplement(n - 1, j - 1, if i > 0 then i - 1 else 0);
      if i > 0 {
        assert (Base(n) - 1 - Base(j)) / 2 == Base(n - 1) - 1 - Base(j - 1);
      }
    }
  }

  lemma {:induction false} TestOnes(n: nat, i: nat)
    ensures TestBit(Base(n) - 1, i) <==> i < n
  {
    if n == 0 {
      TestZero(i);
    } else {
      assert Base(n) == 2 * Base(n - 1);
      if i > 0 {
        TestOnes(n - 1, i - 1);
      }
    }
  }

  lemma {:induction false} OrBound(x: nat, y: nat, n: nat)
    requires x < Base(n) && y < Base(n)
    ensures BitOr(x, y) < Base(n)
  {
    if n > 0 {
      assert Base(n) == 2 * Base(n - 1);
      OrBound(x / 2, y / 2, n - 1);
    }
  }

  lemma {:induction false} AndBound(x: nat, y: nat)
    ensures BitAnd(x, y) <= x
  {
    if x > 0 && y > 0 {
      AndBound(x / 2, y / 2);
    }
  }

  // ---------------------------------------------------------------- the roots

  // struct kheap_root: the page (0 is NULL), the bitmap words and their count.
  datatype Root = Root(page: nat, words: seq<nat>, num: nat)

  // Number j is in use when bit j % 32 of word j / 32 is set.
  predicate InUse(words: seq<nat>, j: nat)
    requires |words| == INUSE_WORDS
  {
    j < NPAGEREFS_PER_PAGE && TestBit(words[j / 32], j % 32)
  }

  function Used(words: seq<nat>): set<nat>
    requires |words| == INUSE_WORDS
  {
    set j: nat | j < NPAGEREFS_PER_PAGE && InUse(words, j)
  }

  predicate RootOk(r: Root) {
    && |r.words| == INUSE_WORDS && (forall i | 0 <= i < INUSE_WORDS :: r.words[i] < Base(32))
    && r.num == |Used(r.words)|
  }

  // A root's count says whether it is full.
  lemma FullRoot(r: Root)
    requires RootOk(r)
    ensures r.num <= NPAGEREFS_PER_PAGE
    ensures r.num == NPAGEREFS_PER_PAGE <==> Used(r.words) == Range(NPAGEREFS_PER_PAGE)
  {
    hide InUse;
    RangeSize(NPAGEREFS_PER_PAGE);
    SubsetSize(Used(r.words), Range(NPAGEREFS_PER_PAGE));
  }

  lemma {:induction false} SubsetSize(a: set<nat>, b: set<nat>)
    requires a <= b
    ensures |a| <= |b| && (|a| == |b| ==> a == b)
  {
    if a != {} {
      var x :| x in a;
      SubsetSize(a - {x}, b - {x});
    }
  }

  // Writing one word changes only the numbers that live in it.
  lemma WordUpdate(words: seq<nat>, i: nat, w: nat, j: nat)
    requires |words| == INUSE_WORDS && i < INUSE_WORDS && j < NPAGEREFS_PER_PAGE
    ensures InUse(words[i := w], j) <==> if j / 32 == i then TestBit(w, j % 32) else InUse(words, j)
  {}

  lemma SetOne(words: seq<nat>, i: nat, b: nat)
    requires |words| == INUSE_WORDS && i < INUSE_WORDS && b < 32
    ensures Used(words[i := BitOr(words[i], Base(b))]) == Used(words) + {i * 32 + b}
  {
    hide Base, BitOr, TestBit;
    var w := BitOr(words[i], Base(b));
    forall j: nat | j < NPAGEREFS_PER_PAGE
      ensures InUse(words[i := w], j) <==> InUse(words, j) || j == i * 32 + b
    {
      WordUpdate(words, i, w, j);
      TestOr(words[i], Base(b), j % 32);
      TestPow(b, j % 32);
    }
  }

  lemma ClearOne(words: seq<nat>, i: nat, b: nat)
    requires |words| == INUSE_WORDS && i < INUSE_WORDS && b < 32 && Base(b) < Base(32)
    ensures Used(words[i := BitAnd(words[i], Base(32) - 1 - Base(b))]) == Used(words) - {i * 32 + b}
  {
    hide Base, BitAnd, TestBit;
    var mask: nat := Base(32) - 1 - Base(b);
    var w := BitAnd(words[i], mask);
    forall j: nat | j < NPAGEREFS_PER_PAGE
      ensures InUse(words[i := w], j) <==> InUse(words, j) && j != i * 32 + b
    {
      WordUpdate(words, i, w, j);
      TestAnd(words[i], mask, j % 32);
      TestComplement(32, b, j % 32);
    }
  }

  lemma WordLimit()
    ensures Base(32) == 0x1_0000_0000
  {
    PowAdd(2, 16, 16);
    PowAdd(2, 8, 8);
    assert Base(8) == 256;
  }

  // ---------------------------------------------------------------- the code

  // The two inner loops of allocpageref: the first clear bit of a bitmap that has one.
  method FindClear(words: seq<nat>) returns (i: nat, b: nat)
    requires |words| == INUSE_WORDS && (forall i | 0 <= i < INUSE_WORDS :: words[i] < Base(32))
    requires Used(words) != Range(NPAGEREFS_PER_PAGE)
    ensures i < INUSE_WORDS && b < 32 && !InUse(words, i * 32 + b)
    ensures forall n: nat | n < i * 32 + b :: InUse(words, n)
  {
    hide Base, BitAnd, TestBit;
    WordLimit();
    ghost var c := Unused(words);
    i := 0;
    while i < INUSE_WORDS
      invariant 0 <= i <= INUSE_WORDS
      invariant forall n: nat | n < i * 32 :: InUse(words, n)
    {
      if words[i] != FULL_WORD {
        b := LowestClear(words[i]);
        return;
      }
      forall n: nat | i * 32 <= n < i * 32 + 32
        ensures InUse(words, n)
      {
        TestOnes(32, n % 32);
      }
      i := i + 1;
    }
    assert false;
  }

  lemma Unused(words: seq<nat>) returns (j: nat)
    requires |words| == INUSE_WORDS && Used(words) != Range(NPAGEREFS_PER_PAGE)
    ensures j < NPAGEREFS_PER_PAGE && !InUse(words, j)
  {
    hide InUse;
    RangeSize(NPAGEREFS_PER_PAGE);
    j :| j < NPAGEREFS_PER_PAGE && j !in Used(words);
  }

  // The innermost loop; the assertion after it cannot be reached.
  method LowestClear(word: nat) returns (j: nat)
    requires word < FULL_WORD
    ensures j < 32 && !TestBit(word, j) && forall n: nat | n < j :: TestBit(word, n)
  {
    hide Base, BitAnd, TestBit;
    WordLimit();
    var k: nat := 1;
    j := 0;
    PowerStep(0);
    while k != 0
      invariant 0 <= j <= 32 && k == if j < 32 then Base(j) else 0
      invariant forall n: nat | n < j :: TestBit(word, n)
      decreases 32 - j
    {
      PowerStep(j);
      AndPow(word, j);
      if BitAnd(word, k) == 0 {
        return;
      }
      k := (2 * k) % 0x1_0000_0000;
      j := j + 1;
    }
    var c := ClearBit(word, 32);
    assert false;
  }

  lemma PowerStep(j: nat)
    requires j < 32
    ensures Base(0) == 1 && Base(j + 1) == 2 * Base(j) && 0 < Base(j) < Base(32)
    ensures Base(j + 1) <= Base(32) && (j + 1 < 32 ==> Base(j + 1) < Base(32))
  {
    TestComplement(32, j, 0);
    if j + 1 < 32 {
      TestComplement(32, j + 1, 0);
    }
  }

  // j is the lowest free number of the first root with one.
  ghost predicate LowestFree(roots: seq<Root>, w: nat, j: nat) {
    && w < |roots| && j < NPAGEREFS_PER_PAGE && (forall v | 0 <= v <= w :: |roots[v].words| == INUSE_WORDS)
    && (forall v | 0 <= v < w :: Used(roots[v].words) == Range(NPAGEREFS_PER_PAGE))
    && !InUse(roots[w].words, j) && (forall n: nat | n < j :: InUse(roots[w].words, n))
  }

  // None of the first w roots is without a page yet has numbers in use.
  ghost predicate NoOrphans(roots: seq<Root>, w: nat) {
    forall v | 0 <= v < w && v < |roots| && |roots[v].words| == INUSE_WORDS && roots[v].page == 0 ::
      Used(roots[v].words) == {}
  }

  // Only root w changed, and only in which numbers are in use.
  predicate Changed(roots: seq<Root>, roots': seq<Root>, w: nat, used: set<nat>) {
    && w < |roots| == |roots'| && |roots'[w].words| == INUSE_WORDS
    && Used(roots'[w].words) == used
    && roots' == roots[w := roots'[w]] && roots'[w].page == roots[w].page
  }

  lemma UnmarkOk(root: Root, j: nat)
    requires RootOk(root) && j < NPAGEREFS_PER_PAGE && InUse(root.words, j)
    ensures Base(j % 32) < Base(32) && root.num > 0
    ensures var words := root.words[j / 32 := BitAnd(root.words[j / 32], Base(32) - 1 - Base(j % 32))];
            RootOk(Root(root.page, words, root.num - 1)) && Used(words) == Used(root.words) - {j}
  {
    hide Base, InUse, BitAnd;
    var i, b := j / 32, j % 32;
    PowerStep(b);
    AndBound(root.words[i], Base(32) - 1 - Base(b));
    ClearOne(root.words, i, b);
    assert j in Used(root.words);
  }

  class Pool {
    var roots: seq<Root>

    predicate Valid()
      reads this
    {
      |roots| == NUM_PAGEREFPAGES && forall w | 0 <= w < NUM_PAGEREFPAGES :: RootOk(roots[w])
    }

    // kheaproots[] as the loader leaves it.
    constructor ()
      ensures Valid() && forall w | 0 <= w < NUM_PAGEREFPAGES :: roots[w].page == 0 && Used(roots[w].words) == {}
    {
      var zero := Root(0, seq(INUSE_WORDS, i => 0), 0);
      assert Used(zero.words) == {} by {
        forall j: nat | j < NPAGEREFS_PER_PAGE
          ensures !InUse(zero.words, j)
        {
          TestZero(j % 32);
        }
      }
      roots := seq(NUM_PAGEREFPAGES, i => zero);
    }

    /**
     allocpageref up to the point where it may drop the lock: the lowest free number of the
     first root that is not full, marked in use.
     */
    method Reserve() returns (r: Option<(nat, nat)>)
      requires Valid()
      modifies this
      ensures Valid()
      ensures r.None? ==> roots == old(roots) && forall w | 0 <= w < NUM_PAGEREFPAGES ::
              Used(roots[w].words) == Range(NPAGEREFS_PER_PAGE)
      ensures r.Some? ==> r.value.0 < NUM_PAGEREFPAGES && LowestFree(old(roots), r.value.0, r.value.1)
      ensures r.Some? ==> Changed(old(roots), roots, r.value.0, Used(old(roots)[r.value.0].words) + {r.value.1})
    {
      hide Used, Base, InUse, Range;
      var w := 0;
      while w < NUM_PAGEREFPAGES
        invariant 0 <= w <= NUM_PAGEREFPAGES && roots == old(roots)
        invariant forall v | 0 <= v < w :: Used(roots[v].words) == Range(NPAGEREFS_PER_PAGE)
      {
        FullRoot(roots[w]);
        if roots[w].num < NPAGEREFS_PER_PAGE {
          var i, b := FindClear(roots[w].words);
          assert LowestFree(roots, w, i * 32 + b);
          Mark(w, i, b);
          return Some((w, i * 32 + b));
        }
        w := w + 1;
      }
      return None;
    }

    method Mark(w: nat, i: nat, b: nat)
      requires Valid() && w < NUM_PAGEREFPAGES && i < INUSE_WORDS && b < 32 && !InUse(roots[w].words, i * 32 + b)
      modifies this
      ensures Valid() && Changed(old(roots), roots, w, Used(old(roots)[w].words) + {i * 32 + b})
    {
      hide Base, InUse;
      var root := roots[w];
      PowerStep(b);
      OrBound(root.words[i], Base(b), 32);
      SetOne(root.words, i, b);
      roots := roots[w := Root(root.page, root.words[i := BitOr(root.words[i], Base(b))], root.num + 1)];
    }

    /**
     freepageref. The result is whether its assertions hold: they do exactly when no earlier
     root is without a page yet has numbers in use.
     */
    method Release(p: nat, ghost w0: nat, ghost j0: nat) returns (ok: bool)
      requires Valid() && w0 < NUM_PAGEREFPAGES && j0 < NPAGEREFS_PER_PAGE && InUse(roots[w0].words, j0)
      requires roots[w0].page != 0 && p == roots[w0].page + j0 * SIZEOF_PAGEREF
      requires forall w | 0 <= w < NUM_PAGEREFPAGES :: roots[w].page % PAGE_SIZE == 0
      requires forall v, w | 0 <= v < w < NUM_PAGEREFPAGES && roots[v].page != 0 :: roots[v].page != roots[w].page
      modifies this
      ensures Valid()
      ensures ok <==> NoOrphans(old(roots), w0)
      ensures !ok ==> roots == old(roots)
      ensures ok ==> Changed(old(roots), roots, w0, Used(old(roots)[w0].words) - {j0})
    {
      hide Used, Base, InUse;
      var w := 0;
      while w < NUM_PAGEREFPAGES
        invariant 0 <= w <= w0 && roots == old(roots) && Valid()
        invariant forall v | 0 <= v < w :: roots[v].page == 0 ==> Used(roots[v].words) == {}
        decreases NUM_PAGEREFPAGES - w
      {
        var page := roots[w].page;
        if page == 0 {
          if roots[w].num != 0 {
            return false;
          }
        } else if 0 <= p - page < NPAGEREFS_PER_PAGE * SIZEOF_PAGEREF {
          SamePage(page, roots[w0].page, j0);
          Unmark(w, (p - page) / SIZEOF_PAGEREF);
          return true;
        }
        w := w + 1;
      }
      assert false;
    }

    method Unmark(w: nat, j: nat)
      requires Valid() && w < NUM_PAGEREFPAGES && j < NPAGEREFS_PER_PAGE && InUse(roots[w].words, j)
      modifies this
      ensures Valid() && Changed(old(roots), roots, w, Used(old(roots)[w].words) - {j})
    {
      var root := roots[w];
      var i, b := j / 32, j % 32;
      assert RootOk(root) && |root.words| == INUSE_WORDS;
      hide Base, RootOk, Used, InUse, BitAnd;
      UnmarkOk(root, j);
      var word := BitAnd(root.words[i], Base(32) - 1 - Base(b));
      roots := roots[w := Root(root.page, root.words[i := word], root.num - 1)];
    }
  }

  // Two pageref pages hold no address in common.
  lemma SamePage(page: nat, other: nat, j: nat)
    requires page % PAGE_SIZE == 0 && other % PAGE_SIZE == 0 && j < NPAGEREFS_PER_PAGE
    requires 0 <= other + j * SIZEOF_PAGEREF - page < NPAGEREFS_PER_PAGE * SIZEOF_PAGEREF
    ensures page == other && (other + j * SIZEOF_PAGEREF - page) / SIZEOF_PAGEREF == j
  {}
}
