/** The free blocks of mm/buddy_mm.c as a set: splitting, coalescing, and what they preserve. */
module BuddyBlocks {
  import opened Powers

  const MAX_ORDER: nat := 10

  /** The run of 2^order pages that begins at page start. */
  datatype Block = Block(start: nat, order: nat) {
    function End(): nat { start + Pow2(order) }

    predicate Has(q: nat) { start <= q < End() }
  }

  predicate Apart(a: Block, b: Block) { a.End() <= b.start || b.End() <= a.start }

  /** The index of the buddy: bit k of x flipped. */
  function Buddy(x: nat, k: nat): (r: nat)
  {
    if !BitSet(x, k) then x + Pow2(k)
    else
      BitSetGrows(x, k);
      x - Pow2(k)
  }

  lemma BuddyHalf(x: nat, k: nat)
    requires k > 0
    ensures Buddy(x, k) / 2 == Buddy(x / 2, k - 1) && Buddy(x, k) % 2 == x % 2
  {
  }

  /** The buddy is x with bit k flipped and every other bit as it was: x ^ (1 << k). */
  lemma {:induction false} BuddyFlipsBit(x: nat, k: nat, j: nat)
    ensures BitSet(Buddy(x, k), j) <==> if j == k then !BitSet(x, k) else BitSet(x, j)
  {
    if k > 0 {
      BuddyHalf(x, k);
      if j > 0 {
        BuddyFlipsBit(x / 2, k - 1, j - 1);
      }
    } else {
      assert Pow2(0) == 1;
    }
  }

  /** Where x and its buddy begin together. */
  function Merged(x: nat, k: nat): (r: nat)
  {
    if Buddy(x, k) < x then Buddy(x, k) else x
  }

  /** Where the merged block begins is the bitwise and of the two indices. */
  lemma MergedIsAnd(x: nat, k: nat, j: nat)
    ensures BitSet(Merged(x, k), j) <==> BitSet(x, j) && BitSet(Buddy(x, k), j)
  {
    BuddyFlipsBit(x, k, j);
  }

  /** The flip is its own inverse. */
  lemma BuddyTwice(x: nat, k: nat)
    ensures Buddy(Buddy(x, k), k) == x
    ensures Merged(Buddy(x, k), k) == Merged(x, k)
  {
    BuddyFlipsBit(x, k, k);
  }

  /** The merged block is aligned to its size exactly if the original one was. */
  lemma MergedAligned(x: nat, k: nat)
    ensures Divides(k + 1, Merged(x, k)) <==> Divides(k, x)
    ensures Divides(k, Buddy(x, k)) <==> Divides(k, x)
  {
    DividesMultiple(k, Pow2(k), 1);
    DividesSum(k, Pow2(k), x);
    BuddyFlipsBit(x, k, k);
    var m := Merged(x, k);
    if Divides(k, m) {
      EvenMultiple(m, k);
    } else if Divides(k + 1, m) {
      DividesLower(k, k + 1, m);
    }
  }

  /** The free blocks are runs of an allowed size among the first n pages and do not overlap. */
  ghost predicate Wf(bs: set<Block>, n: nat) {
    && (forall b | b in bs :: b.order <= MAX_ORDER && b.End() <= n)
    && (forall a, b | a in bs && b in bs && a != b :: Apart(a, b))
  }

  ghost predicate Covered(bs: set<Block>, q: nat) { exists b :: b in bs && b.Has(q) }

  /** Every free block begins at a multiple of its size. */
  ghost predicate Aligned(bs: set<Block>) { forall b | b in bs :: Divides(b.order, b.start) }

  /** No two free buddies below the largest order. */
  ghost predicate Coalesced(bs: set<Block>) {
    forall b | b in bs && b.order < MAX_ORDER :: Block(Buddy(b.start, b.order), b.order) !in bs
  }

  // ---------- buddy_free_pages_sub ----------

  /** The free blocks after the block (x, k) has been freed and merged upwards. */
  ghost function FreeBlock(bs: set<Block>, x: nat, k: nat): set<Block>
    decreases MAX_ORDER - k
  {
    var buddy := Block(Buddy(x, k), k);
    if k < MAX_ORDER && buddy in bs then FreeBlock(bs - {buddy}, Merged(x, k), k + 1)
    else bs + {Block(x, k)}
  }

  /** Freeing a block that overlaps no free block adds exactly its pages, aligned or not. */
  lemma {:induction false} FreeBlockPages(bs: set<Block>, n: nat, x: nat, k: nat)
    requires Wf(bs, n) && k <= MAX_ORDER && x + Pow2(k) <= n
    requires forall b | b in bs :: Apart(b, Block(x, k))
    ensures Wf(FreeBlock(bs, x, k), n)
    ensures forall q: nat :: Covered(FreeBlock(bs, x, k), q) <==> Covered(bs, q) || x <= q < x + Pow2(k)
    decreases MAX_ORDER - k
  {
    var buddy := Block(Buddy(x, k), k);
    if k < MAX_ORDER && buddy in bs {
      var bs' := bs - {buddy};
      forall b | b in bs' ensures Apart(b, Block(Merged(x, k), k + 1)) {
        assert Apart(b, buddy) && Apart(b, Block(x, k));
      }
      FreeBlockPages(bs', n, Merged(x, k), k + 1);
      assert bs == bs' + {buddy};
      forall q: nat ensures Covered(bs, q) <==> Covered(bs', q) || buddy.Has(q) {
        CoveredPlus(bs', buddy, q);
      }
    } else {
      forall q: nat ensures Covered(bs + {Block(x, k)}, q) <==> Covered(bs, q) || Block(x, k).Has(q) {
        CoveredPlus(bs, Block(x, k), q);
      }
    }
  }

  lemma CoveredPlus(bs: set<Block>, b: Block, q: nat)
    ensures Covered(bs + {b}, q) <==> Covered(bs, q) || b.Has(q)
  {
  }

  /** Freeing keeps all blocks aligned if the freed block is aligned, and never heals a misaligned one. */
  lemma {:induction false} FreeBlockAligned(bs: set<Block>, x: nat, k: nat)
    ensures Aligned(FreeBlock(bs, x, k)) <==> Aligned(bs) && Divides(k, x)
    decreases MAX_ORDER - k
  {
    var buddy := Block(Buddy(x, k), k);
    MergedAligned(x, k);
    if k < MAX_ORDER && buddy in bs {
      FreeBlockAligned(bs - {buddy}, Merged(x, k), k + 1);
      assert bs == bs - {buddy} + {buddy};
    } else {
      assert Block(x, k) in bs + {Block(x, k)};
      if Aligned(bs + {Block(x, k)}) {
        assert forall b | b in bs :: b in bs + {Block(x, k)};
      }
    }
  }

  lemma {:induction false} FreeBlockCoalesced(bs: set<Block>, x: nat, k: nat)
    requires Coalesced(bs)
    ensures Coalesced(FreeBlock(bs, x, k))
    decreases MAX_ORDER - k
  {
    var buddy := Block(Buddy(x, k), k);
    if k < MAX_ORDER && buddy in bs {
      FreeBlockCoalesced(bs - {buddy}, Merged(x, k), k + 1);
    } else {
      var bs' := bs + {Block(x, k)};
      forall b | b in bs' && b.order < MAX_ORDER ensures Block(Buddy(b.start, b.order), b.order) !in bs' {
        BuddyTwice(b.start, b.order);
        BuddyTwice(x, k);
      }
    }
  }

  // ---------- buddy_alloc_pages_sub ----------

  /** The right halves left over when a block of order cur at page is split down to order k. */
  ghost function RightHalves(page: nat, k: nat, cur: nat): set<Block>
    requires k <= cur
  {
    set j | k <= j < cur :: Block(page + Pow2(j), j)
  }

  /** The free blocks after block (page, cur) has been taken for a request of order k. */
  ghost function TakeBlock(bs: set<Block>, page: nat, k: nat, cur: nat): set<Block>
    requires k <= cur
  {
    bs - {Block(page, cur)} + RightHalves(page, k, cur)
  }

  /** No free block has an order from k up to cur. */
  ghost predicate NoneBetween(bs: set<Block>, k: nat, cur: nat) {
    forall b | b in bs :: !(k <= b.order < cur)
  }

  lemma {:induction false} HalvesFill(page: nat, k: nat, cur: nat)
    requires k <= cur
    ensures forall q: nat :: Covered(RightHalves(page, k, cur), q) <==> page + Pow2(k) <= q < page + Pow2(cur)
    decreases cur
  {
    if k < cur {
      HalvesFill(page, k, cur - 1);
      var b := Block(page + Pow2(cur - 1), cur - 1);
      assert RightHalves(page, k, cur) == RightHalves(page, k, cur - 1) + {b};
      Pow2Monotonic(k, cur - 1);
      forall q: nat ensures Covered(RightHalves(page, k, cur), q) <==> page + Pow2(k) <= q < page + Pow2(cur) {
        CoveredPlus(RightHalves(page, k, cur - 1), b, q);
      }
    } else {
      assert RightHalves(page, k, cur) == {};
    }
  }

  lemma HalvesApart(page: nat, k: nat, cur: nat, i: nat, j: nat)
    requires k <= i < j < cur
    ensures Apart(Block(page + Pow2(i), i), Block(page + Pow2(j), j))
  {
    Pow2Monotonic(i + 1, j);
  }

  lemma HalvesInside(page: nat, k: nat, cur: nat, b: Block)
    requires k <= cur && b in RightHalves(page, k, cur)
    ensures k <= b.order < cur && page + Pow2(k) <= b.start && b.End() <= Block(page, cur).End()
  {
    Pow2Monotonic(k, b.order);
    Pow2Monotonic(b.order + 1, cur);
  }

  lemma TakeBlockApart(bs: set<Block>, n: nat, page: nat, k: nat, cur: nat, a: Block, b: Block)
    requires Wf(bs, n) && k <= cur && Block(page, cur) in bs
    requires a in TakeBlock(bs, page, k, cur) && b in TakeBlock(bs, page, k, cur) && a != b
    requires a in RightHalves(page, k, cur)
    ensures Apart(a, b)
  {
    HalvesInside(page, k, cur, a);
    if b in RightHalves(page, k, cur) {
      if a.order < b.order {
        HalvesApart(page, k, cur, a.order, b.order);
      } else {
        HalvesApart(page, k, cur, b.order, a.order);
      }
    } else {
      assert Apart(Block(page, cur), b);
    }
  }

  /** Taking a block removes exactly 2^k pages from its left end. */
  lemma TakeBlockPages(bs: set<Block>, n: nat, page: nat, k: nat, cur: nat)
    requires Wf(bs, n) && k <= cur && Block(page, cur) in bs
    ensures Wf(TakeBlock(bs, page, k, cur), n)
    ensures forall q: nat ::
      Covered(TakeBlock(bs, page, k, cur), q) <==> Covered(bs, q) && !(page <= q < page + Pow2(k))
    ensures forall q: nat | page <= q < page + Pow2(k) :: Covered(bs, q)
  {
    var bs' := TakeBlock(bs, page, k, cur);
    forall b | b in bs' ensures b.order <= MAX_ORDER && b.End() <= n {
      if b in RightHalves(page, k, cur) {
        HalvesInside(page, k, cur, b);
      }
    }
    forall a, b | a in bs' && b in bs' && a != b ensures Apart(a, b) {
      if a in RightHalves(page, k, cur) {
        TakeBlockApart(bs, n, page, k, cur, a, b);
      } else if b in RightHalves(page, k, cur) {
        TakeBlockApart(bs, n, page, k, cur, b, a);
      }
    }
    HalvesFill(page, k, cur);
    Pow2Monotonic(k, cur);
    forall q: nat
      ensures Covered(bs', q) <==> Covered(bs, q) && !(page <= q < page + Pow2(k))
      ensures page <= q < page + Pow2(k) ==> Covered(bs, q)
    {
      TakeBlockCovers(bs, n, page, k, cur, q);
    }
  }

  lemma TakeBlockCovers(bs: set<Block>, n: nat, page: nat, k: nat, cur: nat, q: nat)
    requires Wf(bs, n) && k <= cur && Block(page, cur) in bs
    requires Covered(RightHalves(page, k, cur), q) <==> page + Pow2(k) <= q < page + Pow2(cur)
    requires Pow2(k) <= Pow2(cur)
    ensures Covered(TakeBlock(bs, page, k, cur), q) <==> Covered(bs, q) && !(page <= q < page + Pow2(k))
    ensures page <= q < page + Pow2(k) ==> Covered(bs, q)
  {
    var taken, halves := Block(page, cur), RightHalves(page, k, cur);
    var bs' := TakeBlock(bs, page, k, cur);
    if Covered(bs', q) {
      var b :| b in bs' && b.Has(q);
      if b in bs {
        assert Covered(bs, q);
        assert Apart(b, taken);
      } else {
        assert Covered(halves, q);
        assert taken.Has(q);
      }
    }
    if Covered(bs, q) {
      var b :| b in bs && b.Has(q);
      if b != taken {
        assert b in bs';
      } else if q >= page + Pow2(k) {
        var h :| h in halves && h.Has(q);
        assert h in bs';
      }
    }
    if taken.Has(q) {
      assert Covered(bs, q);
    }
  }

  /** Taking the smallest sufficient block keeps the blocks aligned and coalesced. */
  lemma TakeBlockCanonical(bs: set<Block>, page: nat, k: nat, cur: nat)
    requires k <= cur && Block(page, cur) in bs && NoneBetween(bs, k, cur)
    requires Aligned(bs) && Coalesced(bs)
    ensures Aligned(TakeBlock(bs, page, k, cur)) && Coalesced(TakeBlock(bs, page, k, cur))
  {
    var bs' := TakeBlock(bs, page, k, cur);
    assert Divides(cur, page);
    forall b | b in bs' ensures Divides(b.order, b.start) {
      if b !in bs {
        DividesLower(b.order, cur, page);
        DividesMultiple(b.order, Pow2(b.order), 1);
        DividesSum(b.order, page, Pow2(b.order));
      }
    }
    forall b | b in bs' && b.order < MAX_ORDER ensures Block(Buddy(b.start, b.order), b.order) !in bs' {
      assert Buddy(b.start, b.order) != b.start;
    }
  }

  // ---------- canonical sets of blocks ----------

  /** Aligned and fully coalesced, with n pages in all. */
  ghost predicate Canonical(bs: set<Block>, n: nat) { Wf(bs, n) && Aligned(bs) && Coalesced(bs) }

  ghost predicate RunFree(bs: set<Block>, x: nat, k: nat) {
    forall q: nat | x <= q < x + Pow2(k) :: Covered(bs, q)
  }

  /** In a canonical set every free aligned run of an allowed size lies inside one block. */
  lemma {:induction false} RunInsideBlock(bs: set<Block>, n: nat, x: nat, k: nat) returns (b: Block)
    requires Canonical(bs, n) && k <= MAX_ORDER && Divides(k, x) && RunFree(bs, x, k)
    ensures b in bs && b.start <= x && x + Pow2(k) <= b.End() && k <= b.order
    decreases k
  {
    assert Covered(bs, x);
    if k == 0 {
      b :| b in bs && b.Has(x);
    } else {
      var h := Pow2(k - 1);
      DividesLower(k - 1, k, x);
      DividesMultiple(k - 1, h, 1);
      DividesSum(k - 1, x, h);
      var l := RunInsideBlock(bs, n, x, k - 1);
      var r := RunInsideBlock(bs, n, x + h, k - 1);
      b := EitherHalf(bs, n, x, k, l, r);
    }
  }

  /** Of the blocks that contain the two halves of a run one contains it all: two separate halves
      would be free buddies. */
  lemma EitherHalf(bs: set<Block>, n: nat, x: nat, k: nat, l: Block, r: Block) returns (b: Block)
    requires Canonical(bs, n) && 0 < k <= MAX_ORDER && Divides(k, x) && l in bs && r in bs
    requires l.start <= x && x + Pow2(k - 1) <= l.End() && k - 1 <= l.order
    requires r.start <= x + Pow2(k - 1) && x + Pow2(k) <= r.End() && k - 1 <= r.order
    ensures b in bs && b.start <= x && x + Pow2(k) <= b.End() && k <= b.order
  {
    if l.order >= k {
      AlignedContains(l, x, k);
      b := l;
    } else if r.order >= k {
      AlignedContainsRight(r, x, k);
      b := r;
    } else {
      EvenBuddy(x, k - 1);
      b := l;
    }
  }

  lemma EvenBuddy(x: nat, k: nat)
    requires Divides(k + 1, x)
    ensures Buddy(x, k) == x + Pow2(k)
  {
    var q := x / Pow2(k + 1);
    assert x == (2 * q) * Pow2(k) by { DividesQuotient(k + 1, x); MulAssoc(q, 2, Pow2(k)); }
    BitOfMultiple(2 * q, k, x);
  }

  /** An aligned block of order at least k that reaches x contains the aligned run (x, k). */
  lemma AlignedContains(b: Block, x: nat, k: nat)
    requires Divides(b.order, b.start) && k <= b.order && Divides(k, x) && b.Has(x)
    ensures x + Pow2(k) <= b.End()
  {
    DividesLower(k, b.order, b.start);
    Pow2Divides(k, b.order);
    DividesSum(k, b.start, Pow2(b.order));
    DividesSum(k, x, b.End());
    GapIsMultiple(k, b.End() - x);
  }

  lemma AlignedContainsRight(b: Block, x: nat, k: nat)
    requires k > 0 && Divides(b.order, b.start) && k <= b.order && Divides(k, x) && b.Has(x + Pow2(k - 1))
    ensures b.start <= x && x + Pow2(k) <= b.End()
  {
    DividesLower(k, b.order, b.start);
    DividesSum(k, x, b.start);
    if b.start > x {
      GapIsMultiple(k, b.start - x);
    }
    AlignedContains(b, x, k);
  }

  lemma Pow2Divides(k: nat, h: nat)
    requires k <= h
    ensures Divides(k, Pow2(h))
  {
    DividesMultiple(h, Pow2(h), 1);
    DividesLower(k, h, Pow2(h));
  }

  lemma GapIsMultiple(k: nat, d: nat)
    requires Divides(k, d) && d > 0
    ensures d >= Pow2(k)
  {
    DividesAtLeast(k, d);
  }

  /** A canonical set of blocks is determined by the pages it covers. */
  lemma CanonicalUnique(cs: set<Block>, bs: set<Block>, n: nat)
    requires Canonical(cs, n) && Canonical(bs, n)
    requires forall q: nat :: Covered(cs, q) <==> Covered(bs, q)
    ensures cs == bs
  {
    forall a | a in cs ensures a in bs {
      BlockShared(cs, bs, n, a);
    }
    forall b | b in bs ensures b in cs {
      BlockShared(bs, cs, n, b);
    }
  }

  lemma BlockInside(cs: set<Block>, bs: set<Block>, n: nat, a: Block) returns (b: Block)
    requires Canonical(cs, n) && Canonical(bs, n) && a in cs
    requires forall q: nat :: Covered(cs, q) <==> Covered(bs, q)
    ensures b in bs && b.start <= a.start && a.End() <= b.End() && a.order <= b.order
  {
    forall q: nat | a.Has(q) ensures Covered(bs, q) {
      assert Covered(cs, q);
    }
    b := RunInsideBlock(bs, n, a.start, a.order);
  }

  lemma BlockShared(cs: set<Block>, bs: set<Block>, n: nat, a: Block)
    requires Canonical(cs, n) && Canonical(bs, n) && a in cs
    requires forall q: nat :: Covered(cs, q) <==> Covered(bs, q)
    ensures a in bs
  {
    var b := BlockInside(cs, bs, n, a);
    var c := BlockInside(bs, cs, n, b);
    assert c == a by {
      assert c.Has(a.start) && a.Has(a.start);
    }
    Pow2Injective(a.order, b.order);
  }

  lemma Pow2Injective(i: nat, j: nat)
    requires i <= j && Pow2(j) <= Pow2(i)
    ensures i == j
  {
  }

  /** In a canonical set a request of order k finds no block exactly if no aligned run of 2^k pages is free. */
  lemma NoBlockIffNoRun(bs: set<Block>, n: nat, k: nat)
    requires Canonical(bs, n) && k <= MAX_ORDER
    ensures NoneBetween(bs, k, MAX_ORDER + 1) <==> !exists x: nat :: Divides(k, x) && RunFree(bs, x, k)
  {
    if x: nat :| Divides(k, x) && RunFree(bs, x, k) {
      var b := RunInsideBlock(bs, n, x, k);
    }
    if b :| b in bs && k <= b.order < MAX_ORDER + 1 {
      DividesLower(k, b.order, b.start);
      Pow2Monotonic(k, b.order);
      forall q: nat | b.start <= q < b.start + Pow2(k) ensures Covered(bs, q) {
        assert b.Has(q);
      }
      assert Divides(k, b.start) && RunFree(bs, b.start, k);
    }
  }
}
