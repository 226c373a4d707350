/** Whole requests of mm/buddy_mm.c on the set of free blocks: initialisation, allocation of any
    number of pages with the tail trimmed off, and freeing a run bit by bit. */
module BuddyRequests {
  import opened Powers
  import opened BuddyBlocks

  // ---------- buddy_free_pages ----------

  /** Freeing the run of n pages at base, whose pieces below order k are done: one block per set
      bit of n, lowest first. */
  ghost function FreeRun(bs: set<Block>, base: nat, n: nat, k: nat): set<Block>
    decreases n + 1 - Pow2(k)
  {
    if n < Pow2(k) then bs
    else if BitSet(n, k) then
      FreeRun(FreeBlock(bs, base, k), base + Pow2(k), n - Pow2(k), k + 1)
    else FreeRun(bs, base, n, k + 1)
  }

  lemma FreeRunStep(bs: set<Block>, base: nat, n: nat, k: nat)
    requires n >= Pow2(k)
    ensures FreeRun(bs, base, n, k)
      == if BitSet(n, k) then FreeRun(FreeBlock(bs, base, k), base + Pow2(k), n - Pow2(k), k + 1)
         else FreeRun(bs, base, n, k + 1)
  {
  }

  /** What the bits of n below k being zero says about bit k. */
  lemma {:induction false} NextBit(n: nat, k: nat)
    requires Divides(k, n)
    ensures BitSet(n, k) ==> n >= Pow2(k) && Divides(k + 1, n - Pow2(k))
    ensures !BitSet(n, k) ==> Divides(k + 1, n)
    ensures n < Pow2(k) ==> n == 0
  {
    if k > 0 {
      NextBit(n / 2, k - 1);
      assert BitSet(n, k) ==> (n - Pow2(k)) / 2 == n / 2 - Pow2(k - 1);
    } else {
      assert Divides(0, n / 2) && Divides(0, (n - 1) / 2);
    }
  }

  ghost predicate Uncovered(bs: set<Block>, base: nat, n: nat) {
    forall q: nat | base <= q < base + n :: !Covered(bs, q)
  }

  lemma UncoveredApart(bs: set<Block>, base: nat, n: nat, k: nat)
    requires Uncovered(bs, base, n) && Pow2(k) <= n
    ensures forall b | b in bs :: Apart(b, Block(base, k))
  {
    forall b | b in bs ensures Apart(b, Block(base, k)) {
      var q := if b.start < base then base else b.start;
      assert b.Has(q) ==> Covered(bs, q);
    }
  }

  lemma FreeFirstPiece(bs: set<Block>, total: nat, base: nat, n: nat, k: nat)
    requires Wf(bs, total) && Pow2(k) <= n < Pow2(MAX_ORDER + 1) && base + n <= total
    requires Uncovered(bs, base, n)
    ensures Wf(FreeBlock(bs, base, k), total) && Uncovered(FreeBlock(bs, base, k), base + Pow2(k), n - Pow2(k))
    ensures forall q: nat :: Covered(FreeBlock(bs, base, k), q) <==> Covered(bs, q) || base <= q < base + Pow2(k)
  {
    BitInRange(n, k);
    UncoveredApart(bs, base, n, k);
    FreeBlockPages(bs, total, base, k);
  }

  /** Freeing a run that is not free adds exactly its pages; no alignment is needed. */
  lemma {:induction false} FreeRunPages(bs: set<Block>, total: nat, base: nat, n: nat, k: nat)
    requires Wf(bs, total) && Divides(k, n) && n < Pow2(MAX_ORDER + 1) && base + n <= total
    requires Uncovered(bs, base, n)
    ensures Wf(FreeRun(bs, base, n, k), total)
    ensures forall q: nat :: Covered(FreeRun(bs, base, n, k), q) <==> Covered(bs, q) || base <= q < base + n
    decreases n + 1 - Pow2(k)
  {
    NextBit(n, k);
    if n >= Pow2(k) {
      if BitSet(n, k) {
        FreeFirstPiece(bs, total, base, n, k);
        FreeRunPages(FreeBlock(bs, base, k), total, base + Pow2(k), n - Pow2(k), k + 1);
      } else {
        FreeRunPages(bs, total, base, n, k + 1);
      }
    }
  }

  lemma BitInRange(n: nat, k: nat)
    requires Pow2(k) <= n < Pow2(MAX_ORDER + 1)
    ensures k <= MAX_ORDER
  {
  }

  lemma {:induction false} FreeRunCoalesced(bs: set<Block>, base: nat, n: nat, k: nat)
    requires Coalesced(bs)
    ensures Coalesced(FreeRun(bs, base, n, k))
    decreases n + 1 - Pow2(k)
  {
    if n >= Pow2(k) {
      if BitSet(n, k) {
        FreeBlockCoalesced(bs, base, k);
        FreeRunCoalesced(FreeBlock(bs, base, k), base + Pow2(k), n - Pow2(k), k + 1);
      } else {
        FreeRunCoalesced(bs, base, n, k + 1);
      }
    }
  }

  lemma {:induction false} FreeRunNeverHeals(bs: set<Block>, base: nat, n: nat, k: nat)
    requires !Aligned(bs)
    ensures !Aligned(FreeRun(bs, base, n, k))
    decreases n + 1 - Pow2(k)
  {
    if n >= Pow2(k) {
      if BitSet(n, k) {
        FreeBlockAligned(bs, base, k);
        FreeRunNeverHeals(FreeBlock(bs, base, k), base + Pow2(k), n - Pow2(k), k + 1);
      } else {
        FreeRunNeverHeals(bs, base, n, k + 1);
      }
    }
  }

  /** The exact alignment condition: with 2^h the highest set bit of n, freeing leaves all blocks
      aligned iff they were aligned before and the run ends at a multiple of 2^h. */
  lemma {:induction false} FreeRunAligned(bs: set<Block>, base: nat, n: nat, k: nat, h: nat)
    requires Divides(k, n) && Pow2(h) <= n < Pow2(h + 1)
    ensures Aligned(FreeRun(bs, base, n, k)) <==> Aligned(bs) && Divides(h, base + n)
    decreases n + 1 - Pow2(k)
  {
    NextBit(n, k);
    if !Aligned(bs) {
      FreeRunNeverHeals(bs, base, n, k);
    } else if !BitSet(n, k) {
      FreeRunAligned(bs, base, n, k + 1, h);
    } else {
      var bs', n' := FreeBlock(bs, base, k), n - Pow2(k);
      FreeBlockAligned(bs, base, k);
      DividesSum(k, n, base);
      if n' == 0 {
        OneBit(k, h);
      } else {
        HighBitStays(n, k, h);
        if Divides(k, base) {
          FreeRunAligned(bs', base + Pow2(k), n', k + 1, h);
        } else {
          FreeRunNeverHeals(bs', base + Pow2(k), n', k + 1);
          if Divides(h, base + n) {
            DividesLower(k, h, base + n);
          }
        }
      }
    }
  }

  lemma OneBit(k: nat, h: nat)
    requires Pow2(h) <= Pow2(k) < Pow2(h + 1)
    ensures h == k
  {
    if h < k {
      Pow2Monotonic(h + 1, k);
    } else if k < h {
      Pow2Monotonic(k, h);
    }
  }

  /** Clearing the lowest set bit of a number with more than one keeps its highest. */
  lemma HighBitStays(n: nat, k: nat, h: nat)
    requires Pow2(h) <= n < Pow2(h + 1) && n > Pow2(k) && Divides(k + 1, n - Pow2(k))
    ensures k < h && Pow2(h) <= n - Pow2(k)
  {
    GapIsMultiple(k + 1, n - Pow2(k));
    if h <= k {
      Pow2Monotonic(h + 1, k + 1);
    }
    Pow2Divides(k + 1, h);
    if n - Pow2(k) < Pow2(h) {
      DividesSum(k + 1, n - Pow2(k), Pow2(h));
      GapIsMultiple(k + 1, Pow2(h) - (n - Pow2(k)));
    }
  }

  // ---------- get_order and buddy_alloc_pages ----------

  /** The smallest order whose blocks hold n pages. */
  ghost predicate OrderFor(n: nat, k: nat) {
    n <= Pow2(k) && (k > 0 ==> Pow2(k - 1) < n)
  }

  lemma OrderUnique(n: nat, i: nat, j: nat)
    requires OrderFor(n, i) && OrderFor(n, j)
    ensures i == j
  {
    if i < j {
      Pow2Monotonic(i, j - 1);
    } else if j < i {
      Pow2Monotonic(j, i - 1);
    }
  }

  /** The free blocks after block (page, cur) has served a request for n pages of order k. */
  ghost function AllocRun(bs: set<Block>, page: nat, n: nat, k: nat, cur: nat): set<Block>
    requires k <= cur && n <= Pow2(k)
  {
    FreeRun(TakeBlock(bs, page, k, cur), page + n, Pow2(k) - n, 0)
  }

  /** Serving a request removes exactly n pages, whatever n is. */
  lemma AllocRunPages(bs: set<Block>, total: nat, page: nat, n: nat, k: nat, cur: nat)
    requires Wf(bs, total) && 0 < n <= Pow2(k) && k <= cur && Block(page, cur) in bs
    ensures Wf(AllocRun(bs, page, n, k, cur), total)
    ensures forall q: nat | page <= q < page + n :: Covered(bs, q)
    ensures forall q: nat ::
      Covered(AllocRun(bs, page, n, k, cur), q) <==> Covered(bs, q) && !(page <= q < page + n)
    ensures page + n <= total
  {
    assert Block(page, cur).order <= MAX_ORDER && Block(page, cur).End() <= total;
    BlockFits(Block(page, cur), total, k);
    TakeBlockPages(bs, total, page, k, cur);
    AllocRunWf(bs, total, page, n, k, cur);
    AllocRunCovers(bs, total, page, n, k, cur);
  }

  lemma BlockFits(b: Block, total: nat, k: nat)
    requires b.order <= MAX_ORDER && b.End() <= total && k <= b.order
    ensures b.start + Pow2(k) <= total && Pow2(k) < Pow2(MAX_ORDER + 1)
  {
    Pow2Monotonic(k, b.order);
    Pow2Monotonic(b.order, MAX_ORDER);
  }

  lemma AllocRunWf(bs: set<Block>, total: nat, page: nat, n: nat, k: nat, cur: nat)
    requires Wf(bs, total) && 0 < n <= Pow2(k) && k <= cur && Block(page, cur) in bs
    ensures Wf(AllocRun(bs, page, n, k, cur), total)
  {
    assert Block(page, cur).order <= MAX_ORDER && Block(page, cur).End() <= total;
    BlockFits(Block(page, cur), total, k);
    TakeBlockPages(bs, total, page, k, cur);
    TailFreed(bs, TakeBlock(bs, page, k, cur), total, page, n, k);
  }

  lemma AllocRunCovers(bs: set<Block>, total: nat, page: nat, n: nat, k: nat, cur: nat)
    requires Wf(bs, total) && 0 < n <= Pow2(k) && k <= cur && Block(page, cur) in bs
    ensures forall q: nat ::
      Covered(AllocRun(bs, page, n, k, cur), q) <==> Covered(bs, q) && !(page <= q < page + n)
  {
    assert Block(page, cur).order <= MAX_ORDER && Block(page, cur).End() <= total;
    BlockFits(Block(page, cur), total, k);
    TakeBlockPages(bs, total, page, k, cur);
    TailFreed(bs, TakeBlock(bs, page, k, cur), total, page, n, k);
  }

  /** If a request has taken 2^k pages, and gives back the tail, n are gone. */
  lemma TailFreed(bs: set<Block>, t: set<Block>, total: nat, page: nat, n: nat, k: nat)
    requires Wf(t, total) && 0 < n <= Pow2(k) < Pow2(MAX_ORDER + 1) && page + Pow2(k) <= total
    requires forall q: nat | page <= q < page + Pow2(k) :: Covered(bs, q)
    requires forall q: nat :: Covered(t, q) <==> Covered(bs, q) && !(page <= q < page + Pow2(k))
    ensures var f := FreeRun(t, page + n, Pow2(k) - n, 0);
      Wf(f, total) && forall q: nat :: Covered(f, q) <==> Covered(bs, q) && !(page <= q < page + n)
  {
    FreeRunPages(t, total, page + n, Pow2(k) - n, 0);
    PagesGone(bs, t, FreeRun(t, page + n, Pow2(k) - n, 0), page, n, Pow2(k));
  }

  lemma PagesGone(bs: set<Block>, t: set<Block>, f: set<Block>, page: nat, n: nat, m: nat)
    requires n <= m && forall q: nat | page <= q < page + m :: Covered(bs, q)
    requires forall q: nat :: Covered(t, q) <==> Covered(bs, q) && !(page <= q < page + m)
    requires forall q: nat :: Covered(f, q) <==> Covered(t, q) || page + n <= q < page + m
    ensures forall q: nat :: Covered(f, q) <==> Covered(bs, q) && !(page <= q < page + n)
  {
  }

  /** Serving a request from the smallest sufficient block keeps the set canonical: the trimmed
      tail ends where an aligned block ends. */
  lemma AllocRunCanonical(bs: set<Block>, total: nat, page: nat, n: nat, k: nat, cur: nat)
    requires Canonical(bs, total) && 0 < n && OrderFor(n, k) && k <= cur
    requires Block(page, cur) in bs && NoneBetween(bs, k, cur)
    ensures Canonical(AllocRun(bs, page, n, k, cur), total)
    ensures Divides(k, page)
  {
    AllocRunPages(bs, total, page, n, k, cur);
    TakeBlockCanonical(bs, page, k, cur);
    DividesLower(k, cur, page);
    TailCanonical(TakeBlock(bs, page, k, cur), page, n, k);
  }

  lemma TailCanonical(bs: set<Block>, page: nat, n: nat, k: nat)
    requires Aligned(bs) && Coalesced(bs) && Divides(k, page) && 0 < n <= Pow2(k)
    ensures Aligned(FreeRun(bs, page + n, Pow2(k) - n, 0)) && Coalesced(FreeRun(bs, page + n, Pow2(k) - n, 0))
  {
    FreeRunCoalesced(bs, page + n, Pow2(k) - n, 0);
    if n < Pow2(k) {
      var h := HighBit(Pow2(k) - n);
      TailEndsAligned(page, n, k, h);
      FreeRunAligned(bs, page + n, Pow2(k) - n, 0, h);
    }
  }

  lemma HighBit(n: nat) returns (h: nat)
    requires n > 0
    ensures Pow2(h) <= n < Pow2(h + 1)
  {
    h := 0;
    while Pow2(h + 1) <= n
      invariant Pow2(h) <= n
      decreases n - Pow2(h)
    {
      h := h + 1;
    }
  }

  lemma TailEndsAligned(page: nat, n: nat, k: nat, h: nat)
    requires Divides(k, page) && 0 < n < Pow2(k) && Pow2(h) <= Pow2(k) - n
    ensures Divides(h, page + n + (Pow2(k) - n))
  {
    if h > k {
      Pow2Monotonic(k, h);
    }
    BlockEnd(h, k, page);
  }

  // ---------- the trimmed tail does not coalesce ----------

  /** One block per set bit of n, lowest first, from base on. */
  ghost function Pieces(base: nat, n: nat, k: nat): set<Block>
    decreases n + 1 - Pow2(k)
  {
    if n < Pow2(k) then {}
    else if BitSet(n, k) then {Block(base, k)} + Pieces(base + Pow2(k), n - Pow2(k), k + 1)
    else Pieces(base, n, k + 1)
  }

  /** Freeing the tail [x, page + 2^k) of an aligned block just adds its pieces: the buddy of each
      piece lies to its left, where the allocated pages and smaller pieces are. */
  lemma {:induction false} TailStaysInPieces(bs: set<Block>, page: nat, k: nat, x: nat, n: nat, j: nat)
    requires Divides(k, page) && page < x && x + n == page + Pow2(k) && Divides(j, n)
    requires forall b | b in bs && b.order >= j :: !(page <= b.start < page + Pow2(k))
    ensures FreeRun(bs, x, n, j) == bs + Pieces(x, n, j)
    decreases n + 1 - Pow2(j)
  {
    NextBit(n, j);
    if n >= Pow2(j) {
      if !BitSet(n, j) {
        TailStaysInPieces(bs, page, k, x, n, j + 1);
      } else {
        PieceBuddyOnTheLeft(page, k, x, n, j);
        assert FreeBlock(bs, x, j) == bs + {Block(x, j)};
        TailStaysInPieces(bs + {Block(x, j)}, page, k, x + Pow2(j), n - Pow2(j), j + 1);
      }
    }
  }

  lemma PieceBuddyOnTheLeft(page: nat, k: nat, x: nat, n: nat, j: nat)
    requires Divides(k, page) && page < x && x + n == page + Pow2(k)
    requires n >= Pow2(j) && BitSet(n, j) && Divides(j, n)
    ensures page <= Buddy(x, j) < x
  {
    PieceBit(page, k, x, n, j);
    DividesLower(j, k, page);
    MultiplesApart(j, page, x);
  }

  lemma PieceBit(page: nat, k: nat, x: nat, n: nat, j: nat)
    requires Divides(k, page) && page < x && x + n == page + Pow2(k)
    requires n >= Pow2(j) && BitSet(n, j) && Divides(j, n)
    ensures j < k && Divides(j, x) && BitSet(x, j)
  {
    if j >= k {
      Pow2Monotonic(k, j);
    }
    BlockEnd(j + 1, k, page);
    ComplementBit(x, n, j);
  }

  /** A block that starts at a multiple of 2^k ends at a multiple of every lower power. */
  lemma BlockEnd(j: nat, k: nat, page: nat)
    requires Divides(k, page) && j <= k
    ensures Divides(j, page + Pow2(k))
  {
    DividesLower(j, k, page);
    Pow2Divides(j, k);
    DividesSum(j, page, Pow2(k));
  }

  lemma MultiplesApart(j: nat, x: nat, y: nat)
    requires Divides(j, x) && Divides(j, y) && x < y
    ensures x + Pow2(j) <= y
  {
    DividesSum(j, x, y);
    GapIsMultiple(j, y - x);
  }

  /** Two numbers whose sum is a multiple of 2^(j+1) agree in bit j if nothing lies below it. */
  lemma {:induction false} ComplementBit(x: nat, n: nat, j: nat)
    requires Divides(j + 1, x + n) && Divides(j, n)
    ensures Divides(j, x) && (BitSet(x, j) <==> BitSet(n, j))
  {
    if j > 0 {
      assert (x + n) / 2 == x / 2 + n / 2;
      ComplementBit(x / 2, n / 2, j - 1);
    }
  }

  lemma NoneStartsInside(bs: set<Block>, total: nat, page: nat, k: nat, cur: nat)
    requires Wf(bs, total) && k <= cur && Block(page, cur) in bs
    ensures forall b | b in TakeBlock(bs, page, k, cur) :: !(page <= b.start < page + Pow2(k))
  {
    TakeBlockPages(bs, total, page, k, cur);
    forall b | b in TakeBlock(bs, page, k, cur) ensures !(page <= b.start < page + Pow2(k)) {
      assert b.Has(b.start) && Covered(TakeBlock(bs, page, k, cur), b.start);
    }
  }

  /** Trimming after a request adds one free block per set bit of 2^k - n and merges none of them. */
  lemma AllocLeavesPieces(bs: set<Block>, total: nat, page: nat, n: nat, k: nat, cur: nat)
    requires Wf(bs, total) && Aligned(bs) && 0 < n <= Pow2(k) && k <= cur && Block(page, cur) in bs
    ensures AllocRun(bs, page, n, k, cur) == TakeBlock(bs, page, k, cur) + Pieces(page + n, Pow2(k) - n, 0)
  {
    NoneStartsInside(bs, total, page, k, cur);
    StartIsMultiple(bs, Block(page, cur), k);
    TailPieces(bs, page, k, n, cur);
  }

  lemma StartIsMultiple(bs: set<Block>, b: Block, k: nat)
    requires Aligned(bs) && b in bs && k <= b.order
    ensures Divides(k, b.start)
  {
    DividesLower(k, b.order, b.start);
  }

  lemma TailPieces(bs: set<Block>, page: nat, k: nat, n: nat, cur: nat)
    requires Divides(k, page) && 0 < n <= Pow2(k) && k <= cur
    requires forall b | b in TakeBlock(bs, page, k, cur) :: !(page <= b.start < page + Pow2(k))
    ensures AllocRun(bs, page, n, k, cur) == TakeBlock(bs, page, k, cur) + Pieces(page + n, Pow2(k) - n, 0)
  {
    TailStaysInPieces(TakeBlock(bs, page, k, cur), page, k, page + n, Pow2(k) - n, 0);
  }

  // ---------- buddy_page_init ----------

  /** The blocks laid out from p on for n pages, largest first, by orders up to k. */
  ghost function InitBlocks(p: nat, n: nat, k: nat): set<Block>
    decreases n, k
  {
    if n == 0 then {}
    else if n >= Pow2(k) then {Block(p, k)} + InitBlocks(p + Pow2(k), n - Pow2(k), k)
    else if k == 0 then {}
    else InitBlocks(p, n, k - 1)
  }

  /** The initial blocks are canonical and cover exactly the managed pages. */
  lemma {:induction false} InitCovers(p: nat, n: nat, k: nat)
    ensures forall q: nat :: Covered(InitBlocks(p, n, k), q) <==> p <= q < p + n
    decreases n, k
  {
    if n >= Pow2(k) {
      var b, rest := Block(p, k), InitBlocks(p + Pow2(k), n - Pow2(k), k);
      InitCovers(p + Pow2(k), n - Pow2(k), k);
      forall q: nat ensures Covered(InitBlocks(p, n, k), q) <==> p <= q < p + n {
        CoveredPlus(rest, b, q);
        assert InitBlocks(p, n, k) == rest + {b};
      }
    } else if n > 0 {
      InitCovers(p, n, k - 1);
    }
  }

  /** They are apart and aligned, and only the largest order occurs twice. */
  ghost predicate LaidOut(bs: set<Block>, p: nat, n: nat, k: nat) {
    && (forall b | b in bs :: p <= b.start && b.End() <= p + n && b.order <= k && Divides(b.order, b.start))
    && (forall a, b | a in bs && b in bs && a != b :: Apart(a, b) && (a.order == b.order ==> a.order == MAX_ORDER))
  }

  lemma BehindBlock(c: Block, p: nat, n: nat, k: nat)
    requires p + Pow2(k) <= c.start && c.End() <= p + n && c.order <= k
    requires k < MAX_ORDER ==> n < Pow2(k + 1)
    ensures Apart(c, Block(p, k)) && Apart(Block(p, k), c) && (c.order == k ==> k >= MAX_ORDER)
  {
  }

  lemma LaidOutPlus(rest: set<Block>, p: nat, n: nat, k: nat)
    requires n >= Pow2(k) && LaidOut(rest, p + Pow2(k), n - Pow2(k), k)
    requires k <= MAX_ORDER && Divides(k, p) && (k < MAX_ORDER ==> n < Pow2(k + 1))
    ensures LaidOut({Block(p, k)} + rest, p, n, k)
  {
    var b, bs := Block(p, k), {Block(p, k)} + rest;
    forall c | c in rest
      ensures Apart(c, b) && Apart(b, c) && (c.order == k ==> k >= MAX_ORDER)
    {
      BehindBlock(c, p, n, k);
    }
    forall c, d | c in bs && d in bs && c != d ensures Apart(c, d) && (c.order == d.order ==> c.order == MAX_ORDER) {
      assert c in rest || d in rest;
    }
  }

  lemma InitStep(p: nat, n: nat, k: nat)
    requires n >= Pow2(k)
    ensures InitBlocks(p, n, k) == {Block(p, k)} + InitBlocks(p + Pow2(k), n - Pow2(k), k)
    ensures n < Pow2(k + 1) ==> n - Pow2(k) < Pow2(k + 1)
  {
  }

  lemma {:induction false} InitCanonical(p: nat, n: nat, k: nat) returns (bs: set<Block>)
    requires k <= MAX_ORDER && Divides(k, p) && (k < MAX_ORDER ==> n < Pow2(k + 1))
    ensures bs == InitBlocks(p, n, k) && LaidOut(bs, p, n, k)
    decreases n, k
  {
    if n >= Pow2(k) {
      DividesMultiple(k, Pow2(k), 1);
      DividesSum(k, p, Pow2(k));
      var rest := InitCanonical(p + Pow2(k), n - Pow2(k), k);
      LaidOutPlus(rest, p, n, k);
      InitStep(p, n, k);
      bs := {Block(p, k)} + rest;
    } else if n > 0 {
      DividesLower(k - 1, k, p);
      bs := InitCanonical(p, n, k - 1);
    } else {
      bs := {};
    }
  }

  lemma InitIsCanonical(n: nat)
    ensures Canonical(InitBlocks(0, n, MAX_ORDER), n)
    ensures forall q: nat :: Covered(InitBlocks(0, n, MAX_ORDER), q) <==> q < n
  {
    var bs := InitCanonical(0, n, MAX_ORDER);
    InitCovers(0, n, MAX_ORDER);
    forall b | b in bs && b.order < MAX_ORDER ensures Block(Buddy(b.start, b.order), b.order) !in bs {
      assert Buddy(b.start, b.order) != b.start;
    }
  }
}
