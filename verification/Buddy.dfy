/** The buddy page allocator of mm/buddy_mm.c with its page descriptors and free lists. */
module BuddyAllocator {
  import opened Common
  import opened Powers
  import opened BuddyBlocks
  import opened BuddyRequests
  import opened BuddyLists
  import opened BuddyListOrder

  /** struct buddy_mm_struct, with the descriptors of the managed pages as parallel arrays. */
  class Allocator {
    const total: nat          // phy_page_count
    var freeList: Lists       // free_list[], each list from its first entry on
    var nrFree: array<int>    // nr_free[]
    var order: array<nat>     // page.order
    var flag: array<bool>     // PG_ORDER in page.flag
    var refs: array<int>      // page.ref
    var now: int              // phy_page_now_count

    ghost function Repr(): set<object>
      reads this
    {
      {this, nrFree, order, flag, refs}
    }

    ghost predicate Valid()
      reads this, nrFree, order, flag, refs
    {
      && Shape(freeList) && nrFree.Length == MAX_ORDER + 1
      && order.Length == total && flag.Length == total && refs.Length == total
      && nrFree != refs && order as object != nrFree as object && order as object != refs as object
      && (forall k | 0 <= k <= MAX_ORDER :: nrFree[k] == |freeList[k]|)
      // both views of the free blocks agree
      && (forall k, p {:trigger p in freeList[k]} | 0 <= k <= MAX_ORDER && p in freeList[k] ::
            p < total && flag[p] && order[p] == k)
      && (forall p {:trigger flag[p]} | 0 <= p < total && flag[p] ::
            order[p] <= MAX_ORDER && p in freeList[order[p]])
      && Wf(BlocksOf(freeList), total)
    }

    /** Makes page x the first block of the list of order k. */
    method Link(x: nat, k: nat)
      requires Valid() && k <= MAX_ORDER && x + Pow2(k) <= total
      requires forall b | b in BlocksOf(freeList) :: Apart(b, Block(x, k))
      modifies this`freeList, nrFree, order, flag
      ensures Valid() && freeList == Push(old(freeList), k, x)
    {
      ghost var l := freeList;
      forall j | 0 <= j <= MAX_ORDER ensures x !in l[j] {
        InBlocks(l, Block(x, j));
      }
      PushBlocks(l, k, x);
      order[x] := k;
      flag[x] := true;
      nrFree[k] := nrFree[k] + 1;
      freeList := freeList[k := [x] + freeList[k]];
      forall j, p | 0 <= j <= MAX_ORDER && p in freeList[j] ensures p < total && flag[p] && order[p] == j {
        if p != x {
          assert p in l[j];
        }
      }
      forall p | 0 <= p < total && flag[p] ensures order[p] <= MAX_ORDER && p in freeList[order[p]] {
        if p != x {
          assert p in l[order[p]];
        }
      }
    }

    /** Takes page x off the list of order k. */
    method Unlink(x: nat, k: nat)
      requires Valid() && k <= MAX_ORDER && x in freeList[k]
      modifies this`freeList, nrFree, flag
      ensures Valid() && freeList == Drop(old(freeList), k, x)
    {
      ghost var l := freeList;
      DropBlocks(l, k, x);
      RemoveElements(l[k], x);
      nrFree[k] := nrFree[k] - 1;
      freeList := freeList[k := Remove(freeList[k], x)];
      flag[x] := false;
      forall j, p | 0 <= j <= MAX_ORDER && p in freeList[j] ensures p < total && flag[p] && order[p] == j {
        assert p in l[j];
      }
      forall p | 0 <= p < total && flag[p] ensures order[p] <= MAX_ORDER && p in freeList[order[p]] {
        assert p in l[order[p]];
      }
    }

    /** page_is_buddy: whether page heads a free block of order k. */
    method PageIsBuddy(page: nat, k: nat) returns (r: bool)
      requires Valid() && k <= MAX_ORDER
      ensures r <==> page in freeList[k]
    {
      if page < total {
        return flag[page] && order[page] == k;
      }
      return false;
    }

    /** buddy_free_pages_sub. */
    method FreePagesSub(base: nat, k0: nat)
      requires Valid() && k0 <= MAX_ORDER && base + Pow2(k0) <= total
      requires forall b | b in BlocksOf(freeList) :: Apart(b, Block(base, k0))
      modifies this`freeList, nrFree, order, flag, refs
      ensures Valid() && freeList == FreeBlockLists(old(freeList), base, k0)
      ensures exists y, j :: Formed(old(freeList), freeList, base, k0, y, j)
      ensures forall p | 0 <= p < total :: refs[p] == if base <= p < base + Pow2(k0) then 0 else old(refs[p])
    {
      ClearRefs(base, Pow2(k0));
      var idx: nat, k: nat := base, k0;
      while k < MAX_ORDER
        modifies this`freeList, nrFree, order, flag
        invariant Valid() && k <= MAX_ORDER && idx + Pow2(k) <= total
        invariant forall b | b in BlocksOf(freeList) :: Apart(b, Block(idx, k))
        invariant FreeBlockLists(freeList, idx, k) == FreeBlockLists(old(freeList), base, k0)
      {
        var buddy := Buddy(idx, k);
        var free := PageIsBuddy(buddy, k);
        if !free {
          break;
        }
        ghost var l := freeList;
        InBlocks(l, Block(buddy, k));
        MergedApart(BlocksOf(l), total, idx, k);
        DropBlocks(l, k, buddy);
        Unlink(buddy, k);
        idx := Merged(idx, k);
        k := k + 1;
      }
      Link(idx, k);
      ghost var y, j := FreeForms(old(freeList), base, k0);
    }

    method ClearRefs(base: nat, n: nat)
      requires base + n <= refs.Length
      modifies refs
      ensures forall p | 0 <= p < refs.Length :: refs[p] == if base <= p < base + n then 0 else old(refs[p])
    {
      for p := base to base + n
        invariant forall q | 0 <= q < refs.Length :: refs[q] == if base <= q < p then 0 else old(refs[q])
      {
        refs[p] := 0;
      }
    }

    /** Frees the piece of 2^k pages at the start of a used run of n pages. */
    method FreePiece(base: nat, n: nat, k: nat)
      requires Valid() && Pow2(k) <= n < Pow2(MAX_ORDER + 1) && base + n <= total
      requires Uncovered(BlocksOf(freeList), base, n)
      modifies this`freeList, nrFree, order, flag, refs
      ensures Valid() && k <= MAX_ORDER && freeList == FreeBlockLists(old(freeList), base, k)
      ensures BlocksOf(freeList) == FreeBlock(BlocksOf(old(freeList)), base, k)
      ensures Uncovered(BlocksOf(freeList), base + Pow2(k), n - Pow2(k))
      ensures forall p | 0 <= p < total :: refs[p] == if base <= p < base + Pow2(k) then 0 else old(refs[p])
    {
      ghost var l := freeList;
      FreeFirstPiece(BlocksOf(l), total, base, n, k);
      BitInRange(n, k);
      UncoveredApart(BlocksOf(l), base, n, k);
      FreePagesSub(base, k);
      FreeBlockListsBlocks(l, base, k);
    }

    /** A round of buddy_free_pages in which bit k of n is set. */
    method FreeOdd(base: nat, n: nat, k: nat)
      requires Valid() && Divides(k, n) && BitSet(n, k) && Pow2(k) <= n < Pow2(MAX_ORDER + 1) && base + n <= total
      requires Uncovered(BlocksOf(freeList), base, n)
      modifies this`freeList, nrFree, order, flag, refs
      ensures Valid() && Divides(k + 1, n - Pow2(k))
      ensures Uncovered(BlocksOf(freeList), base + Pow2(k), n - Pow2(k))
      ensures FreeRunLists(freeList, base + Pow2(k), n - Pow2(k), k + 1) == FreeRunLists(old(freeList), base, n, k)
      ensures FreeRun(BlocksOf(freeList), base + Pow2(k), n - Pow2(k), k + 1)
        == FreeRun(BlocksOf(old(freeList)), base, n, k)
      ensures forall p | 0 <= p < total :: refs[p] == if base <= p < base + Pow2(k) then 0 else old(refs[p])
    {
      BitSplit(freeList, base, n, k, true);
      FreePiece(base, n, k);
    }

    /** One round of buddy_free_pages: frees a piece if bit k of n is set. */
    method FreeBit(base0: nat, n0: nat, k: nat, size: nat) returns (base: nat, n: nat)
      requires Valid() && size == Pow2(k) && Divides(k, n0) && size <= n0 < Pow2(MAX_ORDER + 1) && base0 + n0 <= total
      requires Uncovered(BlocksOf(freeList), base0, n0)
      modifies this`freeList, nrFree, order, flag, refs
      ensures Valid() && Divides(k + 1, n) && n <= n0 && base + n == base0 + n0
      ensures Uncovered(BlocksOf(freeList), base, n)
      ensures FreeRunLists(freeList, base, n, k + 1) == FreeRunLists(old(freeList), base0, n0, k)
      ensures FreeRun(BlocksOf(freeList), base, n, k + 1) == FreeRun(BlocksOf(old(freeList)), base0, n0, k)
      ensures forall p | 0 <= p < total :: refs[p] == if base0 <= p < base then 0 else old(refs[p])
    {
      base, n := base0, n0;
      var odd := TestBit(n, size, k);
      if odd {
        FreeOdd(base, n, k);
        base, n := base + size, n - size;
      } else {
        BitSplit(freeList, base, n, k, false);
      }
    }

    /** buddy_free_pages: one block per set bit of n, lowest first. */
    method FreePages(base0: nat, n0: nat)
      requires Valid() && n0 < Pow2(MAX_ORDER + 1) && base0 + n0 <= total
      requires Uncovered(BlocksOf(freeList), base0, n0)
      modifies this`freeList, this`now, nrFree, order, flag, refs
      ensures Valid() && freeList == FreeRunLists(old(freeList), base0, n0, 0)
      ensures FormedRun(old(freeList), freeList, base0, n0, 0)
      ensures BlocksOf(freeList) == FreeRun(BlocksOf(old(freeList)), base0, n0, 0)
      ensures now == old(now) + n0
      ensures forall p | 0 <= p < total :: refs[p] == if base0 <= p < base0 + n0 then 0 else old(refs[p])
    {
      FreeRunForms(freeList, base0, n0, 0);
      if n0 == 0 {
        return;
      }
      now := now + n0;
      var base: nat, n: nat, k: nat, size: nat := base0, n0, 0, 1;
      while n >= size
        modifies this`freeList, nrFree, order, flag, refs
        invariant Valid() && size == Pow2(k) && Divides(k, n) && n < Pow2(MAX_ORDER + 1) && base + n <= total
        invariant Uncovered(BlocksOf(freeList), base, n)
        invariant FreeRunLists(freeList, base, n, k) == FreeRunLists(old(freeList), base0, n0, 0)
        invariant FreeRun(BlocksOf(freeList), base, n, k) == FreeRun(BlocksOf(old(freeList)), base0, n0, 0)
        invariant base0 <= base && base + n == base0 + n0
        invariant forall p | 0 <= p < total :: refs[p] == if base0 <= p < base then 0 else old(refs[p])
        decreases n + 1 - size
      {
        base, n := FreeBit(base, n, k, size);
        k := k + 1;
        size := size * 2;
      }
      NextBit(n, k);
    }

    /** get_order, for the sizes it does not panic on. */
    static method GetOrder(n: nat) returns (k: nat)
      requires n <= Pow2(MAX_ORDER)
      ensures n <= Pow2(k) && (k > 0 ==> Pow2(k - 1) < n) && k <= 10
    {
      k := 0;
      var size: nat := 1;
      while size < n
        invariant size == Pow2(k) && k <= MAX_ORDER && (k > 0 ==> Pow2(k - 1) < n)
        decreases MAX_ORDER - k
      {
        k := k + 1;
        size := size * 2;
      }
    }

    /** buddy_alloc_pages_sub: the first block of the smallest sufficient order that has one, split
        down to order k. */
    method AllocPagesSub(k: nat) returns (page: Option<nat>, ghost cur: nat)
      requires Valid() && k <= MAX_ORDER
      modifies this`freeList, nrFree, order, flag
      ensures Valid() && cur >= k
      ensures NoneBetween(BlocksOf(old(freeList)), k, cur)
      ensures page.None? ==> cur == MAX_ORDER + 1 && freeList == old(freeList)
      ensures page.Some? ==>
        && cur <= MAX_ORDER && |old(freeList)[cur]| > 0 && page.value == old(freeList)[cur][0]
        && freeList == SplitDown(old(freeList)[cur := old(freeList)[cur][1..]], page.value, k, cur)
        && BlocksOf(freeList) == TakeBlock(BlocksOf(old(freeList)), page.value, k, cur)
      ensures forall i | k <= i < cur :: old(freeList)[i] == []
      ensures page.Some? ==>
        HalvesAdded(old(freeList)[cur := old(freeList)[cur][1..]], freeList, page.value, k, cur)
      ensures Canonical(BlocksOf(old(freeList)), total) ==>
        (page.None? <==> !exists x: nat :: Divides(k, x) && RunFree(BlocksOf(old(freeList)), x, k))
    {
      ghost var l := freeList;
      page, cur := TakeSmallest(k);
      SubFails(l, total, k, cur);
      NoBlocksListed(l, k, cur);
      if page.Some? {
        SplitHeads(l[cur := l[cur][1..]], page.value, k, cur);
      }
    }

    method TakeSmallest(k: nat) returns (page: Option<nat>, ghost cur: nat)
      requires Valid() && k <= MAX_ORDER
      modifies this`freeList, nrFree, order, flag
      ensures Valid() && cur >= k
      ensures NoneBetween(BlocksOf(old(freeList)), k, cur)
      ensures page.None? ==> cur == MAX_ORDER + 1 && freeList == old(freeList)
      ensures page.Some? ==>
        && cur <= MAX_ORDER && |old(freeList)[cur]| > 0 && page.value == old(freeList)[cur][0]
        && freeList == SplitDown(old(freeList)[cur := old(freeList)[cur][1..]], page.value, k, cur)
        && BlocksOf(freeList) == TakeBlock(BlocksOf(old(freeList)), page.value, k, cur)
    {
      cur := k;
      var c: nat := k;
      while c <= MAX_ORDER
        invariant Valid() && freeList == old(freeList)
        invariant k <= c <= MAX_ORDER + 1 && cur == c
        invariant forall j | k <= j < c :: freeList[j] == []
      {
        if |freeList[c]| > 0 {
          var p := Split(k, c);
          page := Some(p);
          return;
        }
        c := c + 1;
        cur := c;
      }
      page := None;
    }

    /** Takes the first block of order c off its list. */
    method TakeHead(c: nat) returns (page: nat)
      requires Valid() && c <= MAX_ORDER && |freeList[c]| > 0
      modifies this`freeList, nrFree, flag
      ensures Valid() && page == old(freeList)[c][0] && page + Pow2(c) <= total
      ensures freeList == old(freeList)[c := old(freeList)[c][1..]]
      ensures Block(page, c) in BlocksOf(old(freeList))
      ensures BlocksOf(freeList) == BlocksOf(old(freeList)) - {Block(page, c)}
      ensures forall b | b in BlocksOf(freeList) :: Apart(b, Block(page, c))
    {
      ghost var l := freeList;
      page := freeList[c][0];
      InBlocks(l, Block(page, c));
      DropBlocks(l, c, page);
      Unlink(page, c);
    }

    /** Takes the first block of order c and returns its right halves down to order k. */
    method Split(k: nat, c: nat) returns (page: nat)
      requires Valid() && k <= c <= MAX_ORDER && |freeList[c]| > 0
      modifies this`freeList, nrFree, order, flag
      ensures Valid() && page == old(freeList)[c][0]
      ensures freeList == SplitDown(old(freeList)[c := old(freeList)[c][1..]], page, k, c)
      ensures BlocksOf(freeList) == TakeBlock(BlocksOf(old(freeList)), page, k, c)
    {
      page := TakeHead(c);
      ghost var l := freeList;
      var j: nat, size: nat := c, Pow2(c);
      while j > k
        modifies this`freeList, nrFree, order, flag
        invariant Valid() && k <= j <= c && size == Pow2(j) && page + size <= total
        invariant SplitDown(freeList, page, k, j) == SplitDown(l, page, k, c)
        invariant forall b | b in BlocksOf(freeList) :: Apart(b, Block(page, j))
      {
        j := j - 1;
        size := size / 2;
        HalvesOfBlock(BlocksOf(freeList), page, j);
        PushBlocks(freeList, j, page + size);
        Link(page + size, j);
      }
      SplitDownBlocks(l, page, k, c);
    }

    /** buddy_alloc_pages. None stands for the address 0. */
    method AllocPages(n: nat) returns (page: Option<nat>, ghost k: nat, ghost cur: nat)
      requires Valid() && (n <= Pow2(MAX_ORDER) || n > now)
      modifies this`freeList, this`now, nrFree, order, flag, refs
      ensures Valid()
      ensures 0 < n <= old(now) ==> n <= Pow2(k) && (k > 0 ==> Pow2(k - 1) < n) && k <= cur && NoneBetween(BlocksOf(old(freeList)), k, cur)
      ensures page.None? ==> freeList == old(freeList) && now == old(now)
      ensures page.None? <==> n == 0 || n > old(now) || cur == MAX_ORDER + 1
      ensures Canonical(BlocksOf(old(freeList)), total) && 0 < n <= old(now) ==>
        (page.None? <==> !exists x: nat :: Divides(k, x) && RunFree(BlocksOf(old(freeList)), x, k))
      ensures page.Some? ==>
        && Served(old(freeList), freeList, page.value, n, k, cur)
        && BlocksOf(freeList) == AllocRun(BlocksOf(old(freeList)), page.value, n, k, cur)
        && now == old(now) + (Pow2(k) - n) - n
      ensures page.Some? && Aligned(BlocksOf(old(freeList))) ==> ServedOrder(old(freeList), freeList, page.value, n, k, cur)
    {
      if n <= 0 || n > now {
        return None, 0, 0;
      }
      var o := GetOrder(n);
      k := o;
      ghost var l := freeList;
      page, cur := AllocPagesSub(o);
      if page.None? {
        return;
      }
      Serve(page.value, n, o, cur, l);
      if Aligned(BlocksOf(l)) {
        ServedHeads(l, freeList, total, page.value, n, k, cur);
      }
    }

    /** Trims the block just taken for n pages, and takes them off the counter. */
    method Serve(page: nat, n: nat, k: nat, ghost cur: nat, ghost l: Lists)
      requires Valid() && Shape(l) && Wf(BlocksOf(l), total) && 0 < n <= Pow2(k) && k <= cur <= MAX_ORDER
      requires |l[cur]| > 0 && page == l[cur][0] && freeList == SplitDown(l[cur := l[cur][1..]], page, k, cur)
      requires BlocksOf(freeList) == TakeBlock(BlocksOf(l), page, k, cur)
      modifies this`freeList, this`now, nrFree, order, flag, refs
      ensures Valid() && Served(l, freeList, page, n, k, cur)
      ensures BlocksOf(freeList) == AllocRun(BlocksOf(l), page, n, k, cur)
      ensures now == old(now) + (Pow2(k) - n) - n
    {
      InBlocks(l, Block(page, cur));
      TrimTail(BlocksOf(l), page, n, k, cur);
      now := now - n;
    }

    /** Returns what lies beyond the first n of the 2^k pages just taken at page. */
    method TrimTail(ghost bs: set<Block>, page: nat, n: nat, k: nat, ghost cur: nat)
      requires Valid() && Wf(bs, total) && 0 < n <= Pow2(k) && k <= cur && Block(page, cur) in bs
      requires BlocksOf(freeList) == TakeBlock(bs, page, k, cur)
      modifies this`freeList, this`now, nrFree, order, flag, refs
      ensures Valid() && BlocksOf(freeList) == AllocRun(bs, page, n, k, cur)
      ensures now == old(now) + (Pow2(k) - n)
      ensures Trimmed(old(freeList), freeList, page, n, k)
    {
      ghost var l := freeList;
      AllocTail(bs, total, page, n, k, cur);
      Trim(page, n, k);
      TrimSpec(l, freeList, bs, page, n, k, cur);
    }

    method Trim(page: nat, n: nat, k: nat)
      requires Valid() && 0 < n <= Pow2(k) < Pow2(MAX_ORDER + 1) && page + Pow2(k) <= total
      requires Uncovered(BlocksOf(freeList), page + n, Pow2(k) - n)
      modifies this`freeList, this`now, nrFree, order, flag, refs
      ensures Valid() && now == old(now) + (Pow2(k) - n)
      ensures n == Pow2(k) ==> freeList == old(freeList)
      ensures n != Pow2(k) ==>
        && freeList == FreeRunLists(old(freeList), page + n, Pow2(k) - n, 0)
        && BlocksOf(freeList) == FreeRun(BlocksOf(old(freeList)), page + n, Pow2(k) - n, 0)
    {
      if n != Pow2(k) {
        FreePages(page + n, Pow2(k) - n);
      }
    }

    /** buddy_page_init for n pages. */
    constructor (n: nat)
      ensures Valid() && total == n && now == n
      ensures BlocksOf(freeList) == InitBlocks(0, n, MAX_ORDER)
      ensures |freeList| == 11 && forall k, i, j | 0 <= k < 11 && 0 <= i < j < |freeList[k]| :: freeList[k][i] > freeList[k][j]
      ensures if n < 1024 then freeList[10] == [] else freeList[10] != [] && freeList[10][0] == (n / 1024 - 1) * 1024
      ensures fresh(nrFree) && fresh(order) && fresh(flag) && fresh(refs)
    {
      total := n;
      now := n;
      freeList := seq(MAX_ORDER + 1, _ => []);
      nrFree := new int[MAX_ORDER + 1](_ => 0);
      order := new nat[n](_ => 0);
      flag := new bool[n](_ => false);
      refs := new int[n](_ => 0);
      new;
      assert BlocksOf(freeList) == {};
      LayOut();
      TopHead(freeList, n);
      assert forall k | 0 <= k < 11 :: Descending(freeList[k]);
    }

    /** The loops of buddy_page_init: as many blocks as fit, the largest order first. */
    method LayOut()
      requires Valid() && BlocksOf(freeList) == {} && AllDescending(freeList)
      modifies this`freeList, nrFree, order, flag
      ensures Valid() && BlocksOf(freeList) == InitBlocks(0, total, MAX_ORDER) && AllDescending(freeList)
    {
      var p: nat, left: nat, k: nat, size: nat := 0, total, MAX_ORDER, Pow2(MAX_ORDER);
      while left != 0
        modifies this`freeList, nrFree, order, flag
        invariant Valid() && k <= MAX_ORDER && size == Pow2(k) && p + left == total
        invariant InFrontOf(freeList, p) && WithRest(freeList, p, left, k) == InitBlocks(0, total, MAX_ORDER)
        invariant AllDescending(freeList)
        decreases left, k
      {
        p, left := LayOutOrder(p, left, k, size);
        if k == 0 {
          break;
        }
        k := k - 1;
        size := size / 2;
      }
    }

    method LayOutOrder(p0: nat, left0: nat, k: nat, size: nat) returns (p: nat, left: nat)
      requires Valid() && k <= MAX_ORDER && size == Pow2(k) && p0 + left0 == total
      requires InFrontOf(freeList, p0) && AllDescending(freeList)
      modifies this`freeList, nrFree, order, flag
      ensures Valid() && p + left == total && left < size && left <= left0 && AllDescending(freeList)
      ensures InFrontOf(freeList, p) && WithRest(freeList, p, left, k) == WithRest(old(freeList), p0, left0, k)
    {
      p, left := p0, left0;
      while left >= size
        modifies this`freeList, nrFree, order, flag
        invariant Valid() && p + left == total && left <= left0 && AllDescending(freeList)
        invariant InFrontOf(freeList, p) && WithRest(freeList, p, left, k) == WithRest(old(freeList), p0, left0, k)
        decreases left
      {
        LayOutBlock(p, left, k, size);
        left := left - size;
        p := p + size;
      }
    }

    method LayOutBlock(p: nat, left: nat, k: nat, size: nat)
      requires Valid() && k <= MAX_ORDER && size == Pow2(k) <= left && p + left == total && InFrontOf(freeList, p)
      requires AllDescending(freeList)
      modifies this`freeList, nrFree, order, flag
      ensures Valid() && InFrontOf(freeList, p + size) && AllDescending(freeList)
      ensures WithRest(freeList, p + size, left - size, k) == WithRest(old(freeList), p, left, k)
    {
      ApartBehind(freeList, p, k);
      PushDescends(freeList, k, p);
      Link(p, k);
      LaidOneMore(old(freeList), freeList, p, left, k, size);
    }
  }

  ghost predicate InFrontOf(l: Lists, p: nat) {
    forall b | b in BlocksOf(l) :: b.End() <= p
  }

  /** The blocks laid out so far and those still to be laid out from page p on. */
  ghost function WithRest(l: Lists, p: nat, left: nat, k: nat): set<Block> {
    BlocksOf(l) + InitBlocks(p, left, k)
  }

  /** Laying out the next block of order k behind all others. */
  lemma LaidOneMore(l: Lists, l': Lists, p: nat, left: nat, k: nat, size: nat)
    requires Shape(l) && k <= MAX_ORDER && size == Pow2(k) <= left && InFrontOf(l, p)
    requires l' == Push(l, k, p)
    ensures InFrontOf(l', p + size) && WithRest(l', p + size, left - size, k) == WithRest(l, p, left, k)
  {
    PushBlocks(l, k, p);
    assert InitBlocks(p, left, k) == {Block(p, k)} + InitBlocks(p + size, left - size, k);
  }

  lemma ApartBehind(l: Lists, p: nat, k: nat)
    requires InFrontOf(l, p)
    ensures forall b | b in BlocksOf(l) :: Apart(b, Block(p, k))
  {
  }

  /** Free blocks apart from a block are apart from its halves. */
  lemma HalvesOfBlock(bs: set<Block>, page: nat, j: nat)
    requires forall b | b in bs :: Apart(b, Block(page, j + 1))
    ensures forall b | b in bs :: Apart(b, Block(page + Pow2(j), j))
    ensures forall b | b in bs + {Block(page + Pow2(j), j)} :: Apart(b, Block(page, j))
  {
  }

  /** The tail that a request leaves is in range and not free. */
  lemma AllocTail(bs: set<Block>, total: nat, page: nat, n: nat, k: nat, cur: nat)
    requires Wf(bs, total) && 0 < n <= Pow2(k) && k <= cur && Block(page, cur) in bs
    ensures Uncovered(TakeBlock(bs, page, k, cur), page + n, Pow2(k) - n)
    ensures page + Pow2(k) <= total && Pow2(k) < Pow2(MAX_ORDER + 1)
    ensures n == Pow2(k) ==> AllocRun(bs, page, n, k, cur) == TakeBlock(bs, page, k, cur)
  {
    TakeBlockPages(bs, total, page, k, cur);
    Pow2Monotonic(k, cur);
    Pow2Monotonic(cur, MAX_ORDER);
  }

  /** In a canonical state a search that ends at order cur has failed exactly if no aligned run of
      2^k pages is free. */
  lemma SubFails(l: Lists, total: nat, k: nat, cur: nat)
    requires Shape(l) && k <= MAX_ORDER && k <= cur <= MAX_ORDER + 1 && NoneBetween(BlocksOf(l), k, cur)
    requires cur <= MAX_ORDER ==> |l[cur]| > 0
    ensures Canonical(BlocksOf(l), total) ==>
      (cur == MAX_ORDER + 1 <==> !exists x: nat :: Divides(k, x) && RunFree(BlocksOf(l), x, k))
  {
    if Canonical(BlocksOf(l), total) {
      NoBlockIffNoRun(BlocksOf(l), total, k);
      if cur <= MAX_ORDER {
        InBlocks(l, Block(l[cur][0], cur));
        assert Block(l[cur][0], cur) in BlocksOf(l);
      }
    }
  }

  lemma TrimSpec(l: Lists, l': Lists, bs: set<Block>, page: nat, n: nat, k: nat, cur: nat)
    requires |l| == MAX_ORDER + 1 && n <= Pow2(k) < Pow2(MAX_ORDER + 1) && k <= cur
    requires BlocksOf(l) == TakeBlock(bs, page, k, cur)
    requires if n == Pow2(k) then l' == l
      else l' == FreeRunLists(l, page + n, Pow2(k) - n, 0) && BlocksOf(l') == FreeRun(BlocksOf(l), page + n, Pow2(k) - n, 0)
    ensures Trimmed(l, l', page, n, k) && BlocksOf(l') == AllocRun(bs, page, n, k, cur)
  {
  }

  /** n & size, for size a power of two. */
  method TestBit(n: nat, size: nat, ghost k: nat) returns (odd: bool)
    requires size == Pow2(k)
    ensures odd <==> BitSet(n, k)
  {
    BitSetIs(n, k);
    odd := (n / size) % 2 != 0;
  }

  /** What bit k of n means for the run of n pages at base. */
  lemma BitSplit(l: Lists, base: nat, n: nat, k: nat, odd: bool)
    requires |l| == MAX_ORDER + 1 && Divides(k, n) && Pow2(k) <= n < Pow2(MAX_ORDER + 1)
    requires odd <==> BitSet(n, k)
    ensures k <= MAX_ORDER && (odd ==> Divides(k + 1, n - Pow2(k))) && (!odd ==> Divides(k + 1, n))
    ensures FreeRunLists(l, base, n, k)
      == if odd then FreeRunLists(FreeBlockLists(l, base, k), base + Pow2(k), n - Pow2(k), k + 1)
         else FreeRunLists(l, base, n, k + 1)
    ensures FreeRun(BlocksOf(l), base, n, k)
      == if odd then FreeRun(FreeBlock(BlocksOf(l), base, k), base + Pow2(k), n - Pow2(k), k + 1)
         else FreeRun(BlocksOf(l), base, n, k + 1)
  {
    NextBit(n, k);
    FreeRunListsStep(l, base, n, k);
    FreeRunStep(BlocksOf(l), base, n, k);
  }

  /** What remains apart when a block merges with its free buddy. */
  lemma MergedApart(bs: set<Block>, total: nat, x: nat, k: nat)
    requires Wf(bs, total) && x + Pow2(k) <= total && Block(Buddy(x, k), k) in bs
    requires forall b | b in bs :: Apart(b, Block(x, k))
    ensures forall b | b in bs - {Block(Buddy(x, k), k)} :: Apart(b, Block(Merged(x, k), k + 1))
    ensures Merged(x, k) + Pow2(k + 1) <= total
  {
  }
}
