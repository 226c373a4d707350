/** The block list of mm/slob.c as a sequence of blocks in address order. */
module SlobBlocks {
  import opened Common

  const HEADER: nat := 12               // sizeof(slob_block_t)
  const MIN_PART: nat := 0x20           // SLOB_MIN_PART
  const ARENA: nat := 1024 * 4096       // SLOB_PAGE_COUNT * PAGE_SIZE

  /** A header at addr followed by len bytes of payload. */
  datatype Block = Block(addr: nat, used: bool, len: nat) {
    function Payload(): nat { addr + HEADER }

    function End(): nat { addr + HEADER + len }
  }

  /** The blocks fill [start, end) without gap or overlap, in address order. */
  ghost predicate Tiles(bs: seq<Block>, start: nat, end: nat) {
    if bs == [] then start == end
    else bs[0].addr == start && bs[0].End() <= end && Tiles(bs[1..], bs[0].End(), end)
  }

  /** No two neighbours are both free. */
  ghost predicate Glued(bs: seq<Block>) {
    forall i, j {:trigger bs[i], bs[j]} | 0 <= i < j < |bs| && j == i + 1 :: bs[i].used || bs[j].used
  }

  ghost predicate HeapOk(bs: seq<Block>, base: nat) {
    Tiles(bs, base, base + ARENA) && Glued(bs)
  }

  // ---------- tilings ----------

  lemma {:induction false} TilesConcat(as_: seq<Block>, bs: seq<Block>, start: nat, mid: nat, end: nat)
    requires Tiles(as_, start, mid) && Tiles(bs, mid, end)
    ensures Tiles(as_ + bs, start, end)
  {
    if as_ == [] {
      assert as_ + bs == bs;
    } else {
      TilesConcat(as_[1..], bs, as_[0].End(), mid, end);
      assert (as_ + bs)[1..] == as_[1..] + bs;
      TilesMonotone(bs, mid, end);
      TilesMonotone(as_, start, mid);
    }
  }

  lemma {:induction false} TilesMonotone(bs: seq<Block>, start: nat, end: nat)
    requires Tiles(bs, start, end)
    ensures start <= end && (bs != [] ==> start < end)
  {
  }

  /** A tiling splits at any of its blocks. */
  lemma {:induction false} TilesSplit(bs: seq<Block>, start: nat, end: nat, i: nat) returns (mid: nat)
    requires Tiles(bs, start, end) && i <= |bs|
    ensures Tiles(bs[..i], start, mid) && Tiles(bs[i..], mid, end)
    ensures i < |bs| ==> bs[i].addr == mid
  {
    if i == 0 {
      mid := start;
      assert bs[..0] == [] && bs[0..] == bs;
    } else {
      mid := TilesSplit(bs[1..], bs[0].End(), end, i - 1);
      assert bs[..i][1..] == bs[1..][..i - 1];
      assert bs[1..][i - 1..] == bs[i..];
      TilesMonotone(bs[1..][..i - 1], bs[0].End(), mid);
    }
  }

  /** Earlier blocks end before later ones begin, and all lie inside. */
  lemma {:induction false} TilesOrder(bs: seq<Block>, start: nat, end: nat, i: nat, j: nat)
    requires Tiles(bs, start, end) && i <= j < |bs|
    ensures start <= bs[i].addr && bs[j].End() <= end
    ensures i < j ==> bs[i].End() <= bs[j].addr
  {
    if j > 0 {
      TilesOrder(bs[1..], bs[0].End(), end, if i == 0 then 0 else i - 1, j - 1);
    }
  }

  /** Different blocks of a tiling do not overlap. */
  lemma BlocksApart(bs: seq<Block>, start: nat, end: nat, a: Block, b: Block)
    requires Tiles(bs, start, end) && a in bs && b in bs && a != b
    ensures a.End() <= b.addr || b.End() <= a.addr
    ensures start <= a.addr && a.End() <= end
  {
    var i :| 0 <= i < |bs| && bs[i] == a;
    var j :| 0 <= j < |bs| && bs[j] == b;
    if i < j {
      TilesOrder(bs, start, end, i, j);
    } else {
      TilesOrder(bs, start, end, j, i);
    }
    TilesOrder(bs, start, end, i, i);
  }

  /** Headers and payloads together account for every byte of the arena. */
  ghost function Bytes(bs: seq<Block>): nat {
    if bs == [] then 0 else HEADER + bs[0].len + Bytes(bs[1..])
  }

  lemma {:induction false} TilesConserves(bs: seq<Block>, start: nat, end: nat)
    requires Tiles(bs, start, end)
    ensures start + Bytes(bs) == end
  {
    if bs != [] {
      TilesConserves(bs[1..], bs[0].End(), end);
    }
  }

  // ---------- kmalloc ----------

  /** The length a request asks for, in 32-bit arithmetic. */
  function Wanted(size: nat): nat {
    ((if size > MIN_PART then size else MIN_PART) + HEADER) % WORD
  }

  predicate Fits(b: Block, len: nat) { !b.used && b.len > len }

  /** The first block that fits, or |bs|. */
  function FirstFit(bs: seq<Block>, len: nat): (i: nat)
    ensures i <= |bs|
    ensures i < |bs| ==> Fits(bs[i], len)
    ensures forall j | 0 <= j < i :: !Fits(bs[j], len)
  {
    if bs == [] then 0 else if Fits(bs[0], len) then 0 else 1 + FirstFit(bs[1..], len)
  }

  lemma FirstFitIs(bs: seq<Block>, len: nat, k: nat)
    requires k <= |bs| && (k < |bs| ==> Fits(bs[k], len)) && forall j | 0 <= j < k :: !Fits(bs[j], len)
    ensures FirstFit(bs, len) == k
  {
  }

  /** Whether split_chunk cuts the block. */
  predicate Splits(b: Block, len: nat) { b.len - len > HEADER + MIN_PART }

  /** split_chunk on block i: outside the split test the block is neither cut nor marked used. */
  function SplitAt(bs: seq<Block>, i: nat, len: nat): seq<Block>
    requires i < |bs| && bs[i].len > len
  {
    var b := bs[i];
    if Splits(b, len) then
      bs[..i] + [Block(b.addr, true, len), Block(b.addr + HEADER + len, false, b.len - len - HEADER)] + bs[i + 1..]
    else bs
  }

  function Kmalloc(bs: seq<Block>, size: nat): (seq<Block>, Option<nat>) {
    var len := Wanted(size);
    var i := FirstFit(bs, len);
    if i < |bs| then (SplitAt(bs, i, len), Some(bs[i].Payload())) else (bs, None)
  }

  lemma KmallocIs(bs: seq<Block>, size: nat, k: nat)
    requires k == FirstFit(bs, Wanted(size))
    ensures Kmalloc(bs, size)
      == if k < |bs| then (SplitAt(bs, k, Wanted(size)), Some(bs[k].Payload())) else (bs, None)
  {
  }

  lemma SplitKeepsHeap(bs: seq<Block>, base: nat, i: nat, len: nat)
    requires HeapOk(bs, base) && i < |bs| && Fits(bs[i], len)
    ensures HeapOk(SplitAt(bs, i, len), base)
  {
    var b := bs[i];
    if Splits(b, len) {
      var mid := TilesSplit(bs, base, base + ARENA, i);
      var two := [Block(b.addr, true, len), Block(b.addr + HEADER + len, false, b.len - len - HEADER)];
      assert bs[i..][1..] == bs[i + 1..];
      assert two[1..][1..] == [];
      assert Tiles(two[1..], two[0].End(), b.End());
      assert Tiles(two, mid, b.End());
      TilesConcat(two, bs[i + 1..], mid, b.End(), base + ARENA);
      TilesConcat(bs[..i], two + bs[i + 1..], base, mid, base + ARENA);
      var bs' := SplitAt(bs, i, len);
      assert bs' == bs[..i] + (two + bs[i + 1..]);
      forall j | 0 <= j < |bs'| - 1 ensures bs'[j].used || bs'[j + 1].used {
        if j + 1 < i {
          assert bs[j].used || bs[j + 1].used;
        } else if j > i + 1 {
          assert bs'[j] == bs[j - 1] && bs'[j + 1] == bs[j];
          assert bs[j - 1].used || bs[j - 1 + 1].used;
        } else if j == i + 1 {
          assert bs'[j + 1] == bs[i + 1];
        }
      }
    }
  }

  /** kmalloc keeps the tiling, and it returns NULL exactly if no free block is long enough. */
  lemma KmallocKeepsHeap(bs: seq<Block>, base: nat, size: nat)
    requires HeapOk(bs, base)
    ensures HeapOk(Kmalloc(bs, size).0, base)
    ensures Kmalloc(bs, size).1.None? <==> forall b | b in bs :: !Fits(b, Wanted(size))
  {
    var len := Wanted(size);
    var i := FirstFit(bs, len);
    if i < |bs| {
      SplitKeepsHeap(bs, base, i, len);
      assert bs[i] in bs;
    }
  }

  // ---------- kfree ----------

  /** chunk i absorbs chunk i + 1. */
  function Absorb(bs: seq<Block>, i: nat): seq<Block>
    requires i + 1 < |bs|
  {
    bs[..i] + [bs[i].(len := bs[i].len + bs[i + 1].len + HEADER)] + bs[i + 2..]
  }

  /** glue_chunk on block i. */
  function Glue(bs: seq<Block>, i: nat): seq<Block>
    requires i < |bs|
  {
    var j := if i > 0 && !bs[i - 1].used then i - 1 else i;
    var bs' := if j < i then Absorb(bs, j) else bs;
    if j + 1 < |bs'| && !bs'[j + 1].used then Absorb(bs', j) else bs'
  }

  /** kfree of the payload of block i. */
  function Kfree(bs: seq<Block>, i: nat): seq<Block>
    requires i < |bs|
  {
    if !bs[i].used then bs else Glue(bs[i := bs[i].(used := false)], i)
  }

  lemma AbsorbKeepsTiling(bs: seq<Block>, start: nat, end: nat, i: nat)
    requires Tiles(bs, start, end) && i + 1 < |bs|
    ensures Tiles(Absorb(bs, i), start, end)
  {
    var mid := TilesSplit(bs, start, end, i);
    var b := bs[i].(len := bs[i].len + bs[i + 1].len + HEADER);
    assert bs[i..][1..] == bs[i + 1..] && bs[i + 1..][1..] == bs[i + 2..];
    TilesMonotone(bs[i + 2..], b.End(), end);
    assert ([b] + bs[i + 2..])[1..] == bs[i + 2..];
    assert Tiles([b] + bs[i + 2..], mid, end);
    TilesConcat(bs[..i], [b] + bs[i + 2..], start, mid, end);
    assert Absorb(bs, i) == bs[..i] + ([b] + bs[i + 2..]);
  }

  lemma {:induction false} TilesUnmarked(bs: seq<Block>, start: nat, end: nat, i: nat, used: bool)
    requires Tiles(bs, start, end) && i < |bs|
    ensures Tiles(bs[i := bs[i].(used := used)], start, end)
  {
    var bs' := bs[i := bs[i].(used := used)];
    if i > 0 {
      TilesUnmarked(bs[1..], bs[0].End(), end, i - 1, used);
      assert bs'[1..] == bs[1..][i - 1 := bs[1..][i - 1].(used := used)];
    } else {
      assert bs'[1..] == bs[1..];
    }
  }

  /** Two neighbours are both free only where block i is involved. */
  ghost predicate GluedBut(bs: seq<Block>, i: nat) {
    forall j, k {:trigger bs[j], bs[k]} | 0 <= j < k < |bs| && k == j + 1 && j != i && k != i :: bs[j].used || bs[k].used
  }

  lemma AbsorbLeft(bs: seq<Block>, i: nat)
    requires i < |bs| && i > 0 && !bs[i - 1].used && !bs[i].used && GluedBut(bs, i)
    requires i > 1 ==> bs[i - 2].used
    ensures var bs' := Absorb(bs, i - 1);
      GluedBut(bs', i - 1) && (i > 1 ==> bs'[i - 2].used) && !bs'[i - 1].used
  {
  }

  lemma AbsorbRight(bs: seq<Block>, i: nat)
    requires i + 1 < |bs| && !bs[i].used && !bs[i + 1].used && GluedBut(bs, i)
    requires i > 0 ==> bs[i - 1].used
    ensures Glued(Absorb(bs, i))
  {
  }

  /** kfree keeps the tiling and leaves no two free neighbours. */
  lemma KfreeKeepsHeap(bs: seq<Block>, base: nat, i: nat)
    requires HeapOk(bs, base) && i < |bs|
    ensures HeapOk(Kfree(bs, i), base)
  {
    if bs[i].used {
      var bs1 := bs[i := bs[i].(used := false)];
      TilesUnmarked(bs, base, base + ARENA, i, false);
      forall j | 0 <= j < |bs1| - 1 && j != i && j + 1 != i ensures bs1[j].used || bs1[j + 1].used {
        assert bs[j].used || bs[j + 1].used;
      }
      GlueKeepsHeap(bs1, base, i);
    }
  }

  lemma GlueKeepsHeap(bs: seq<Block>, base: nat, i: nat)
    requires Tiles(bs, base, base + ARENA) && i < |bs| && !bs[i].used && GluedBut(bs, i)
    ensures HeapOk(Glue(bs, i), base)
  {
    var j := if i > 0 && !bs[i - 1].used then i - 1 else i;
    var bs' := if j < i then Absorb(bs, j) else bs;
    if j < i {
      AbsorbKeepsTiling(bs, base, base + ARENA, j);
      assert i > 1 ==> bs[i - 2].used;
      AbsorbLeft(bs, i);
    }
    if j + 1 < |bs'| && !bs'[j + 1].used {
      AbsorbKeepsTiling(bs', base, base + ARENA, j);
      AbsorbRight(bs', j);
    } else {
      forall k | 0 <= k < |bs'| - 1 ensures bs'[k].used || bs'[k + 1].used {
        if k != j && k + 1 != j {
          assert bs'[k].used || bs'[k + 1].used;
        }
      }
    }
  }

  // ---------- the used blocks determine the list ----------

  ghost function UsedBlocks(bs: seq<Block>): set<Block> { set b | b in bs && b.used }

  /** The first used block, with everything before it one free block at most. */
  lemma {:induction false} UsedDetermine(as_: seq<Block>, bs: seq<Block>, start: nat, end: nat)
    requires Tiles(as_, start, end) && Glued(as_) && Tiles(bs, start, end) && Glued(bs)
    requires UsedBlocks(as_) == UsedBlocks(bs)
    ensures as_ == bs
  {
    if as_ == [] {
      TilesMonotone(bs, start, end);
    } else if bs == [] {
      TilesMonotone(as_, start, end);
    } else if as_[0] == bs[0] {
      TailUsed(as_, start, end);
      TailUsed(bs, start, end);
      GluedTail(as_);
      GluedTail(bs);
      UsedDetermine(as_[1..], bs[1..], as_[0].End(), end);
      assert as_ == [as_[0]] + as_[1..] && bs == [bs[0]] + bs[1..];
    } else {
      FirstBlocksAgree(as_, bs, start, end);
      assert false;
    }
  }

  lemma GluedTail(bs: seq<Block>)
    requires bs != [] && Glued(bs)
    ensures Glued(bs[1..])
  {
  }

  /** The first block is not among the used blocks of the rest. */
  lemma TailUsed(bs: seq<Block>, start: nat, end: nat)
    requires Tiles(bs, start, end) && bs != []
    ensures UsedBlocks(bs[1..]) == UsedBlocks(bs) - {bs[0]}
  {
    forall b | b in bs[1..] ensures b != bs[0] {
      var j :| 0 <= j < |bs[1..]| && bs[1..][j] == b;
      TilesOrder(bs, start, end, 0, j + 1);
    }
    assert forall b :: b in bs <==> b == bs[0] || b in bs[1..];
  }

  lemma FirstBlocksAgree(as_: seq<Block>, bs: seq<Block>, start: nat, end: nat)
    requires Tiles(as_, start, end) && Glued(as_) && Tiles(bs, start, end) && Glued(bs)
    requires as_ != [] && bs != [] && UsedBlocks(as_) == UsedBlocks(bs)
    ensures as_[0] == bs[0]
  {
    if as_[0].used {
      UsedFirst(as_, bs, start, end);
    } else if bs[0].used {
      UsedFirst(bs, as_, start, end);
    } else {
      FreeFirst(as_, bs, start, end);
      FreeFirst(bs, as_, start, end);
    }
  }

  lemma UsedFirst(as_: seq<Block>, bs: seq<Block>, start: nat, end: nat)
    requires Tiles(as_, start, end) && Tiles(bs, start, end) && as_ != [] && bs != []
    requires as_[0].used && UsedBlocks(as_) == UsedBlocks(bs)
    ensures as_[0] == bs[0]
  {
    assert as_[0] in UsedBlocks(bs);
    var j :| 0 <= j < |bs| && bs[j] == as_[0];
    TilesOrder(bs, start, end, 0, j);
  }

  /** A free first block of bs ends no later than one of as_, since what follows it is used. */
  lemma FreeFirst(as_: seq<Block>, bs: seq<Block>, start: nat, end: nat)
    requires Tiles(as_, start, end) && Glued(as_) && Tiles(bs, start, end) && Glued(bs)
    requires as_ != [] && bs != [] && !as_[0].used && !bs[0].used && UsedBlocks(as_) == UsedBlocks(bs)
    ensures bs[0].End() <= as_[0].End()
  {
    if |as_| == 1 {
      assert Tiles(as_[1..], as_[0].End(), end);
    } else {
      var u := as_[1];
      assert as_[0].used || as_[0 + 1].used;
      assert u in UsedBlocks(as_);
      var j :| 0 <= j < |bs| && bs[j] == u;
      TilesOrder(bs, start, end, 0, j);
      TilesOrder(as_, start, end, 0, 1);
      assert Tiles(as_[1..], as_[0].End(), end);
    }
  }

  /** Once nothing is used the heap is back to the one block that slob_init made. */
  lemma AllFreeIsInitial(bs: seq<Block>, base: nat)
    requires HeapOk(bs, base) && UsedBlocks(bs) == {}
    ensures bs == [Block(base, false, 4194292)]
  {
    var init := [Block(base, false, ARENA - HEADER)];
    assert init[1..] == [];
    assert Tiles(init, base, base + ARENA);
    UsedDetermine(bs, init, base, base + ARENA);
  }

  // ---------- what a request gets ----------

  /** kmalloc followed by kfree of the same block restores the list, whether or not it was split. */
  lemma FreeUndoesMalloc(bs: seq<Block>, base: nat, size: nat, i: nat)
    requires HeapOk(bs, base) && i == FirstFit(bs, Wanted(size)) && i < |bs|
    ensures i < |Kmalloc(bs, size).0| && Kmalloc(bs, size).0[i].addr == bs[i].addr
    ensures Kfree(Kmalloc(bs, size).0, i) == bs
  {
  }

  /** The block handed out is the lowest-addressed one that fits, and its payload lies in the arena. */
  lemma LowestFit(bs: seq<Block>, base: nat, size: nat, j: nat)
    requires HeapOk(bs, base) && j < |bs| && Fits(bs[j], Wanted(size))
    ensures Kmalloc(bs, size).1.Some?
    ensures base + HEADER <= Kmalloc(bs, size).1.value <= bs[j].Payload()
  {
    var i := FirstFit(bs, Wanted(size));
    TilesOrder(bs, base, base + ARENA, i, j);
  }

  /** What a request needs in bytes: at least 32 and 12 for the header, in 32 bits. */
  lemma RequestNeeds(size: nat)
    requires size < 0x1_0000_0000
    ensures size <= 0x20 ==> Wanted(size) == 44
    ensures size > 0x20 ==> Wanted(size) == if size + 12 < 0x1_0000_0000 then size + 12 else size + 12 - 0x1_0000_0000
  {
  }

  /** A request fails, and changes nothing, exactly if each free block is at most as long as what
      the request needs. */
  lemma FailsIffAllTooShort(bs: seq<Block>, size: nat)
    requires size < 0x1_0000_0000
    ensures var (bs', r) := Kmalloc(bs, size);
      var m := if size <= 0x20 then 44 else if size + 12 < 0x1_0000_0000 then size + 12 else size + 12 - 0x1_0000_0000;
      && (r.None? <==> forall b | b in bs :: b.used || b.len <= m)
      && (r.None? ==> bs' == bs)
  {
    RequestNeeds(size);
    var i := FirstFit(bs, Wanted(size));
    assert i < |bs| ==> bs[i] in bs;
  }

  /** Otherwise it is served from the first free block longer than that. If more than 44 bytes are
      left over, the block becomes one that is used and exactly as long as needed, followed by a
      free one with the rest; else nothing is marked or cut. */
  lemma ServedFromFirstLonger(bs: seq<Block>, size: nat, i: nat, m: nat)
    requires size < 0x1_0000_0000 && i < |bs|
    requires m == if size <= 0x20 then 44 else if size + 12 < 0x1_0000_0000 then size + 12 else size + 12 - 0x1_0000_0000
    requires !bs[i].used && bs[i].len > m && forall j | 0 <= j < i :: bs[j].used || bs[j].len <= m
    ensures var (bs', r) := Kmalloc(bs, size);
      && r.Some? && r.value == bs[i].addr + 12
      && bs' == if bs[i].len - m > 44 then
          bs[..i] + [Block(bs[i].addr, true, m), Block(bs[i].addr + 12 + m, false, bs[i].len - m - 12)] + bs[i + 1..]
        else bs
  {
    RequestNeeds(size);
    FirstFitIs(bs, m, i);
  }

  /** The heap that slob_init leaves serves exactly the requests of at most 4194279 bytes, and those
      whose length wraps around. */
  lemma FreshHeapServes(base: nat, size: nat)
    requires size < 0x1_0000_0000
    ensures Kmalloc([Block(base, false, 4194292)], size).1.Some? <==> size < 4194280 || size >= 0xFFFF_FFF4
    ensures Kmalloc([Block(base, false, 4194292)], size).1.Some? ==>
      Kmalloc([Block(base, false, 4194292)], size).1.value == base + 12
  {
    var b := Block(base, false, 4194292);
    FailsIffAllTooShort([b], size);
    assert b in [b];
  }

  /** The served block is marked used exactly if more than 44 bytes are left over; otherwise nothing
      changes, so the very same address is handed out again to the next such request. */
  lemma ServedAgainIffUnsplit(bs: seq<Block>, base: nat, size: nat, i: nat, m: nat)
    requires HeapOk(bs, base) && size < 0x1_0000_0000 && i < |bs|
    requires m == if size <= 0x20 then 44 else if size + 12 < 0x1_0000_0000 then size + 12 else size + 12 - 0x1_0000_0000
    requires !bs[i].used && bs[i].len > m && forall j | 0 <= j < i :: bs[j].used || bs[j].len <= m
    ensures var (bs', r) := Kmalloc(bs, size);
      Kmalloc(bs', size).1 == r <==> bs[i].len - m <= 44
  {
    ServedFromFirstLonger(bs, size, i, m);
    RequestNeeds(size);
    var bs' := SplitAt(bs, i, m);
    if bs[i].len - m > 44 {
      SplitKeepsHeap(bs, base, i, m);
      var j := FirstFit(bs', m);
      if j < |bs'| {
        assert bs'[i].used && bs'[i].addr == bs[i].addr;
        if j > i {
          TilesOrder(bs', base, base + ARENA, i, j);
        }
      }
    }
  }

  /** Such a request on the initial list: the block is one byte longer than needed. */
  lemma UnsplitRequest(base: nat)
    ensures var bs := [Block(base, false, 4194292)]; var (bs', r) := Kmalloc(bs, 4194279);
      bs' == bs && r.Some? && r.value == base + 12
  {
    ServedFromFirstLonger([Block(base, false, 4194292)], 4194279, 0, 4194291);
  }

  /** The block that a request gets holds the requested bytes exactly if the request does not wrap
      around. */
  lemma HoldsRequestIffNoWrap(bs: seq<Block>, base: nat, size: nat, i: nat, m: nat)
    requires HeapOk(bs, base) && size < 0x1_0000_0000 && i < |bs|
    requires m == if size <= 0x20 then 44 else if size + 12 < 0x1_0000_0000 then size + 12 else size + 12 - 0x1_0000_0000
    requires !bs[i].used && bs[i].len > m && forall j | 0 <= j < i :: bs[j].used || bs[j].len <= m
    ensures var (bs', r) := Kmalloc(bs, size);
      && i < |bs'| && r.Some? && bs'[i].addr + 12 == r.value
      && (bs'[i].len >= size <==> size + 12 < 0x1_0000_0000)
  {
    ServedFromFirstLonger(bs, size, i, m);
    TilesOrder(bs, base, base + ARENA, i, i);
  }

  /** Such a request on the initial list: of nearly 2^32 bytes the caller gets four. */
  lemma WrappedRequest(base: nat)
    ensures var (bs', r) := Kmalloc([Block(base, false, 4194292)], 0xFFFF_FFF8);
      && bs' == [Block(base, true, 4), Block(base + 16, false, 4194276)]
      && r.Some? && r.value == base + 12
  {
    var bs := [Block(base, false, 4194292)];
    ServedFromFirstLonger(bs, 0xFFFF_FFF8, 0, 4);
    assert bs[..0] == [] && bs[1..] == [];
  }
}
