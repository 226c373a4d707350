/** Every run of the slob heap: kmalloc and kfree in any order. */
module SlobRuns {
  import opened Common
  import opened SlobBlocks

  /** What a caller holds: the size it asked for, and the length that kmalloc made of it. */
  datatype Grant = Grant(size: nat, len: nat)

  /** The heap, and what has been handed out at which address and not yet returned. */
  datatype State = State(bs: seq<Block>, live: map<nat, Grant>)

  ghost predicate Init(s: State, base: nat) {
    s == State([Block(base, false, ARENA - HEADER)], map[])
  }

  ghost predicate Mallocs(s: State, s': State, size: nat) {
    && size < WORD
    && var (bs', r) := Kmalloc(s.bs, size);
    s' == State(bs', if r.None? then s.live else s.live[r.value := Grant(size, Wanted(size))])
  }

  /** kfree of a listed block; a grant at its payload, if there is one, ends. */
  ghost predicate Frees(s: State, s': State, i: nat) {
    && i < |s.bs|
    && s' == State(Kfree(s.bs, i), s.live - {s.bs[i].Payload()})
  }

  ghost predicate Step(s: State, s': State) {
    (exists size: nat :: Mallocs(s, s', size)) || (exists i: nat :: Frees(s, s', i))
  }

  ghost predicate IsRun(tr: seq<State>, base: nat) {
    && |tr| > 0 && Init(tr[0], base)
    && forall i | 0 <= i < |tr| - 1 :: Step(tr[i], tr[i + 1])
  }

  lemma InitHeapOk(s: State, base: nat)
    requires Init(s, base)
    ensures HeapOk(s.bs, base)
  {
  }

  lemma StepHeapOk(s: State, s': State, base: nat)
    requires HeapOk(s.bs, base) && Step(s, s')
    ensures HeapOk(s'.bs, base)
  {
    if size: nat :| Mallocs(s, s', size) {
      KmallocKeepsHeap(s.bs, base, size);
    } else {
      var i: nat :| Frees(s, s', i);
      KfreeKeepsHeap(s.bs, base, i);
    }
  }

  /** In every run the blocks tile the arena, account for all its bytes, and no two free ones touch. */
  lemma {:induction false} RunTiles(tr: seq<State>, base: nat, i: nat)
    requires IsRun(tr, base) && i < |tr|
    ensures HeapOk(tr[i].bs, base) && Bytes(tr[i].bs) == ARENA
  {
    if i == 0 {
      InitHeapOk(tr[0], base);
    } else {
      RunTiles(tr, base, i - 1);
      assert Step(tr[i - 1], tr[i - 1 + 1]);
      StepHeapOk(tr[i - 1], tr[i], base);
    }
    TilesConserves(tr[i].bs, base, base + ARENA);
  }

  /** States of any two runs with the same used blocks have the same list; with none used, the
      list is the initial one. */
  lemma UsedBlocksDetermineList(tr: seq<State>, tr2: seq<State>, base: nat, i: nat, j: nat)
    requires IsRun(tr, base) && i < |tr| && IsRun(tr2, base) && j < |tr2|
    requires UsedBlocks(tr[i].bs) == UsedBlocks(tr2[j].bs)
    ensures tr[i].bs == tr2[j].bs
    ensures UsedBlocks(tr[i].bs) == {} ==> tr[i].bs == tr[0].bs
  {
    RunTiles(tr, base, i);
    RunTiles(tr2, base, j);
    UsedDetermine(tr[i].bs, tr2[j].bs, base, base + ARENA);
    if UsedBlocks(tr[i].bs) == {} {
      AllFreeIsInitial(tr[i].bs, base);
    }
  }

  // ---------- runs in which every served block is split ----------

  /** The requests whose block passes the split test and whose length does not wrap. */
  ghost predicate WellServed(s: State, size: nat) {
    var i := FirstFit(s.bs, Wanted(size));
    i < |s.bs| ==> Splits(s.bs[i], Wanted(size)) && size + HEADER < WORD
  }

  /** In numbers: more than 44 bytes are left over in the first free block longer than needed. */
  lemma WellServedIff(s: State, size: nat, i: nat, m: nat)
    requires size < 0x1_0000_0000 && i < |s.bs|
    requires m == if size <= 0x20 then 44 else if size + 12 < 0x1_0000_0000 then size + 12 else size + 12 - 0x1_0000_0000
    requires !s.bs[i].used && s.bs[i].len > m && forall j | 0 <= j < i :: s.bs[j].used || s.bs[j].len <= m
    ensures WellServed(s, size) <==> s.bs[i].len - m > 44 && size + 12 < 0x1_0000_0000
  {
    RequestNeeds(size);
    FirstFitIs(s.bs, m, i);
  }

  ghost predicate AllWellServed(tr: seq<State>) {
    forall i, size: nat | 0 <= i < |tr| - 1 && Mallocs(tr[i], tr[i + 1], size) :: WellServed(tr[i], size)
  }

  ghost function OwnedBlock(a: nat, len: nat): Block
    requires a >= HEADER
  {
    Block(a - HEADER, true, len)
  }

  /** The used blocks are exactly the blocks of the live grants, and hold what was asked for. */
  ghost predicate Owned(s: State) {
    && (forall a {:trigger s.live[a]} | a in s.live ::
          a >= HEADER && s.live[a].size <= s.live[a].len && OwnedBlock(a, s.live[a].len) in UsedBlocks(s.bs))
    && (forall b {:trigger b.Payload()} | b in UsedBlocks(s.bs) :: b.Payload() in s.live)
  }

  lemma SplitUses(bs: seq<Block>, base: nat, i: nat, len: nat)
    requires HeapOk(bs, base) && i < |bs| && Fits(bs[i], len) && Splits(bs[i], len)
    ensures UsedBlocks(SplitAt(bs, i, len)) == UsedBlocks(bs) + {Block(bs[i].addr, true, len)}
    ensures forall b | b in UsedBlocks(bs) :: b.addr != bs[i].addr
  {
    var bs' := SplitAt(bs, i, len);
    var u := Block(bs[i].addr, true, len);
    forall b ensures b in UsedBlocks(bs') <==> b in UsedBlocks(bs) + {u} {
      if b in UsedBlocks(bs) {
        var j :| 0 <= j < |bs| && bs[j] == b;
        assert bs'[if j < i then j else j + 1] == b;
      }
      if b in bs' && b.used {
        var j :| 0 <= j < |bs'| && bs'[j] == b;
        assert j < i ==> b == bs[j];
        assert j > i + 1 ==> b == bs[j - 1];
      }
      assert bs'[i] == u;
    }
    forall b | b in UsedBlocks(bs) ensures b.addr != bs[i].addr {
      BlocksApart(bs, base, base + ARENA, b, bs[i]);
    }
  }

  lemma AbsorbUses(bs: seq<Block>, i: nat)
    requires i + 1 < |bs| && !bs[i].used && !bs[i + 1].used
    ensures UsedBlocks(Absorb(bs, i)) == UsedBlocks(bs)
  {
  }

  lemma UnmarkUses(bs: seq<Block>, base: nat, i: nat)
    requires HeapOk(bs, base) && i < |bs| && bs[i].used
    ensures UsedBlocks(bs[i := bs[i].(used := false)]) == UsedBlocks(bs) - {bs[i]}
    ensures forall b | b in UsedBlocks(bs) && b.addr == bs[i].addr :: b == bs[i]
  {
    var bs1 := bs[i := bs[i].(used := false)];
    forall b | b in UsedBlocks(bs) && b.addr == bs[i].addr ensures b == bs[i] {
      if b != bs[i] {
        BlocksApart(bs, base, base + ARENA, b, bs[i]);
      }
    }
    forall b ensures b in UsedBlocks(bs1) <==> b in UsedBlocks(bs) - {bs[i]} {
      if b in UsedBlocks(bs) && b != bs[i] {
        var j :| 0 <= j < |bs| && bs[j] == b;
        assert bs1[j] == b;
      }
      if b in bs1 && b.used {
        var j :| 0 <= j < |bs1| && bs1[j] == b;
        assert bs[j] == b;
        TilesOrder(bs, base, base + ARENA, if i < j then i else j, if i < j then j else i);
      }
    }
  }

  lemma KfreeUses(bs: seq<Block>, base: nat, i: nat)
    requires HeapOk(bs, base) && i < |bs| && bs[i].used
    ensures UsedBlocks(Kfree(bs, i)) == UsedBlocks(bs) - {bs[i]}
    ensures forall b | b in UsedBlocks(bs) && b.addr == bs[i].addr :: b == bs[i]
  {
    UnmarkUses(bs, base, i);
    GlueUses(bs[i := bs[i].(used := false)], i);
  }

  lemma GlueUses(bs: seq<Block>, i: nat)
    requires i < |bs| && !bs[i].used
    ensures UsedBlocks(Glue(bs, i)) == UsedBlocks(bs)
  {
    var j := if i > 0 && !bs[i - 1].used then i - 1 else i;
    if j < i {
      AbsorbUses(bs, j);
    }
    var bs' := if j < i then Absorb(bs, j) else bs;
    if j + 1 < |bs'| && !bs'[j + 1].used {
      AbsorbUses(bs', j);
    }
  }

  lemma MallocOwned(s: State, s': State, base: nat, size: nat)
    requires HeapOk(s.bs, base) && Owned(s) && Mallocs(s, s', size) && WellServed(s, size)
    ensures Owned(s')
  {
    var len := Wanted(size);
    var i := FirstFit(s.bs, len);
    if i < |s.bs| {
      assert size <= len;
      SplitUses(s.bs, base, i, len);
      var p := s.bs[i].Payload();
      forall a | a in s'.live
        ensures a >= HEADER && s'.live[a].size <= s'.live[a].len && OwnedBlock(a, s'.live[a].len) in UsedBlocks(s'.bs)
      {
        assert a != p ==> a in s.live;
      }
    }
  }

  lemma UsedFreeOwned(s: State, s': State, u: Block)
    requires Owned(s) && u in UsedBlocks(s.bs)
    requires forall b | b in UsedBlocks(s.bs) && b.addr == u.addr :: b == u
    requires UsedBlocks(s'.bs) == UsedBlocks(s.bs) - {u} && s'.live == s.live - {u.Payload()}
    ensures Owned(s')
  {
  }

  lemma FreeBlockNotLive(s: State, base: nat, i: nat)
    requires HeapOk(s.bs, base) && Owned(s) && i < |s.bs| && !s.bs[i].used
    ensures s.bs[i].Payload() !in s.live
  {
    var a := s.bs[i].Payload();
    if a in s.live {
      BlocksApart(s.bs, base, base + ARENA, OwnedBlock(a, s.live[a].len), s.bs[i]);
    }
  }

  lemma FreeOwned(s: State, s': State, base: nat, i: nat)
    requires HeapOk(s.bs, base) && Owned(s) && Frees(s, s', i)
    ensures Owned(s')
  {
    if s.bs[i].used {
      KfreeUses(s.bs, base, i);
      UsedFreeOwned(s, s', s.bs[i]);
    } else {
      FreeBlockNotLive(s, base, i);
      assert s'.live == s.live && s'.bs == s.bs;
    }
  }

  lemma {:induction false} RunOwned(tr: seq<State>, base: nat, i: nat)
    requires IsRun(tr, base) && AllWellServed(tr) && i < |tr|
    ensures HeapOk(tr[i].bs, base) && Owned(tr[i])
  {
    RunTiles(tr, base, i);
    if i > 0 {
      RunOwned(tr, base, i - 1);
      var s, s' := tr[i - 1], tr[i];
      assert Step(tr[i - 1], tr[i - 1 + 1]);
      if size: nat :| Mallocs(s, s', size) {
        assert Mallocs(tr[i - 1], tr[i - 1 + 1], size);
        MallocOwned(s, s', base, size);
      } else {
        var j: nat :| Frees(s, s', j);
        FreeOwned(s, s', base, j);
      }
    }
  }

  lemma OwnedInside(s: State, base: nat, a: nat)
    requires HeapOk(s.bs, base) && Owned(s) && a in s.live
    ensures s.live[a].size <= s.live[a].len && base + HEADER <= a && a + s.live[a].len <= base + ARENA
  {
    var p := OwnedBlock(a, s.live[a].len);
    var i :| 0 <= i < |s.bs| && s.bs[i] == p;
    TilesOrder(s.bs, base, base + ARENA, i, i);
  }

  lemma OwnedApart(s: State, base: nat, a: nat, b: nat)
    requires HeapOk(s.bs, base) && Owned(s) && a in s.live && b in s.live && a != b
    ensures a + s.live[a].len <= b || b + s.live[b].len <= a
  {
    var p, q := OwnedBlock(a, s.live[a].len), OwnedBlock(b, s.live[b].len);
    assert p in UsedBlocks(s.bs) && q in UsedBlocks(s.bs) && p.Payload() == a && q.Payload() == b;
    BlocksApart(s.bs, base, base + ARENA, p, q);
  }

  /** In a run of well-served requests every live payload holds what was asked for and lies in the
      arena. */
  lemma LivePayloadHoldsRequest(tr: seq<State>, base: nat, i: nat, a: nat)
    requires IsRun(tr, base) && AllWellServed(tr) && i < |tr| && a in tr[i].live
    ensures var g := tr[i].live[a]; g.size <= g.len && base + HEADER <= a && a + g.len <= base + ARENA
  {
    RunOwned(tr, base, i);
    OwnedInside(tr[i], base, a);
  }

  /** And no two live payloads overlap. */
  lemma LivePayloadsDisjoint(tr: seq<State>, base: nat, i: nat, a: nat, b: nat)
    requires IsRun(tr, base) && AllWellServed(tr) && i < |tr|
    requires a in tr[i].live && b in tr[i].live && a != b
    ensures var live := tr[i].live; a + live[a].len <= b || b + live[b].len <= a
  {
    RunOwned(tr, base, i);
    OwnedApart(tr[i], base, a, b);
  }

  /** Without the split the second request is served at an address that the first still holds. */
  lemma TwoOwnersOfOneAddress(base: nat) returns (tr: seq<State>)
    ensures IsRun(tr, base) && |tr| == 3
    ensures var size := 4194279; var r := Kmalloc(tr[1].bs, size).1;
      && Mallocs(tr[0], tr[1], size) && Mallocs(tr[1], tr[2], size)
      && base + 12 in tr[1].live && r.Some? && r.value == base + 12
  {
    var size := 4194279;
    var bs := [Block(base, false, ARENA - HEADER)];
    var held := State(bs, map[base + HEADER := Grant(size, Wanted(size))]);
    UnsplitRequest(base);
    tr := [State(bs, map[]), held, held];
    assert Mallocs(tr[0], tr[0 + 1], size) && Mallocs(tr[1], tr[1 + 1], size);
  }

  /** With the wrap-around a live grant of nearly 2^32 bytes has a block of four. */
  lemma LiveGrantTooShort(base: nat) returns (tr: seq<State>)
    ensures IsRun(tr, base) && |tr| == 2 && Mallocs(tr[0], tr[1], 0xFFFF_FFF8)
    ensures base + 12 in tr[1].live && tr[1].live[base + 12] == Grant(0xFFFF_FFF8, 4)
    ensures Block(base, true, 4) in tr[1].bs
  {
    var bs := [Block(base, false, ARENA - HEADER)];
    WrappedRequest(base);
    tr := [State(bs, map[]), State(Kmalloc(bs, 0xFFFF_FFF8).0, map[base + HEADER := Grant(0xFFFF_FFF8, 4)])];
    assert Mallocs(tr[0], tr[0 + 1], 0xFFFF_FFF8);
  }

  /** When every grant has been returned, the heap is the initial single block again. */
  lemma AllReturnedRestores(tr: seq<State>, base: nat, i: nat)
    requires IsRun(tr, base) && AllWellServed(tr) && i < |tr| && tr[i].live == map[]
    ensures tr[i].bs == tr[0].bs
  {
    RunOwned(tr, base, i);
    forall b ensures b !in UsedBlocks(tr[i].bs) {
      assert b.Payload() !in tr[i].live;
    }
    AllFreeIsInitial(tr[i].bs, base);
  }
}
