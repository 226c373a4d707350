/** The allocator methods perform exactly the steps of the buddy transition system, so everything
    proved about its runs holds of the allocator. */
module BuddySession {
  import opened Common
  import opened Powers
  import opened BuddyBlocks
  import opened BuddyRequests
  import opened BuddyLists
  import opened BuddyAllocator
  import opened BuddyRuns

  /** The allocator is in state s. */
  ghost predicate Agrees(a: Allocator, s: State)
    reads a, a.nrFree, a.order, a.flag, a.refs
  {
    a.Valid() && s.free == BlocksOf(a.freeList) && s.now == a.now && Inv(s, a.total)
  }

  method Start(n: nat) returns (a: Allocator, ghost s: State)
    ensures fresh(a.Repr()) && a.total == n && Agrees(a, s) && Init(s, n)
  {
    a := new Allocator(n);
    s := State(InitBlocks(0, n, MAX_ORDER), {}, n, 0);
    InitInv(s, n);
  }

  method Request(a: Allocator, n: nat, ghost s: State) returns (page: Option<nat>, ghost s': State)
    requires Agrees(a, s) && (n <= Pow2(MAX_ORDER) || n > a.now)
    modifies a`freeList, a`now, a.nrFree, a.order, a.flag, a.refs
    ensures Agrees(a, s') && Step(s, s')
    ensures page.Some? ==> Run(page.value, n) in s'.used && Run(page.value, n) !in s.used
    ensures page.None? ==> s' == s
  {
    ghost var l := a.freeList;
    ghost var k, cur;
    page, k, cur := a.AllocPages(n);
    if page.Some? {
      InBlocks(l, Block(page.value, cur));
      s' := State(AllocRun(s.free, page.value, n, k, cur), s.used + {Run(page.value, n)},
                  s.now + (Pow2(k) - n) - n, s.trimmed + (Pow2(k) - n));
      assert Serves(s, s', n, k, page.value, cur);
      ServesInv(s, s', a.total, n, k, page.value, cur);
      assert Run(page.value, n).Has(page.value);
    } else {
      s' := s;
      assert 0 < n <= s.now ==> OrderFor(n, k);
      assert Refuses(s, s', n);
    }
  }

  /** A block that found no free buddy is the next one served, and taking it undoes the free. */
  method FreeThenTake(a: Allocator, base: nat, k: nat) returns (page: Option<nat>)
    requires a.Valid() && k <= 10 && base + Pow2(k) <= a.total && (k == 10 || Buddy(base, k) !in a.freeList[k])
    requires forall b | b in BlocksOf(a.freeList) :: Apart(b, Block(base, k))
    modifies a`freeList, a.nrFree, a.order, a.flag, a.refs
    ensures a.Valid() && page.Some? && page.value == base && a.freeList == old(a.freeList)
  {
    ghost var l := a.freeList;
    a.FreePagesSub(base, k);
    ghost var cur;
    page, cur := a.AllocPagesSub(k);
    assert a.freeList == l;
  }

  method Release(a: Allocator, r: Run, ghost s: State) returns (ghost s': State)
    requires Agrees(a, s) && r in s.used
    modifies a`freeList, a`now, a.nrFree, a.order, a.flag, a.refs
    ensures Agrees(a, s') && Step(s, s') && s'.used == s.used - {r}
  {
    forall q: nat | r.start <= q < r.start + r.len ensures !Covered(s.free, q) {
      assert r.Has(q) && InUse(s.used, q);
    }
    Pow2Monotonic(MAX_ORDER, MAX_ORDER + 1);
    a.FreePages(r.start, r.len);
    s' := State(FreeRun(s.free, r.start, r.len, 0), s.used - {r}, s.now + r.len, s.trimmed);
    assert Frees(s, s', r);
    FreesInv(s, s', a.total, r);
  }
}
