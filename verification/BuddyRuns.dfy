/** Every run of the buddy allocator: allocations and frees in any order from the initial state. */
module BuddyRuns {
  import opened Powers
  import opened BuddyBlocks
  import opened BuddyRequests

  /** len pages from page start on, handed out to one caller. */
  datatype Run = Run(start: nat, len: nat) {
    predicate Has(q: nat) { start <= q < start + len }
  }

  /** The allocator and its callers: free blocks, runs in use, the counter phy_page_now_count,
      and, as history, the sum of 2^get_order(n) - n over all successful requests. */
  datatype State = State(free: set<Block>, used: set<Run>, now: int, trimmed: nat)

  ghost predicate Init(s: State, total: nat) {
    s == State(InitBlocks(0, total, MAX_ORDER), {}, total, 0)
  }

  /** A request for n pages that is served from block (page, cur). */
  ghost predicate Serves(s: State, s': State, n: nat, k: nat, page: nat, cur: nat) {
    && 0 < n <= s.now && OrderFor(n, k) && k <= cur <= MAX_ORDER
    && Block(page, cur) in s.free && NoneBetween(s.free, k, cur)
    && s' == State(AllocRun(s.free, page, n, k, cur), s.used + {Run(page, n)},
                   s.now + (Pow2(k) - n) - n, s.trimmed + (Pow2(k) - n))
  }

  /** A request for n pages that is refused. */
  ghost predicate Refuses(s: State, s': State, n: nat) {
    && s' == s
    && (n == 0 || n > s.now || exists k: nat :: k <= MAX_ORDER && OrderFor(n, k) && NoneBetween(s.free, k, MAX_ORDER + 1))
  }

  ghost predicate Frees(s: State, s': State, r: Run) {
    && r in s.used
    && s' == State(FreeRun(s.free, r.start, r.len, 0), s.used - {r}, s.now + r.len, s.trimmed)
  }

  ghost predicate Step(s: State, s': State) {
    || (exists n: nat, k: nat, page: nat, cur: nat :: Serves(s, s', n, k, page, cur))
    || (exists n: nat :: Refuses(s, s', n))
    || (exists r :: Frees(s, s', r))
  }

  ghost predicate InUse(used: set<Run>, q: nat) { exists r :: r in used && r.Has(q) }

  ghost function FreePages(bs: set<Block>, total: nat): set<nat> {
    set q: nat | 0 <= q < total && Covered(bs, q)
  }

  ghost function Range(x: nat, n: nat): set<nat> { set q: nat | q < x + n && Run(x, n).Has(q) }

  lemma {:induction false} RangeSize(x: nat, n: nat)
    ensures |Range(x, n)| == n
  {
    if n > 0 {
      RangeSize(x, n - 1);
      assert Range(x, n) == Range(x, n - 1) + {x + n - 1};
    } else {
      assert Range(x, n) == {};
    }
  }

  /** Free blocks and runs in use partition the pages, and the counter exceeds the number of free
      pages by exactly what has been trimmed so far. */
  ghost predicate Inv(s: State, total: nat) {
    && Wf(s.free, total)
    && (forall r | r in s.used :: 0 < r.len <= Pow2(MAX_ORDER) && r.start + r.len <= total)
    && (forall a, b | a in s.used && b in s.used && a != b :: a.start + a.len <= b.start || b.start + b.len <= a.start)
    && (forall q: nat | q < total :: Covered(s.free, q) <==> !InUse(s.used, q))
    && s.now == |FreePages(s.free, total)| + s.trimmed
  }

  lemma InitInv(s: State, total: nat)
    requires Init(s, total)
    ensures Inv(s, total) && Canonical(s.free, total)
  {
    InitIsCanonical(total);
    RangeSize(0, total);
    assert FreePages(s.free, total) == Range(0, total);
  }

  lemma ServesInv(s: State, s': State, total: nat, n: nat, k: nat, page: nat, cur: nat)
    requires Inv(s, total) && Serves(s, s', n, k, page, cur)
    ensures Inv(s', total) && !InUse(s.used, page)
    ensures forall q: nat :: InUse(s'.used, q) <==> InUse(s.used, q) || page <= q < page + n
  {
    var r := Run(page, n);
    AllocRunPages(s.free, total, page, n, k, cur);
    UsedPlus(s.used, r);
    Pow2Monotonic(k, MAX_ORDER);
    assert r.Has(page) && Covered(s.free, page);
    forall q: nat | r.Has(q) ensures !InUse(s.used, q) {
      assert Covered(s.free, q);
    }
    UnusedApart(s.used, r);
    FewerPages(s.free, s'.free, total, page, n);
  }

  lemma FewerPages(bs: set<Block>, bs': set<Block>, total: nat, page: nat, n: nat)
    requires page + n <= total && forall q: nat | page <= q < page + n :: Covered(bs, q)
    requires forall q: nat :: Covered(bs', q) <==> Covered(bs, q) && !(page <= q < page + n)
    ensures |FreePages(bs', total)| == |FreePages(bs, total)| - n
  {
    assert FreePages(bs', total) == FreePages(bs, total) - Range(page, n);
    assert Range(page, n) <= FreePages(bs, total);
    RangeSize(page, n);
  }

  lemma UnusedApart(used: set<Run>, r: Run)
    requires forall q: nat | r.Has(q) :: !InUse(used, q)
    requires r.len > 0 && forall a | a in used :: a.len > 0
    ensures forall a | a in used :: a.start + a.len <= r.start || r.start + r.len <= a.start
  {
    forall a | a in used ensures a.start + a.len <= r.start || r.start + r.len <= a.start {
      var q := if a.start < r.start then r.start else a.start;
      assert a.Has(q) ==> InUse(used, q);
      assert r.Has(q) ==> !InUse(used, q);
    }
  }

  lemma UsedPlus(used: set<Run>, r: Run)
    ensures forall q: nat :: InUse(used + {r}, q) <==> InUse(used, q) || r.Has(q)
  {
  }

  lemma FreesInv(s: State, s': State, total: nat, r: Run)
    requires Inv(s, total) && Frees(s, s', r)
    ensures Inv(s', total)
    ensures forall q: nat :: InUse(s.used, q) <==> InUse(s'.used, q) || r.Has(q)
  {
    UsedPlus(s.used - {r}, r);
    assert s.used - {r} + {r} == s.used;
    forall q: nat | r.Has(q) ensures !Covered(s.free, q) && !InUse(s'.used, q) {
      assert InUse(s.used, q);
    }
    Pow2Monotonic(MAX_ORDER, MAX_ORDER + 1);
    FreeRunPages(s.free, total, r.start, r.len, 0);
    assert FreePages(s'.free, total) == FreePages(s.free, total) + Range(r.start, r.len);
    assert FreePages(s.free, total) !! Range(r.start, r.len);
    RangeSize(r.start, r.len);
  }

  lemma StepInv(s: State, s': State, total: nat)
    requires Inv(s, total) && Step(s, s')
    ensures Inv(s', total)
  {
    if n: nat, k: nat, page: nat, cur: nat :| Serves(s, s', n, k, page, cur) {
      ServesInv(s, s', total, n, k, page, cur);
    } else if r :| Frees(s, s', r) {
      FreesInv(s, s', total, r);
    }
  }

  /** A run of the allocator on total pages. */
  ghost predicate IsRun(tr: seq<State>, total: nat) {
    && |tr| > 0 && Init(tr[0], total)
    && forall i | 0 <= i < |tr| - 1 :: Step(tr[i], tr[i + 1])
  }

  /** In every state of every run, aligned or not, pages are partitioned and the counter is off by
      exactly the trimmed pages. */
  lemma {:induction false} RunInv(tr: seq<State>, total: nat, i: nat)
    requires IsRun(tr, total) && i < |tr|
    ensures Inv(tr[i], total)
  {
    if i == 0 {
      InitInv(tr[0], total);
    } else {
      RunInv(tr, total, i - 1);
      StepInv(tr[i - 1], tr[i], total);
    }
  }

  // ---------- runs that stay canonical ----------

  /** A run whose end is a multiple of its largest power of two: freeing it keeps blocks aligned. */
  ghost predicate EndsAligned(r: Run) {
    forall h: nat | Pow2(h) <= r.len < Pow2(h + 1) :: Divides(h, r.start + r.len)
  }

  /** Freeing a used run keeps the free blocks canonical exactly if the run ends aligned. */
  lemma FreesCanonicalIff(s: State, s': State, total: nat, r: Run)
    requires Inv(s, total) && Canonical(s.free, total) && Frees(s, s', r)
    ensures Canonical(s'.free, total) <==> EndsAligned(r)
  {
    FreesInv(s, s', total, r);
    FreeRunCoalesced(s.free, r.start, r.len, 0);
    var h := HighBit(r.len);
    FreeRunAligned(s.free, r.start, r.len, 0, h);
    EndsAlignedIs(r, h);
  }

  lemma EndsAlignedIs(r: Run, h: nat)
    requires Pow2(h) <= r.len < Pow2(h + 1)
    ensures EndsAligned(r) <==> Divides(h, r.start + r.len)
  {
    forall g: nat | Pow2(g) <= r.len < Pow2(g + 1) ensures g == h {
      HighBitUnique(r.len, g, h);
    }
  }

  lemma HighBitUnique(n: nat, g: nat, h: nat)
    requires Pow2(g) <= n < Pow2(g + 1) && Pow2(h) <= n < Pow2(h + 1)
    ensures g == h
  {
    if g < h {
      Pow2Monotonic(g + 1, h);
    } else if h < g {
      Pow2Monotonic(h + 1, g);
    }
  }

  /** Every run frees only what ends aligned. */
  ghost predicate FreesAligned(tr: seq<State>) {
    forall i, r | 0 <= i < |tr| - 1 && Frees(tr[i], tr[i + 1], r) :: EndsAligned(r)
  }

  lemma {:induction false} AlignedRunCanonical(tr: seq<State>, total: nat, i: nat)
    requires IsRun(tr, total) && FreesAligned(tr) && i < |tr|
    ensures Inv(tr[i], total) && Canonical(tr[i].free, total)
  {
    if i == 0 {
      InitInv(tr[0], total);
    } else {
      AlignedRunCanonical(tr, total, i - 1);
      var s, s' := tr[i - 1], tr[i];
      assert Step(s, s');
      StepInv(s, s', total);
      if n: nat, k: nat, page: nat, cur: nat :| Serves(s, s', n, k, page, cur) {
        AllocRunCanonical(s.free, total, page, n, k, cur);
      } else if r :| Frees(s, s', r) {
        assert i - 1 < |tr| - 1 && Frees(tr[i - 1], tr[i - 1 + 1], r);
        FreesCanonicalIff(s, s', total, r);
      }
    }
  }

  /** Two aligned runs, of any length and in any order of requests, that end with the same pages
      in use end with the same blocks at every order. */
  lemma SamePagesSameBlocks(tr: seq<State>, tr2: seq<State>, total: nat, i: nat, j: nat)
    requires IsRun(tr, total) && FreesAligned(tr) && i < |tr|
    requires IsRun(tr2, total) && FreesAligned(tr2) && j < |tr2|
    requires forall q: nat :: InUse(tr[i].used, q) <==> InUse(tr2[j].used, q)
    ensures tr[i].free == tr2[j].free
  {
    AlignedRunCanonical(tr, total, i);
    AlignedRunCanonical(tr2, total, j);
    SameUseSameBlocks(tr[i], tr2[j], total);
  }

  lemma SameUseSameBlocks(s: State, t: State, total: nat)
    requires Inv(s, total) && Canonical(s.free, total) && Inv(t, total) && Canonical(t.free, total)
    requires forall q: nat :: InUse(s.used, q) <==> InUse(t.used, q)
    ensures s.free == t.free
  {
    forall q: nat ensures Covered(s.free, q) <==> Covered(t.free, q) {
      if Covered(s.free, q) || Covered(t.free, q) {
        CoveredInRange(if Covered(s.free, q) then s.free else t.free, total, q);
        assert InUse(s.used, q) <==> InUse(t.used, q);
      }
    }
    CanonicalUnique(s.free, t.free, total);
  }

  lemma CoveredInRange(bs: set<Block>, total: nat, q: nat)
    requires Wf(bs, total) && Covered(bs, q)
    ensures q < total
  {
  }

  /** Freeing everything restores exactly the initial blocks. */
  lemma AllFreedRestoresInit(tr: seq<State>, total: nat, i: nat)
    requires IsRun(tr, total) && FreesAligned(tr) && i < |tr| && tr[i].used == {}
    ensures tr[i].free == tr[0].free
  {
    SamePagesSameBlocks(tr, tr, total, i, 0);
  }

  // ---------- power-of-two runs ----------

  ghost predicate PowerRun(r: Run) { exists k: nat :: r.len == Pow2(k) && Divides(k, r.start) }

  ghost predicate PowerStep(s: State, s': State) {
    forall n: nat, k: nat, page: nat, cur: nat | Serves(s, s', n, k, page, cur) :: n == Pow2(k)
  }

  ghost predicate OnlyPowers(tr: seq<State>) {
    forall i | 0 <= i < |tr| - 1 :: PowerStep(tr[i], tr[i + 1])
  }

  lemma PowerEndsAligned(r: Run)
    requires PowerRun(r)
    ensures EndsAligned(r)
  {
    var k: nat :| r.len == Pow2(k) && Divides(k, r.start);
    forall h: nat | Pow2(h) <= r.len < Pow2(h + 1) ensures Divides(h, r.start + r.len) {
      OneBit(k, h);
      DividesMultiple(k, Pow2(k), 1);
      DividesSum(k, r.start, Pow2(k));
    }
  }

  /** What power-of-two requests keep: aligned blocks free, aligned blocks in use, an exact counter. */
  ghost predicate PowerInv(s: State, total: nat) {
    Inv(s, total) && Canonical(s.free, total) && s.trimmed == 0 && forall r | r in s.used :: PowerRun(r)
  }

  lemma PowerStepInv(s: State, s': State, total: nat)
    requires PowerInv(s, total) && Step(s, s') && PowerStep(s, s')
    ensures PowerInv(s', total)
  {
    StepInv(s, s', total);
    if n: nat, k: nat, page: nat, cur: nat :| Serves(s, s', n, k, page, cur) {
      AllocRunCanonical(s.free, total, page, n, k, cur);
      assert Run(page, n).len == Pow2(k) && PowerRun(Run(page, n));
    } else if r :| Frees(s, s', r) {
      PowerEndsAligned(r);
      FreesCanonicalIff(s, s', total, r);
    }
  }

  /** With power-of-two requests only, every run is aligned, every used run stays an aligned block,
      and the counter is exact. */
  lemma {:induction false} PowerRunsExact(tr: seq<State>, total: nat, i: nat)
    requires IsRun(tr, total) && OnlyPowers(tr) && i < |tr|
    ensures PowerInv(tr[i], total) && tr[i].now == |FreePages(tr[i].free, total)|
  {
    if i == 0 {
      InitInv(tr[0], total);
    } else {
      PowerRunsExact(tr, total, i - 1);
      assert Step(tr[i - 1], tr[i - 1 + 1]) && PowerStep(tr[i - 1], tr[i - 1 + 1]);
      PowerStepInv(tr[i - 1], tr[i], total);
    }
  }

  /** A step trims nothing exactly if it is no request other than for a power of two. */
  lemma TrimsNothingIffPower(s: State, s': State)
    requires Step(s, s')
    ensures s.trimmed <= s'.trimmed && (s.trimmed == s'.trimmed <==> PowerStep(s, s'))
  {
    forall n: nat, k: nat, page: nat, cur: nat | Serves(s, s', n, k, page, cur)
      ensures s'.trimmed == s.trimmed + (Pow2(k) - n) && n <= Pow2(k)
    {
    }
  }

  lemma {:induction false} TrimmedSoFar(tr: seq<State>, total: nat, i: nat)
    requires IsRun(tr, total) && i < |tr|
    ensures tr[i].trimmed == 0 <==> forall j: nat {:trigger tr[j]} | j < i :: PowerStep(tr[j], tr[j + 1])
  {
    if i > 0 {
      TrimmedSoFar(tr, total, i - 1);
      assert Step(tr[i - 1], tr[i - 1 + 1]);
      TrimsNothingIffPower(tr[i - 1], tr[i]);
      assert (forall j: nat {:trigger tr[j]} | j < i :: PowerStep(tr[j], tr[j + 1]))
        <==> (forall j: nat {:trigger tr[j]} | j < i - 1 :: PowerStep(tr[j], tr[j + 1])) && PowerStep(tr[i - 1], tr[i]);
    }
  }

  /** The counter is exact exactly as long as every served request was for a power of two. */
  lemma CounterExactIffPowers(tr: seq<State>, total: nat, i: nat)
    requires IsRun(tr, total) && i < |tr|
    ensures tr[i].now == |FreePages(tr[i].free, total)|
      <==> forall j: nat {:trigger tr[j]} | j < i :: PowerStep(tr[j], tr[j + 1])
  {
    RunInv(tr, total, i);
    TrimmedSoFar(tr, total, i);
  }

  lemma PowerRunsFreeAligned(tr: seq<State>, total: nat)
    requires IsRun(tr, total) && OnlyPowers(tr)
    ensures FreesAligned(tr)
  {
    forall i, r | 0 <= i < |tr| - 1 && Frees(tr[i], tr[i + 1], r) ensures EndsAligned(r) {
      PowerRunsExact(tr, total, i);
      PowerEndsAligned(r);
    }
  }

  /** Allocating and freeing power-of-two runs in any order restores the block set of the start. */
  lemma PowerRunsRestoreInit(tr: seq<State>, total: nat, i: nat)
    requires IsRun(tr, total) && OnlyPowers(tr) && i < |tr| && tr[i].used == {}
    ensures tr[i].free == tr[0].free && tr[i].now == total
  {
    PowerRunsFreeAligned(tr, total);
    AllFreedRestoresInit(tr, total, i);
    PowerRunsExact(tr, total, i);
    PowerRunsExact(tr, total, 0);
  }

  // ---------- what goes wrong otherwise ----------

  /** Orders too large for n pages are passed over. */
  lemma {:induction false} InitSkips(p: nat, n: nat, k: nat, h: nat)
    requires h <= k && n < Pow2(h + 1)
    ensures InitBlocks(p, n, k) == InitBlocks(p, n, h)
  {
    if h < k {
      Pow2Monotonic(h + 1, k);
      InitSkips(p, n, k - 1, h);
    }
  }

  /** The states of the run below: four pages, three of them allocated, and freed again. */
  function FourPages(): State { State({Block(0, 2)}, {}, 4, 0) }

  function ThreeTaken(): State { State({Block(3, 0)}, {Run(0, 3)}, 2, 1) }

  function ThreeBack(): State { State({Block(0, 0), Block(1, 1), Block(3, 0)}, {}, 5, 1) }

  lemma SmallPowers()
    ensures Pow2(0) == 1 && Pow2(1) == 2 && Pow2(2) == 4 && Pow2(3) == 8 && Pow2(4) == 16
  {
  }

  lemma FourPagesInit()
    ensures Init(FourPages(), 4)
  {
    SmallPowers();
    InitSkips(0, 4, MAX_ORDER, 2);
    assert InitBlocks(4, 0, 2) == {};
    assert InitBlocks(0, 4, 2) == {Block(0, 2)};
  }

  lemma TakeThree()
    ensures Serves(FourPages(), ThreeTaken(), 3, 2, 0, 2)
  {
    SmallPowers();
    var bs := FourPages().free;
    assert TakeBlock(bs, 0, 2, 2) == {};
    assert FreeBlock({}, 3, 0) == {Block(3, 0)};
    assert FreeRun({}, 3, 1, 0) == FreeRun({Block(3, 0)}, 4, 0, 1);
    assert FreeRun({Block(3, 0)}, 4, 0, 1) == {Block(3, 0)};
    assert AllocRun(bs, 0, 3, 2, 2) == {Block(3, 0)};
  }

  lemma GiveThreeBack()
    ensures Frees(ThreeTaken(), ThreeBack(), Run(0, 3))
  {
    SmallPowers();
    var bs := ThreeTaken().free;
    var b0 := FreeBlock(bs, 0, 0);
    assert b0 == {Block(3, 0), Block(0, 0)};
    assert Buddy(1, 1) == 3;
    assert FreeBlock(b0, 1, 1) == b0 + {Block(1, 1)};
    assert FreeRun(b0 + {Block(1, 1)}, 3, 0, 2) == b0 + {Block(1, 1)};
    assert FreeRun(b0, 1, 2, 1) == b0 + {Block(1, 1)};
    assert FreeRun(bs, 0, 3, 0) == FreeRun(b0, 1, 2, 1);
  }

  lemma FourStranded()
    ensures !Aligned(ThreeBack().free) && NoneBetween(ThreeBack().free, 2, MAX_ORDER + 1)
    ensures forall q: nat :: q < 4 <==> Covered(ThreeBack().free, q)
  {
    SmallPowers();
    assert Block(1, 1) in ThreeBack().free && !Divides(1, 1);
    forall q: nat ensures q < 4 <==> Covered(ThreeBack().free, q) {
      StrandedPage(q);
    }
  }

  lemma StrandedPage(q: nat)
    ensures q < 4 <==> Covered(ThreeBack().free, q)
  {
    SmallPowers();
    var a, b, c := Block(0, 0), Block(1, 1), Block(3, 0);
    assert (a.Has(q) <==> q == 0) && (b.Has(q) <==> 1 <= q < 3) && (c.Has(q) <==> q == 3);
    assert a in ThreeBack().free && b in ThreeBack().free && c in ThreeBack().free;
  }

  /** A run from the initial state: of four pages three are allocated and freed again. Page 1 then
      begins a misaligned block of order 1, and although all four pages are free no request for
      four of them can be served any more. */
  lemma ThreePagesStrandFour()
    ensures IsRun([FourPages(), ThreeTaken(), ThreeBack()], 4)
    ensures !Aligned(ThreeBack().free) && NoneBetween(ThreeBack().free, 2, MAX_ORDER + 1)
    ensures forall q: nat :: q < 4 <==> Covered(ThreeBack().free, q)
  {
    SmallPowers();
    FourPagesInit();
    TakeThree();
    GiveThreeBack();
    var tr := [FourPages(), ThreeTaken(), ThreeBack()];
    assert tr[0] == FourPages() && tr[1] == ThreeTaken() && tr[2] == ThreeBack();
    assert Step(tr[0], tr[1]) && Step(tr[1], tr[2]);
    FourStranded();
  }
}
