/** The first-fit page allocator of mm/ff_mm.c on values: the sorted free list, and the flagged pages
    with their ncount, which should be the first pages of the maximal free runs with their lengths. */
module FirstFitRuns {

  /** The free list, ncount for every page that carries the ncount flag, and phy_page_now_count. */
  datatype Pages = Pages(free: seq<nat>, head: map<nat, nat>, count: int)

  ghost function Elems(s: seq<nat>): set<nat> { set x | x in s }

  predicate Within(x: nat, p: nat, n: nat) { p <= x < p + n }

  ghost function Range(p: nat, n: nat): set<nat> { set x: nat | p <= x < p + n && Within(x, p, n) }

  ghost predicate Sorted(s: seq<nat>) {
    forall i, j | 0 <= i < j < |s| :: s[i] < s[j]
  }

  /** p begins a maximal run of free pages. */
  ghost predicate Starts(f: set<nat>, p: nat) {
    p in f && (p == 0 || p - 1 !in f)
  }

  /** m free pages from p on, and then one that is not. */
  ghost predicate RunOf(f: set<nat>, p: nat, m: nat) {
    m > 0 && Range(p, m) <= f && p + m !in f
  }

  ghost predicate HeadsOk(f: set<nat>, head: map<nat, nat>) {
    && (forall p {:trigger p in head} {:trigger Starts(f, p)} :: p in head <==> Starts(f, p))
    && (forall p {:trigger head[p]} | p in head :: RunOf(f, p, head[p]))
  }

  ghost predicate Inv(s: Pages) {
    Sorted(s.free) && HeadsOk(Elems(s.free), s.head) && s.count == |s.free|
  }

  // ---------- runs ----------

  /** The run that page x lies in begins at or below it. */
  lemma {:induction false} RunStart(f: set<nat>, x: nat) returns (q: nat)
    requires x in f
    ensures q <= x && Starts(f, q) && Range(q, x - q + 1) <= f
  {
    if x == 0 || x - 1 !in f {
      q := x;
    } else {
      q := RunStart(f, x - 1);
    }
  }

  ghost predicate NoHeadBetween(head: map<nat, nat>, q: nat, base: nat) {
    forall p: nat | p in head :: p <= q || p >= base
  }

  /** The last flagged page below base is where the run up to base - 1 begins. */
  lemma LastHeadReaches(f: set<nat>, head: map<nat, nat>, base: nat, q: nat)
    requires HeadsOk(f, head) && base > 0 && base - 1 in f && base !in f && q in head && q < base
    requires NoHeadBetween(head, q, base)
    ensures q + head[q] == base
  {
    var e := q + head[q];
    assert RunOf(f, q, head[q]);
    if e < base {
      var r := RunStart(f, base - 1);
    } else if e > base {
      assert Within(base, q, head[q]);
    }
  }

  // ---------- what the operations do ----------

  function RunSeq(p: nat, n: nat): (s: seq<nat>)
    ensures |s| == n
    ensures forall i | 0 <= i < n :: s[i] == p + i
  {
    if n == 0 then [] else RunSeq(p, n - 1) + [p + n - 1]
  }

  /** The flags once p has given n pages away; what is left of its run begins at next. */
  function Cut(head: map<nat, nat>, p: nat, n: nat, next: nat): map<nat, nat>
    requires p in head
  {
    (if head[p] > n then head[next := head[p] - n] else head) - {p}
  }

  /** The part of ff_alloc_pages after its size test: only the first listed page is ever looked at. */
  function Alloc(s: Pages, n: nat): Pages
    requires |s.free| > 0 && s.free[0] in s.head && s.head[s.free[0]] <= |s.free|
  {
    var p := s.free[0];
    var free := if s.head[p] >= n then s.free[n..] else s.free;
    Pages(free, Cut(s.head, p, n, if |free| > 0 then free[0] else 0), s.count - n)
  }

  /** How many listed pages come before base. */
  function Position(free: seq<nat>, base: nat): (k: nat)
    ensures k <= |free| && (k < |free| ==> free[k] > base)
    ensures forall i | 0 <= i < k :: free[i] <= base
  {
    if free == [] || free[0] > base then 0 else 1 + Position(free[1..], base)
  }

  /** The last of the first k listed pages that is flagged, or -1. */
  function LastHead(free: seq<nat>, head: map<nat, nat>, k: nat): (j: int)
    requires k <= |free|
    ensures -1 <= j < k && (j >= 0 ==> free[j] in head)
    ensures forall i | j < i < k :: free[i] !in head
  {
    if k == 0 then -1 else if free[k - 1] in head then k - 1 else LastHead(free, head, k - 1)
  }

  function Filled(free: seq<nat>, base: nat, n: nat): seq<nat> {
    var k := Position(free, base);
    free[..k] + RunSeq(base, n) + free[k..]
  }

  /** The flags once the run of n pages at base is free: it takes over the run right behind it, if
      there is one, and joins the one that ends before it, which begins at q. */
  function Joined(head: map<nat, nat>, base: nat, n: nat, joinsNext: bool, q: int): map<nat, nat> {
    var length := if joinsNext && base + n in head then n + head[base + n] else n;
    var rest := if joinsNext then head - {base + n} else head;
    if q >= 0 && q in rest then rest[q := rest[q] + length] else rest[base := length]
  }

  /** Whether the page behind the run is listed right behind its position. */
  predicate JoinsNext(free: seq<nat>, base: nat, n: nat) {
    var k := Position(free, base);
    k < |free| && free[k] == base + n
  }

  /** The flagged page that the walk back meets, if the page before base is listed, or -1. */
  function Previous(free: seq<nat>, head: map<nat, nat>, base: nat): int {
    var k := Position(free, base);
    var j := if k > 0 && free[k - 1] + 1 == base then LastHead(free, head, k) else -1;
    if j >= 0 then free[j] else -1
  }

  /** ff_free_pages. */
  function Free(s: Pages, base: nat, n: nat): Pages {
    Pages(Filled(s.free, base, n), Joined(s.head, base, n, JoinsNext(s.free, base, n), Previous(s.free, s.head, base)), s.count + n)
  }

  // ---------- alloc ----------

  lemma {:induction false} RunIsPrefix(free: seq<nat>, n: nat)
    requires Sorted(free) && |free| > 0 && Range(free[0], n) <= Elems(free)
    ensures n <= |free| && forall i | 0 <= i < n :: free[i] == free[0] + i
  {
    if n > 1 {
      assert Range(free[0], n - 1) <= Range(free[0], n);
      RunIsPrefix(free, n - 1);
      var x := free[0] + n - 1;
      assert x in Range(free[0], n);
      var j :| 0 <= j < |free| && free[j] == x;
      assert j >= n - 1;
      assert free[n - 2] < free[n - 1] <= free[j];
    }
  }

  lemma FirstStarts(s: Pages)
    requires Inv(s) && |s.free| > 0
    ensures s.free[0] in s.head && RunOf(Elems(s.free), s.free[0], s.head[s.free[0]])
    ensures s.head[s.free[0]] <= |s.free|
    ensures forall i | 0 <= i < s.head[s.free[0]] :: s.free[i] == s.free[0] + i
  {
    var p := s.free[0];
    assert p in Elems(s.free);
    assert Starts(Elems(s.free), p);
    RunIsPrefix(s.free, s.head[p]);
  }

  lemma AllocStarts(f: set<nat>, head: map<nat, nat>, p: nat, n: nat, next: nat, x: nat)
    requires HeadsOk(f, head) && p in head && 0 < n <= head[p] && (head[p] > n ==> next == p + n)
    ensures x in Cut(head, p, n, next) <==> Starts(f - Range(p, n), x)
  {
    var m := head[p];
    assert RunOf(f, p, m);
    assert x in head <==> Starts(f, x);
    if p < x <= p + m {
      assert Within(x - 1, p, m) && x - 1 in Range(p, m);
      assert x in Range(p, m) || x == p + m;
      assert x - 1 in Range(p, n) <==> x <= p + n;
    } else if x > p + m {
      assert !Within(x - 1, p, n) && !Within(x, p, n);
    }
  }

  lemma AllocLengths(f: set<nat>, head: map<nat, nat>, p: nat, n: nat, next: nat, x: nat)
    requires HeadsOk(f, head) && p in head && 0 < n <= head[p] && (head[p] > n ==> next == p + n)
    requires x in Cut(head, p, n, next)
    ensures RunOf(f - Range(p, n), x, Cut(head, p, n, next)[x])
  {
    var m := head[p];
    assert RunOf(f, p, m);
    if x == p + n && m > n {
      forall y | y in Range(x, m - n) ensures y in f - Range(p, n) {
        assert Within(y, p, m);
      }
    } else {
      RunElsewhere(f, head, p, n, x);
    }
  }

  lemma RunElsewhere(f: set<nat>, head: map<nat, nat>, p: nat, n: nat, x: nat)
    requires HeadsOk(f, head) && p in head && 0 < n <= head[p] && x in head && x != p
    ensures RunOf(f - Range(p, n), x, head[x])
  {
    assert RunOf(f, x, head[x]);
    if x < p {
      HeadsApart(f, head, x, p);
    } else {
      HeadsApart(f, head, p, x);
    }
  }

  lemma AllocHeads(f: set<nat>, head: map<nat, nat>, p: nat, n: nat, next: nat)
    requires HeadsOk(f, head) && p in head && 0 < n <= head[p] && (head[p] > n ==> next == p + n)
    ensures HeadsOk(f - Range(p, n), Cut(head, p, n, next))
  {
    var head' := Cut(head, p, n, next);
    forall x: nat ensures x in head' <==> Starts(f - Range(p, n), x) {
      AllocStarts(f, head, p, n, next, x);
    }
    forall x | x in head' ensures RunOf(f - Range(p, n), x, head'[x]) {
      AllocLengths(f, head, p, n, next, x);
    }
  }

  // ---------- free ----------

  lemma FreeStarts(f: set<nat>, head: map<nat, nat>, base: nat, n: nat, q: int, x: nat)
    requires HeadsOk(f, head) && n > 0 && Range(base, n) !! f
    requires if base > 0 && base - 1 in f then 0 <= q < base && q in head && q + head[q] == base else q == -1
    ensures x in Joined(head, base, n, base + n in f, q) <==> Starts(f + Range(base, n), x)
  {
    assert x in head <==> Starts(f, x);
    assert Within(base, base, n) && Within(base + n - 1, base, n);
    assert base <= x < base + n ==> Within(x, base, n);
    assert base < x <= base + n ==> Within(x - 1, base, n);
  }

  /** Two runs end to end are one. */
  lemma RunsJoin(f: set<nat>, p: nat, m: nat, l: nat)
    requires Range(p, m) <= f && RunOf(f, p + m, l)
    ensures RunOf(f, p, m + l)
  {
    forall y | y in Range(p, m + l) ensures y in f {
      assert if y < p + m then Within(y, p, m) else Within(y, p + m, l);
    }
  }

  /** The freed run with what is right behind it. */
  lemma FreedRun(f: set<nat>, head: map<nat, nat>, base: nat, n: nat)
    requires HeadsOk(f, head) && n > 0 && Range(base, n) !! f
    ensures RunOf(f + Range(base, n), base, if base + n in f then n + Length(head, base + n) else n)
  {
    NextStarts(f, head, base, n);
    var f' := f + Range(base, n);
    if base + n in f {
      assert RunOf(f, base + n, head[base + n]);
      var e := base + n + head[base + n];
      assert !Within(e, base, n);
      RunsJoin(f', base, n, head[base + n]);
    } else {
      assert !Within(base + n, base, n);
    }
  }

  function Length(head: map<nat, nat>, p: nat): nat { if p in head then head[p] else 0 }

  /** A run that does not end where the freed pages begin keeps its length. */
  lemma RunApart(f: set<nat>, base: nat, n: nat, x: nat, m: nat)
    requires Range(base, n) !! f && RunOf(f, x, m) && x + m != base && n > 0
    ensures RunOf(f + Range(base, n), x, m)
  {
    var last := x + m - 1;
    assert Within(last, x, m) && last in Range(x, m);
    assert last !in Range(base, n);
    assert base <= last < base + n ==> Within(last, base, n);
  }

  lemma HeadsApart(f: set<nat>, head: map<nat, nat>, p: nat, q: nat)
    requires HeadsOk(f, head) && p in head && q in head && p < q
    ensures p + head[p] < q
  {
    assert RunOf(f, p, head[p]) && Starts(f, q) && q in f;
  }

  lemma OneRunUpTo(f: set<nat>, head: map<nat, nat>, base: nat, q: nat, x: nat)
    requires HeadsOk(f, head) && q in head && x in head && q + head[q] == base && x + head[x] == base
    ensures q == x
  {
    if q < x {
      HeadsApart(f, head, q, x);
    } else if x < q {
      HeadsApart(f, head, x, q);
    }
  }

  /** The run that ends where the freed pages begin reaches to the end of what follows. */
  lemma GrownRun(f: set<nat>, head: map<nat, nat>, base: nat, n: nat, x: nat)
    requires HeadsOk(f, head) && n > 0 && Range(base, n) !! f && x in head && x + head[x] == base
    ensures RunOf(f + Range(base, n), x, head[x] + if base + n in f then n + Length(head, base + n) else n)
  {
    FreedRun(f, head, base, n);
    assert RunOf(f, x, head[x]);
    RunsJoin(f + Range(base, n), x, head[x], if base + n in f then n + Length(head, base + n) else n);
  }

  lemma FreeLengths(f: set<nat>, head: map<nat, nat>, base: nat, n: nat, q: int, x: nat)
    requires HeadsOk(f, head) && n > 0 && Range(base, n) !! f
    requires if base > 0 && base - 1 in f then 0 <= q < base && q in head && q + head[q] == base else q == -1
    requires x in Joined(head, base, n, base + n in f, q)
    ensures RunOf(f + Range(base, n), x, Joined(head, base, n, base + n in f, q)[x])
  {
    NextStarts(f, head, base, n);
    JoinedAt(head, base, n, base + n in f, q, x);
    RunAfterFree(f, head, base, n, q, x);
  }

  /** The run that begins at x once the pages are free. */
  lemma RunAfterFree(f: set<nat>, head: map<nat, nat>, base: nat, n: nat, q: int, x: nat)
    requires HeadsOk(f, head) && n > 0 && Range(base, n) !! f
    requires if base > 0 && base - 1 in f then 0 <= q < base && q in head && q + head[q] == base else q == -1
    requires if x == base then q < 0 else x in head && x != base + n
    ensures var length := if base + n in f then n + Length(head, base + n) else n;
      RunOf(f + Range(base, n), x, if x == q then head[x] + length else if x == base then length else head[x])
  {
    if x == base {
      FreedRun(f, head, base, n);
    } else if x == q {
      GrownRun(f, head, base, n, x);
    } else {
      OtherRun(f, head, base, n, q, x);
    }
  }

  /** The lengths after the join. */
  lemma JoinedAt(head: map<nat, nat>, base: nat, n: nat, joinsNext: bool, q: int, x: nat)
    requires (q >= 0 ==> q < base && q in head) && (joinsNext ==> base + n in head) && n > 0
    requires x in Joined(head, base, n, joinsNext, q)
    ensures var length := if joinsNext then n + Length(head, base + n) else n;
      var m := Joined(head, base, n, joinsNext, q)[x];
      if x == q then m == head[x] + length
      else if x == base && q < 0 then m == length
      else x in head && m == head[x] && (joinsNext ==> x != base + n)
  {
  }

  /** The runs that do not touch the freed pages stay as they are. */
  lemma OtherRun(f: set<nat>, head: map<nat, nat>, base: nat, n: nat, q: int, x: nat)
    requires HeadsOk(f, head) && n > 0 && Range(base, n) !! f && x in head && x != q && x != base + n
    requires base > 0 && base - 1 in f ==> 0 <= q < base && q in head && q + head[q] == base
    ensures RunOf(f + Range(base, n), x, head[x])
  {
    assert RunOf(f, x, head[x]);
    if x + head[x] == base {
      assert Within(base - 1, x, head[x]);
      OneRunUpTo(f, head, base, q, x);
    }
    RunApart(f, base, n, x, head[x]);
  }

  lemma FreeHeads(f: set<nat>, head: map<nat, nat>, base: nat, n: nat, q: int)
    requires HeadsOk(f, head) && n > 0 && Range(base, n) !! f
    requires if base > 0 && base - 1 in f then 0 <= q < base && q in head && q + head[q] == base else q == -1
    ensures HeadsOk(f + Range(base, n), Joined(head, base, n, base + n in f, q))
  {
    var head' := Joined(head, base, n, base + n in f, q);
    forall x: nat ensures x in head' <==> Starts(f + Range(base, n), x) {
      FreeStarts(f, head, base, n, q, x);
    }
    forall x | x in head' ensures RunOf(f + Range(base, n), x, head'[x]) {
      FreeLengths(f, head, base, n, q, x);
    }
  }

  /** The freed run fits in between the listed pages before and behind its position. */
  lemma FreedGap(free: seq<nat>, base: nat, n: nat)
    requires Sorted(free) && n > 0 && Range(base, n) !! Elems(free)
    ensures var k := Position(free, base);
      && (forall i | 0 <= i < k :: free[i] < base) && (forall i | k <= i < |free| :: free[i] >= base + n)
  {
    forall i | 0 <= i < |free| ensures free[i] < base || free[i] >= base + n {
      assert free[i] in Elems(free);
      assert base <= free[i] < base + n ==> Within(free[i], base, n);
    }
  }

  lemma FreedNeighbours(free: seq<nat>, base: nat, n: nat)
    requires Sorted(free) && n > 0 && Range(base, n) !! Elems(free)
    ensures var k := Position(free, base);
      && (base + n in Elems(free) <==> JoinsNext(free, base, n))
      && (base > 0 && base - 1 in Elems(free) <==> k > 0 && free[k - 1] + 1 == base)
  {
    FreedGap(free, base, n);
    var k := Position(free, base);
    assert k < |free| ==> free[k] in Elems(free);
    assert k > 0 ==> free[k - 1] in Elems(free);
  }

  lemma FilledSorted(free: seq<nat>, base: nat, n: nat)
    requires Sorted(free) && n > 0 && Range(base, n) !! Elems(free)
    ensures Sorted(Filled(free, base, n))
  {
    FreedGap(free, base, n);
  }

  lemma FilledElems(free: seq<nat>, base: nat, n: nat)
    ensures Elems(Filled(free, base, n)) == Elems(free) + Range(base, n)
  {
    var k, free' := Position(free, base), Filled(free, base, n);
    forall i | 0 <= i < |free'| ensures free'[i] in Elems(free) + Range(base, n) {
      if k <= i < k + n {
        assert Within(free'[i], base, n);
      } else {
        assert free'[i] == free[if i < k then i else i - n];
      }
    }
    forall i | 0 <= i < |free| ensures free[i] in Elems(free') {
      assert free'[if i < k then i else i + n] == free[i];
    }
    forall x | x in Range(base, n) ensures x in Elems(free') {
      assert free'[k + (x - base)] == x;
    }
  }

  /** ff_free_pages keeps the list sorted and the flags exact, and frees just the given pages. */
  lemma FreeKeeps(s: Pages, base: nat, n: nat)
    requires Inv(s) && n > 0 && Range(base, n) !! Elems(s.free)
    ensures Inv(Free(s, base, n)) && Elems(Free(s, base, n).free) == Elems(s.free) + Range(base, n)
  {
    FilledSorted(s.free, base, n);
    FilledElems(s.free, base, n);
    FreedNeighbours(s.free, base, n);
    PreviousReaches(s, base, n);
    FreeHeads(Elems(s.free), s.head, base, n, Previous(s.free, s.head, base));
  }

  lemma PreviousReaches(s: Pages, base: nat, n: nat)
    requires Inv(s) && n > 0 && Range(base, n) !! Elems(s.free)
    ensures var q := Previous(s.free, s.head, base);
      if base > 0 && base - 1 in Elems(s.free) then 0 <= q < base && q in s.head && q + s.head[q] == base else q == -1
  {
    FreedNeighbours(s.free, base, n);
    NextStarts(Elems(s.free), s.head, base, n);
    if base > 0 && base - 1 in Elems(s.free) {
      FreedGap(s.free, base, n);
      var q := PreviousHead(s, base, Position(s.free, base));
    }
  }

  lemma NextStarts(f: set<nat>, head: map<nat, nat>, base: nat, n: nat)
    requires HeadsOk(f, head) && n > 0 && Range(base, n) !! f
    ensures base + n in head <==> base + n in f
    ensures base !in f
  {
    assert Within(base + n - 1, base, n) && Within(base, base, n);
    assert base + n in head <==> Starts(f, base + n);
  }

  lemma LastAtLeast(free: seq<nat>, head: map<nat, nat>, k: nat, i: nat)
    requires i < k <= |free| && free[i] in head
    ensures LastHead(free, head, k) >= i
  {
  }

  /** The walk back from base meets the first page of the run that ends before it. */
  lemma PreviousHead(s: Pages, base: nat, k: nat) returns (q: int)
    requires Inv(s) && 0 < k <= |s.free| && base > 0 && s.free[k - 1] + 1 == base && base !in Elems(s.free)
    requires k < |s.free| ==> s.free[k] > base
    ensures var j := LastHead(s.free, s.head, k); j >= 0 && q == s.free[j]
    ensures 0 <= q < base && q in s.head && q + s.head[q] == base
  {
    var i := SomeHeadBefore(s, base, k);
    LastAtLeast(s.free, s.head, k, i);
    q := s.free[LastHead(s.free, s.head, k)];
    LastIsLast(s, base, k, LastHead(s.free, s.head, k));
  }

  lemma SomeHeadBefore(s: Pages, base: nat, k: nat) returns (i: nat)
    requires Inv(s) && 0 < k <= |s.free| && s.free[k - 1] + 1 == base
    ensures i < k && s.free[i] in s.head
  {
    var f := Elems(s.free);
    assert s.free[k - 1] in f;
    var r := RunStart(f, base - 1);
    i :| 0 <= i < |s.free| && s.free[i] == r;
    assert r in s.head;
  }

  lemma LastIsLast(s: Pages, base: nat, k: nat, j: nat)
    requires Inv(s) && j < k <= |s.free| && s.free[j] in s.head && forall i | j < i < k :: s.free[i] !in s.head
    requires s.free[k - 1] + 1 == base && base !in Elems(s.free) && (k < |s.free| ==> s.free[k] > base)
    ensures s.free[j] < base && s.free[j] + s.head[s.free[j]] == base
  {
    assert s.free[j] <= s.free[k - 1] && s.free[k - 1] in Elems(s.free);
    NoneBetween(s, base, k, j);
    LastHeadReaches(Elems(s.free), s.head, base, s.free[j]);
  }

  lemma NoneBetween(s: Pages, base: nat, k: nat, j: nat)
    requires Inv(s) && j < k <= |s.free| && forall i | j < i < k :: s.free[i] !in s.head
    requires k < |s.free| ==> s.free[k] > base
    ensures NoHeadBetween(s.head, s.free[j], base)
  {
    forall p: nat | p in s.head ensures p <= s.free[j] || p >= base {
      assert Starts(Elems(s.free), p);
      var m :| 0 <= m < |s.free| && s.free[m] == p;
      assert m <= j || m >= k;
      assert m >= k ==> s.free[k] <= s.free[m];
    }
  }

  // ---------- the theorems ----------

  lemma AllocList(free: seq<nat>, n: nat, m: nat)
    requires Sorted(free) && 0 < n <= m <= |free| && forall i | 0 <= i < m :: free[i] == free[0] + i
    ensures Sorted(free[n..]) && Range(free[0], n) <= Elems(free)
    ensures Elems(free[n..]) == Elems(free) - Range(free[0], n)
    ensures n < m ==> free[n..] != [] && free[n..][0] == free[0] + n
  {
    var p, rest := free[0], free[n..];
    forall x | x in Range(p, n) ensures x in Elems(free) {
      assert free[x - p] == x;
    }
    forall i | 0 <= i < |rest| ensures rest[i] in Elems(free) - Range(p, n) {
      assert rest[i] == free[i + n] && free[n - 1] < free[i + n];
    }
    forall i | 0 <= i < |free| ensures free[i] in Elems(rest) || free[i] in Range(p, n) {
      if i < n {
        assert Within(free[i], p, n);
      } else {
        assert free[i] == rest[i - n];
      }
    }
  }

  /** ff_alloc_pages serves from the first run: if that is long enough it takes exactly the first n
      pages and leaves the flags exact. */
  lemma AllocKeeps(s: Pages, n: nat)
    requires Inv(s) && n > 0 && |s.free| > 0 && s.free[0] in s.head && n <= s.head[s.free[0]] <= |s.free|
    ensures Inv(Alloc(s, n)) && Range(s.free[0], n) <= Elems(s.free)
    ensures Elems(Alloc(s, n).free) == Elems(s.free) - Range(s.free[0], n)
  {
    var free := s.free[n..];
    FirstStarts(s);
    AllocList(s.free, n, s.head[s.free[0]]);
    AllocHeads(Elems(s.free), s.head, s.free[0], n, if |free| > 0 then free[0] else 0);
  }

  /** A request that passes the size test leaves the structure intact, and gets n free pages that
      are free no more, exactly if the first run is long enough. Otherwise the page handed out
      stays on the list, although a longer run may lie further on. */
  lemma AllocWorksIffFirstRunFits(s: Pages, n: nat)
    requires Inv(s) && 0 < n <= s.count
    ensures |s.free| > 0 && s.free[0] in s.head && s.head[s.free[0]] <= |s.free|
    ensures Inv(Alloc(s, n)) <==> n <= s.head[s.free[0]]
    ensures Elems(Alloc(s, n).free) == Elems(s.free) - Range(s.free[0], n) <==> n <= s.head[s.free[0]]
  {
    FirstStarts(s);
    if n <= s.head[s.free[0]] {
      AllocKeeps(s, n);
    } else {
      assert Within(s.free[0], s.free[0], n) && s.free[0] in Range(s.free[0], n);
      assert s.free[0] in Elems(s.free);
    }
  }

  /** In that case nothing leaves the list: the first run only loses its flag and length, and the
      counter drops by n all the same. */
  lemma ShortFirstRun(s: Pages, n: nat)
    requires Inv(s) && |s.free| > 0 && s.free[0] in s.head && s.head[s.free[0]] < n && s.head[s.free[0]] <= |s.free|
    ensures Alloc(s, n) == Pages(s.free, s.head - {s.free[0]}, s.count - n)
  {
  }

  /** Otherwise the first n pages leave, and what is left of the run begins right behind them. */
  lemma LongFirstRun(s: Pages, n: nat)
    requires Inv(s) && |s.free| > 0 && s.free[0] in s.head && 0 < n <= s.head[s.free[0]] <= |s.free|
    ensures var p, m := s.free[0], s.head[s.free[0]];
      Alloc(s, n) == Pages(s.free[n..], if m > n then (s.head - {p})[p + n := m - n] else s.head - {p}, s.count - n)
  {
    FirstStarts(s);
    AllocIs(s, n, s.free[0], s.head[s.free[0]]);
  }

  lemma AllocIs(s: Pages, n: nat, p: nat, m: nat)
    requires |s.free| > 0 && p == s.free[0] && p in s.head && m == s.head[p] && 0 < n <= m <= |s.free|
    requires forall i | 0 <= i < m :: s.free[i] == p + i
    ensures Alloc(s, n) == Pages(s.free[n..], if m > n then (s.head - {p})[p + n := m - n] else s.head - {p}, s.count - n)
  {
    if m > n {
      assert s.free[n..][0] == s.free[n];
      CutMoves(s.head, p, n);
    }
  }

  lemma CutMoves(head: map<nat, nat>, p: nat, n: nat)
    requires p in head && 0 < n < head[p]
    ensures Cut(head, p, n, p + n) == (head - {p})[p + n := head[p] - n]
  {
  }

  lemma OneAndThree()
    ensures Inv(Pages([0, 2, 3, 4], map[0 := 1, 2 := 3], 4))
  {
    var s := Pages([0, 2, 3, 4], map[0 := 1, 2 := 3], 4);
    var f := Elems(s.free);
    assert s.free[0] in f && s.free[1] in f && s.free[2] in f && s.free[3] in f;
    assert f == {0, 2, 3, 4};
    forall p: nat ensures p in s.head <==> Starts(f, p) {
    }
    assert Range(0, 1) == {0} && Range(2, 3) == {2, 3, 4};
  }

  /** One page is free at 0 and three at 2; a request for two pages gets page 0, still listed. */
  lemma SecondRunIsNeverTried()
    ensures var s := Pages([0, 2, 3, 4], map[0 := 1, 2 := 3], 4);
      Inv(s) && Alloc(s, 2) == Pages([0, 2, 3, 4], map[2 := 3], 2) && !Inv(Alloc(s, 2))
  {
    OneAndThree();
    var s := Pages([0, 2, 3, 4], map[0 := 1, 2 := 3], 4);
    ShortFirstRun(s, 2);
    assert s.head - {0} == map[2 := 3];
  }

  lemma FirstElem(a: seq<nat>)
    ensures a != [] ==> a[0] in Elems(a)
  {
  }

  lemma {:induction false} SortedUnique(a: seq<nat>, b: seq<nat>)
    requires Sorted(a) && Sorted(b) && Elems(a) == Elems(b)
    ensures a == b
    decreases |a|
  {
    FirstElem(a);
    FirstElem(b);
    if a != [] {
      SameFirst(a, b);
      TailElems(a);
      TailElems(b);
      SortedUnique(a[1..], b[1..]);
      assert a == [a[0]] + a[1..] && b == [b[0]] + b[1..];
    }
  }

  lemma SameFirst(a: seq<nat>, b: seq<nat>)
    requires Sorted(a) && Sorted(b) && Elems(a) == Elems(b) && a != [] && b != []
    ensures a[0] == b[0]
  {
    assert a[0] in Elems(b) && b[0] in Elems(a);
    var i :| 0 <= i < |b| && b[i] == a[0];
    var j :| 0 <= j < |a| && a[j] == b[0];
  }

  lemma TailElems(a: seq<nat>)
    requires Sorted(a) && a != []
    ensures Elems(a[1..]) == Elems(a) - {a[0]}
  {
    forall x ensures x in Elems(a[1..]) <==> x in Elems(a) - {a[0]} {
      if x in Elems(a) && x != a[0] {
        var i :| 0 <= i < |a| && a[i] == x;
        assert a[1..][i - 1] == x;
      }
    }
  }

  lemma RunLengthUnique(f: set<nat>, p: nat, m: nat, l: nat)
    requires RunOf(f, p, m) && RunOf(f, p, l)
    ensures m == l
  {
    assert Within(p + m, p, l) ==> p + m in Range(p, l);
    assert Within(p + l, p, m) ==> p + l in Range(p, m);
  }

  /** The free pages determine the list, the flags, every ncount and the counter. */
  lemma FreePagesDetermine(s: Pages, s': Pages)
    requires Inv(s) && Inv(s') && Elems(s.free) == Elems(s'.free)
    ensures s == s'
  {
    SortedUnique(s.free, s'.free);
    var f := Elems(s.free);
    forall p ensures p in s.head <==> p in s'.head {
      if p in s.head || p in s'.head {
        assert Starts(f, p);
      }
    }
    forall p | p in s.head ensures s.head[p] == s'.head[p] {
      RunLengthUnique(f, p, s.head[p], s'.head[p]);
    }
  }

  /** Allocating from a long enough first run and freeing the pages again restores everything. */
  lemma FreeUndoesAlloc(s: Pages, n: nat)
    requires Inv(s) && n > 0 && |s.free| > 0 && s.free[0] in s.head && n <= s.head[s.free[0]] <= |s.free|
    ensures Free(Alloc(s, n), s.free[0], n) == s
  {
    AllocKeeps(s, n);
    FreeKeeps(Alloc(s, n), s.free[0], n);
    FreePagesDetermine(Free(Alloc(s, n), s.free[0], n), s);
  }

  /** Two frees commute, so pages may come back in any order. */
  lemma FreesCommute(s: Pages, a: nat, m: nat, b: nat, n: nat)
    requires Inv(s) && m > 0 && n > 0 && Range(a, m) !! Elems(s.free) && Range(b, n) !! Elems(s.free)
    requires Range(a, m) !! Range(b, n)
    ensures Free(Free(s, a, m), b, n) == Free(Free(s, b, n), a, m)
  {
    FreeKeeps(s, a, m);
    FreeKeeps(s, b, n);
    FreeKeeps(Free(s, a, m), b, n);
    FreeKeeps(Free(s, b, n), a, m);
    FreePagesDetermine(Free(Free(s, a, m), b, n), Free(Free(s, b, n), a, m));
  }

  /** ff_page_init: all of the n pages in one run. */
  lemma InitKeeps(n: nat)
    requires n > 0
    ensures Inv(Pages(RunSeq(0, n), map[0 := n], n)) && Elems(RunSeq(0, n)) == Range(0, n)
  {
    var free := RunSeq(0, n);
    forall x | x in Range(0, n) ensures x in Elems(free) {
      assert free[x] == x;
    }
    forall i | 0 <= i < n ensures free[i] in Range(0, n) {
      assert Within(free[i], 0, n);
    }
    forall p: nat ensures p in map[0 := n] <==> Starts(Range(0, n), p) {
      assert Within(0, 0, n) && (0 < p < n ==> Within(p - 1, 0, n));
    }
  }
}
