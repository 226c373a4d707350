/** ff_mm_manager of mm/ff_mm.c on its list, its page flags and its counter. */
module FirstFit {
  import opened Common
  import opened FirstFitRuns

  /** The run of base becomes part of the run of p. */
  function Merged(h: map<nat, nat>, p: nat, base: nat): map<nat, nat> {
    if p in h && base in h && p != base then h[p := h[p] + h[base]] - {base} else h
  }

  /** What ff_free_pages meets around a run that is not free. */
  ghost predicate Fitting(free: seq<nat>, head: map<nat, nat>, base: nat, n: nat) {
    && base !in head && (JoinsNext(free, base, n) ==> base + n in head)
    && (var q := Previous(free, head, base); q >= 0 ==> q < base && q in head)
    && (forall i | 0 <= i < Position(free, base) :: free[i] < base)
  }

  lemma FreedFacts(s: Pages, base: nat, n: nat)
    requires Inv(s) && n > 0 && Range(base, n) !! Elems(s.free)
    ensures Fitting(s.free, s.head, base, n)
  {
    FreedNeighbours(s.free, base, n);
    FreedGap(s.free, base, n);
    NextStarts(Elems(s.free), s.head, base, n);
    PreviousReaches(s, base, n);
    assert base in s.head <==> Starts(Elems(s.free), base);
  }

  lemma SameLastHead(free: seq<nat>, h: map<nat, nat>, free': seq<nat>, h': map<nat, nat>, k: nat)
    requires k <= |free| && k <= |free'|
    requires forall i | 0 <= i < k :: free[i] == free'[i] && (free[i] in h <==> free[i] in h')
    ensures LastHead(free, h, k) == LastHead(free', h', k)
  {
  }

  /** The three writes to the flags together. */
  lemma JoinSteps(h: map<nat, nat>, base: nat, n: nat, joinsNext: bool, q: int)
    requires base !in h && n > 0 && (joinsNext ==> base + n in h) && (q >= 0 ==> q < base && q in h)
    ensures
      var h1 := h[base := n];
      var h2 := if joinsNext then Merged(h1, base, base + n) else h1;
      (if q >= 0 then Merged(h2, q, base) else h2) == Joined(h, base, n, joinsNext, q)
  {
  }

  class PageAllocator {
    var free: seq<nat>          // ff_mm_info.free_list, as page numbers
    const flag: array<bool>     // each page's ncount flag
    const ncount: array<nat>
    const reserved: array<bool> // each page's reserved flag
    const refs: array<int>      // each page's reference count
    var now: int                // phy_page_now_count

    ghost function Heads(): map<nat, nat>
      reads flag, ncount
    {
      map p: nat | p < flag.Length && p < ncount.Length && flag[p] :: ncount[p]
    }

    ghost function State(): Pages
      reads this, flag, ncount
    {
      Pages(free, Heads(), now)
    }

    ghost predicate InRange()
      reads this
    {
      && flag.Length == ncount.Length == reserved.Length == refs.Length && reserved != flag
      && forall i | 0 <= i < |free| :: free[i] < flag.Length
    }

    ghost predicate Valid()
      reads this, flag, ncount
    {
      InRange() && Inv(State())
    }

    /** ff_page_init. */
    constructor (n: nat)
      requires n > 0
      ensures Valid() && State() == Pages(RunSeq(0, n), map[0 := n], n) && flag.Length == n
      ensures forall p | 0 <= p < n :: reserved[p]
      ensures fresh(flag) && fresh(ncount) && fresh(reserved) && fresh(refs)
    {
      var f := new bool[n](_ => false);
      var c := new nat[n](_ => 0);
      var r := new bool[n](_ => false);
      flag, ncount, reserved := f, c, r;
      refs := new int[n](_ => 0);
      free := [];
      now := n;
      new;
      for p := 0 to n
        invariant free == RunSeq(0, p) && now == n
        invariant forall i | 0 <= i < n :: !f[i] && (i < p ==> r[i])
      {
        r[p] := true;
        free := free + [p];
      }
      ncount[0] := n;
      flag[0] := true;
      assert Heads() == map[0 := n];
      InitKeeps(n);
    }

    /** The first listed run holds n pages. */
    ghost predicate FirstFits(n: nat)
      reads this, flag, ncount
    {
      |free| > 0 && free[0] in Heads() && n <= Heads()[free[0]]
    }

    /** ff_alloc_pages. Whatever happens in the loop body, it returns at the end of the first pass. */
    method AllocPages(n: nat) returns (r: Option<nat>)
      requires Valid()
      modifies this`free, this`now, flag, ncount, reserved
      ensures r.None? <==> n == 0 || n > old(now)
      ensures r.None? ==> State() == old(State())
      ensures r.Some? ==> |old(free)| > 0 && old(free[0]) in old(Heads()) && old(Heads())[old(free[0])] <= |old(free)|
      ensures r.Some? ==> r.value == old(free[0]) && State() == Alloc(old(State()), n)
      ensures Valid() <==> r.None? || n <= old(Heads())[old(free[0])]
      ensures forall p | 0 <= p < reserved.Length ::
        reserved[p] == (old(reserved[p]) && !(r.Some? && old(FirstFits(n)) && r.value <= p < r.value + n))
    {
      if n <= 0 || n > now {
        return None;
      }
      ghost var s := State();
      AllocWorksIffFirstRunFits(s, n);
      FirstStarts(s);
      var p := free[0];
      assert p in Heads() && Heads()[p] == ncount[p];
      if flag[p] && ncount[p] >= n {
        Unlink(n);
      }
      ghost var next := if |free| > 0 then free[0] else 0;
      MoveFlag(p, n, next);
      now := now - n;
      assert State() == Alloc(s, n);
      return Some(p);
    }

    /** What is left of the run of p gets its flag on the page now at the front, and p loses its own. */
    method MoveFlag(p: nat, n: nat, ghost next: nat)
      requires InRange() && p in Heads() && ncount[p] == Heads()[p]
      requires ncount[p] > n ==> |free| > 0 && next == free[0]
      modifies flag, ncount
      ensures Heads() == Cut(old(Heads()), p, n, next)
    {
      if ncount[p] > n {
        flag[free[0]] := true;
        ncount[free[0]] := ncount[p] - n;
      }
      ncount[p] := 0;
      flag[p] := false;
    }

    /** The first n entries, consecutive pages, leave the list one by one. */
    method Unlink(n: nat)
      requires n <= |free| && InRange() && forall i | 0 <= i < n :: free[i] == free[0] + i
      modifies this`free, reserved
      ensures free == old(free)[n..]
      ensures forall p | 0 <= p < reserved.Length ::
        reserved[p] == (old(reserved[p]) && !(n > 0 && old(free)[0] <= p < old(free)[0] + n))
    {
      for i := 0 to n
        invariant free == old(free)[i..]
        invariant forall p | 0 <= p < reserved.Length ::
          reserved[p] == (old(reserved[p]) && !(i > 0 && old(free)[0] <= p < old(free)[0] + i))
      {
        assert free[0] == old(free)[i];
        reserved[free[0]] := false;
        free := free[1..];
      }
    }

    /** ff_free_pages of n pages that were handed out before; it panics on a reserved page. */
    method FreePages(base: nat, n: nat)
      requires Valid() && base + n <= flag.Length && Range(base, n) !! Elems(free)
      requires n > 0 ==> !reserved[base]
      modifies this`free, this`now, flag, ncount, refs
      ensures Valid() && State() == if n == 0 then old(State()) else Free(old(State()), base, n)
      ensures forall p | 0 <= p < refs.Length :: refs[p] == if n > 0 && p == base then 0 else old(refs[p])
    {
      if n <= 0 {
        return;
      }
      refs[base] := 0;
      GiveBack(base, n);
    }

    /** The list, the flags and the counter in ff_free_pages. */
    method GiveBack(base: nat, n: nat)
      requires Valid() && n > 0 && base + n <= flag.Length && Range(base, n) !! Elems(free)
      modifies this`free, this`now, flag, ncount
      ensures Valid() && State() == Free(old(State()), base, n)
    {
      ghost var s := State();
      FreeFacts(s, base, n, flag.Length);
      Relist(base, n);
      now := now + n;
      FreedState(s, State(), base, n);
    }

    lemma FreedState(s: Pages, s': Pages, base: nat, n: nat)
      requires s'.free == Filled(s.free, base, n) && s'.count == s.count + n
      requires s'.head == Joined(s.head, base, n, JoinsNext(s.free, base, n), Previous(s.free, s.head, base))
      requires Inv(Free(s, base, n))
      ensures s' == Free(s, base, n) && Inv(s')
    {
    }

    /** The list and the flags in ff_free_pages, wherever the free pages lie. */
    method Relist(base: nat, n: nat)
      requires n > 0 && base + n <= flag.Length && InRange() && Fitting(free, Heads(), base, n)
      requires Sorted(Filled(free, base, n)) && forall i | 0 <= i < |Filled(free, base, n)| :: Filled(free, base, n)[i] < flag.Length
      modifies this`free, flag, ncount
      ensures free == Filled(old(free), base, n)
      ensures Heads()
        == Joined(old(Heads()), base, n, JoinsNext(old(free), base, n), Previous(old(free), old(Heads()), base))
    {
      ghost var h, f := Heads(), free;
      Mark(base, n);
      var k := PutIn(base, n);
      AfterInsert(f, base, n, free);
      assert JoinsNext(f, base, n) ==> base + n in Heads();
      TakeNext(base, n, k + n);
      ghost var h2 := Heads();
      JoinPrevious(base, k);
      FlagsTogether(f, h, base, n, free, h2, Heads());
    }

    lemma FlagsTogether(f: seq<nat>, h: map<nat, nat>, base: nat, n: nat, f': seq<nat>, h2: map<nat, nat>, h3: map<nat, nat>)
      requires Fitting(f, h, base, n) && n > 0 && f' == Filled(f, base, n)
      requires h2 == if JoinsNext(f, base, n) then Merged(h[base := n], base, base + n) else h[base := n]
      requires var k := Position(f, base); var j := LastHead(f', h2, k);
        h3 == if k > 0 && f'[k - 1] + 1 == base && j >= 0 then Merged(h2, f'[j], base) else h2
      ensures h3 == Joined(h, base, n, JoinsNext(f, base, n), Previous(f, h, base))
    {
      PreviousFound(f, h, base, n, f', h2);
      JoinSteps(h, base, n, JoinsNext(f, base, n), Previous(f, h, base));
    }

    lemma PreviousFound(f: seq<nat>, h: map<nat, nat>, base: nat, n: nat, f': seq<nat>, h2: map<nat, nat>)
      requires Fitting(f, h, base, n) && n > 0 && f' == Filled(f, base, n)
      requires h2 == if JoinsNext(f, base, n) then Merged(h[base := n], base, base + n) else h[base := n]
      ensures var k := Position(f, base);
        && k < |f'| && var j := LastHead(f', h2, k);
        Previous(f, h, base) == if k > 0 && f'[k - 1] + 1 == base && j >= 0 then f'[j] else -1
    {
      AfterInsert(f, base, n, f');
      SameLastHead(f, h, f', h2, Position(f, base));
    }

    lemma AfterInsert(f: seq<nat>, base: nat, n: nat, f': seq<nat>)
      requires n > 0 && f' == Filled(f, base, n)
      ensures var k := Position(f, base);
        && k < |f'| && f'[k] == base && (forall i | 0 <= i < k :: f'[i] == f[i])
        && (k + n < |f'| && f'[k + n] == base + n <==> JoinsNext(f, base, n))
    {
    }

    /** What freeing does to the free pages, for the methods below. */
    lemma FreeFacts(s: Pages, base: nat, n: nat, limit: nat)
      requires Inv(s) && n > 0 && base + n <= limit && Range(base, n) !! Elems(s.free)
      requires forall i | 0 <= i < |s.free| :: s.free[i] < limit
      ensures Inv(Free(s, base, n)) && Sorted(Filled(s.free, base, n)) && Fitting(s.free, s.head, base, n)
      ensures forall i | 0 <= i < |Filled(s.free, base, n)| :: Filled(s.free, base, n)[i] < limit
    {
      FreeKeeps(s, base, n);
      InsertInRange(s.free, base, n, limit);
      FreedFacts(s, base, n);
    }

    lemma InsertInRange(f: seq<nat>, base: nat, n: nat, limit: nat)
      requires base + n <= limit && forall i | 0 <= i < |f| :: f[i] < limit
      ensures forall i | 0 <= i < |Filled(f, base, n)| :: Filled(f, base, n)[i] < limit
    {
    }

    method Mark(base: nat, n: nat)
      requires base < flag.Length == ncount.Length
      modifies flag, ncount
      ensures Heads() == old(Heads())[base := n] && flag[base]
    {
      flag[base] := true;
      ncount[base] := n;
    }

    method PutIn(base: nat, n: nat) returns (k: nat)
      modifies this`free
      ensures k == Position(old(free), base) && free == Filled(old(free), base, n)
    {
      k := FindPlace(base);
      Insert(base, n, k);
    }

    /** The search for the first listed page above base. */
    method FindPlace(base: nat) returns (k: nat)
      ensures k == Position(free, base)
    {
      k := 0;
      while k < |free| && free[k] <= base
        invariant k <= |free| && forall i | 0 <= i < k :: free[i] <= base
      {
        k := k + 1;
      }
      ghost var j := Position(free, base);
      assert !(j < k) && !(k < j);
    }

    /** The pages of the run go in one by one before entry k. */
    method Insert(base: nat, n: nat, k: nat)
      requires k <= |free|
      modifies this`free
      ensures free == old(free)[..k] + RunSeq(base, n) + old(free)[k..]
    {
      ghost var a, b := free[..k], free[k..];
      assert free == a + RunSeq(base, 0) + b;
      for i := 0 to n
        invariant free == a + RunSeq(base, i) + b && |a| == k
      {
        assert free[..k + i] == a + RunSeq(base, i) && free[k + i..] == b;
        free := free[..k + i] + [base + i] + free[k + i..];
        assert RunSeq(base, i + 1) == RunSeq(base, i) + [base + i];
        assert free == a + RunSeq(base, i + 1) + b;
      }
    }

    /** Merging with the run behind, which begins at entry j if it touches. */
    method TakeNext(base: nat, n: nat, j: nat)
      requires InRange() && base < flag.Length && flag[base] && n > 0
      requires j < |free| && free[j] == base + n ==> flag[base + n]
      modifies flag, ncount
      ensures Heads() == if j < |free| && free[j] == base + n then Merged(old(Heads()), base, base + n) else old(Heads())
      ensures flag[base]
    {
      if j < |free| && free[j] == base + n {
        var p := free[j];
        ncount[base] := ncount[base] + ncount[p];
        flag[p] := false;
        ncount[p] := 0;
      }
    }

    /** Joining the run before, if it touches: the walk back hands the length to the first flagged
        page that it meets, and nothing to those after. */
    method JoinPrevious(base: nat, k: nat)
      requires InRange() && Sorted(free) && k < |free| && free[k] == base && flag[base]
      modifies flag, ncount
      ensures var j := LastHead(free, old(Heads()), k);
        Heads() == if k > 0 && free[k - 1] + 1 == base && j >= 0 then Merged(old(Heads()), free[j], base) else old(Heads())
    {
      if k > 0 && free[k - 1] + 1 == base {
        ghost var h := Heads();
        ghost var last := LastHead(free, h, k);
        var j := k;
        while j > 0
          invariant j <= k
          invariant Heads() == if j <= last then Merged(h, free[last], base) else h
          invariant j <= last ==> ncount[base] == 0 && !flag[base]
          invariant j > last ==> flag[base]
        {
          j := j - 1;
          var p := free[j];
          assert p < base;
          if flag[p] {
            assert p in Heads();
            MergeInto(p, base);
          } else {
            assert p !in Heads();
          }
        }
      }
    }

    method MergeInto(p: nat, base: nat)
      requires flag.Length == ncount.Length && p < base < flag.Length && flag[p]
      modifies flag, ncount
      ensures ncount[base] == 0 && !flag[base]
      ensures old(flag[base]) ==> Heads() == Merged(old(Heads()), p, base)
      ensures !old(flag[base]) && old(ncount[base]) == 0 ==> Heads() == old(Heads())
    {
      ncount[p] := ncount[p] + ncount[base];
      flag[base] := false;
      ncount[base] := 0;
    }
  }
}
