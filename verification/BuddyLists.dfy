/** The eleven free lists of mm/buddy_mm.c as sequences of page indices, with the head of each list
    first, and how operations on them act on the set of free blocks. */
module BuddyLists {
  import opened Common
  import opened Powers
  import opened BuddyBlocks
  import opened BuddyRequests

  type Lists = seq<seq<nat>>

  ghost predicate Shape(l: Lists) {
    |l| == MAX_ORDER + 1 && forall k | 0 <= k < |l| :: Distinct(l[k])
  }

  ghost function BlocksOf(l: Lists): set<Block> {
    set k, p | 0 <= k < |l| && p in l[k] :: Block(p, k)
  }

  lemma InBlocks(l: Lists, b: Block)
    ensures b in BlocksOf(l) <==> b.order < |l| && b.start in l[b.order]
  {
  }

  /** s without its first x. */
  function Remove(s: seq<nat>, x: nat): (r: seq<nat>) {
    if s == [] then [] else if s[0] == x then s[1..] else [s[0]] + Remove(s[1..], x)
  }

  lemma {:induction false} RemoveElements(s: seq<nat>, x: nat)
    requires Distinct(s)
    ensures Distinct(Remove(s, x)) && forall y :: y in Remove(s, x) <==> y in s && y != x
    ensures |Remove(s, x)| == |s| - if x in s then 1 else 0
  {
    if s != [] {
      RemoveElements(s[1..], x);
      assert forall y :: y in s <==> y == s[0] || y in s[1..];
      if s[0] == x {
        assert x !in s[1..];
      } else {
        var r := Remove(s[1..], x);
        assert Remove(s, x) == [s[0]] + r;
        assert s[0] !in r;
      }
    }
  }

  // ---------- list operations ----------

  function Push(l: Lists, k: nat, x: nat): (r: Lists)
    requires k < |l|
  {
    l[k := [x] + l[k]]
  }

  function Drop(l: Lists, k: nat, x: nat): (r: Lists)
    requires k < |l|
  {
    l[k := Remove(l[k], x)]
  }

  lemma PushBlocks(l: Lists, k: nat, x: nat)
    requires k < |l|
    ensures BlocksOf(Push(l, k, x)) == BlocksOf(l) + {Block(x, k)}
    ensures Shape(l) && x !in l[k] ==> Shape(Push(l, k, x))
  {
  }

  lemma DropBlocks(l: Lists, k: nat, x: nat)
    requires Shape(l) && k < |l|
    ensures BlocksOf(Drop(l, k, x)) == BlocksOf(l) - {Block(x, k)} && Shape(Drop(l, k, x))
  {
    var l' := Drop(l, k, x);
    RemoveElements(l[k], x);
    forall b ensures b in BlocksOf(l') <==> b in BlocksOf(l) - {Block(x, k)} {
      InBlocks(l', b);
      InBlocks(l, b);
    }
  }

  /** The right halves pushed, largest first, when a block of order cur at page is split down to k. */
  function SplitDown(l: Lists, page: nat, k: nat, cur: nat): (r: Lists)
    requires cur < |l|
    ensures |r| == |l|
    decreases cur
  {
    if cur <= k then l else SplitDown(Push(l, cur - 1, page + Pow2(cur - 1)), page, k, cur - 1)
  }

  lemma {:induction false} SplitDownBlocks(l: Lists, page: nat, k: nat, cur: nat)
    requires k <= cur < |l|
    ensures BlocksOf(SplitDown(l, page, k, cur)) == BlocksOf(l) + RightHalves(page, k, cur)
    decreases cur
  {
    if k < cur {
      var b := Block(page + Pow2(cur - 1), cur - 1);
      PushBlocks(l, cur - 1, page + Pow2(cur - 1));
      SplitDownBlocks(Push(l, cur - 1, page + Pow2(cur - 1)), page, k, cur - 1);
      assert RightHalves(page, k, cur) == RightHalves(page, k, cur - 1) + {b};
    } else {
      assert RightHalves(page, k, cur) == {};
    }
  }

  /** The lists after block (x, k) has been freed: buddies unlinked, the result pushed. */
  function FreeBlockLists(l: Lists, x: nat, k: nat): (r: Lists)
    requires |l| == MAX_ORDER + 1 && k <= MAX_ORDER
    ensures |r| == |l|
    decreases MAX_ORDER - k
  {
    if k < MAX_ORDER && Buddy(x, k) in l[k] then FreeBlockLists(Drop(l, k, Buddy(x, k)), Merged(x, k), k + 1)
    else Push(l, k, x)
  }

  lemma {:induction false} FreeBlockListsBlocks(l: Lists, x: nat, k: nat)
    requires Shape(l) && k <= MAX_ORDER
    ensures BlocksOf(FreeBlockLists(l, x, k)) == FreeBlock(BlocksOf(l), x, k)
    decreases MAX_ORDER - k
  {
    InBlocks(l, Block(Buddy(x, k), k));
    if k < MAX_ORDER && Buddy(x, k) in l[k] {
      DropBlocks(l, k, Buddy(x, k));
      FreeBlockListsBlocks(Drop(l, k, Buddy(x, k)), Merged(x, k), k + 1);
    } else {
      PushBlocks(l, k, x);
    }
  }

  /** The lists after a run of n pages has been freed from bit k of n upwards. */
  function FreeRunLists(l: Lists, base: nat, n: nat, k: nat): (r: Lists)
    requires |l| == MAX_ORDER + 1 && n < Pow2(MAX_ORDER + 1)
    decreases n + 1 - Pow2(k)
  {
    if n < Pow2(k) then l
    else if BitSet(n, k) then
      BitInRange(n, k);
      FreeRunLists(FreeBlockLists(l, base, k), base + Pow2(k), n - Pow2(k), k + 1)
    else FreeRunLists(l, base, n, k + 1)
  }

  lemma FreeRunListsStep(l: Lists, base: nat, n: nat, k: nat)
    requires |l| == MAX_ORDER + 1 && Pow2(k) <= n < Pow2(MAX_ORDER + 1)
    ensures k <= MAX_ORDER
    ensures FreeRunLists(l, base, n, k)
      == if BitSet(n, k) then FreeRunLists(FreeBlockLists(l, base, k), base + Pow2(k), n - Pow2(k), k + 1)
         else FreeRunLists(l, base, n, k + 1)
  {
    BitInRange(n, k);
  }

  /** l' is l with the last 2^k - n of the 2^k pages at page freed. */
  ghost predicate Trimmed(l: Lists, l': Lists, page: nat, n: nat, k: nat) {
    && |l| == MAX_ORDER + 1 && n <= Pow2(k) < Pow2(MAX_ORDER + 1)
    && l' == FreeRunLists(l, page + n, Pow2(k) - n, 0)
  }

  /** l' is l after its first block of order cur has served a request for n pages of order k. */
  ghost predicate Served(l: Lists, l': Lists, page: nat, n: nat, k: nat, cur: nat) {
    && k <= cur < |l| && |l[cur]| > 0 && page == l[cur][0]
    && Trimmed(SplitDown(l[cur := l[cur][1..]], page, k, cur), l', page, n, k)
  }

  /** Two different orders never list the same page, because blocks do not overlap. */
  lemma OneListPerPage(l: Lists, n: nat, p: nat, i: nat, j: nat)
    requires Wf(BlocksOf(l), n) && i < |l| && j < |l| && p in l[i] && p in l[j]
    ensures i == j
  {
    InBlocks(l, Block(p, i));
    InBlocks(l, Block(p, j));
    assert i != j ==> Apart(Block(p, i), Block(p, j));
  }
}
