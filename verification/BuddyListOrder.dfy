/** In which order the eleven free lists hold their blocks: the block freed or split off last comes
    first, and so is served first. */
module BuddyListOrder {
  import opened Common
  import opened Powers
  import opened BuddyBlocks
  import opened BuddyRequests
  import opened BuddyLists

  // ---------- freeing a block ----------

  /** r is s without one page, the start of a block of order i inside block (y, j); the others keep
      their order. */
  ghost predicate TakenInside(s: seq<nat>, r: seq<nat>, i: nat, y: nat, j: nat) {
    exists n {:trigger s[n]} :: 0 <= n < |s| && r == s[..n] + s[n + 1..] && y <= s[n] && s[n] + Pow2(i) <= y + Pow2(j)
  }

  /** Freeing block (x, k) has formed block (y, j), which now heads its list. At each order from k
      up to j one buddy has left its list; everything else is as it was. */
  ghost predicate Formed(l: Lists, r: Lists, x: nat, k: nat, y: nat, j: nat) {
    && |l| == |r| == 11 && k <= j <= 10
    && y <= x && x + Pow2(k) <= y + Pow2(j) && (j == k ==> y == x)
    && r[j] == [y] + l[j]
    && (forall i {:trigger r[i]} | 0 <= i < 11 && (i < k || i > j) :: r[i] == l[i])
    && (forall i {:trigger r[i]} | k <= i < j :: TakenInside(l[i], r[i], i, y, j))
    && (j < 10 ==> Buddy(y, j) !in l[j])
  }

  lemma {:induction false} RemoveTakes(s: seq<nat>, x: nat) returns (n: nat)
    requires x in s
    ensures n < |s| && s[n] == x && Remove(s, x) == s[..n] + s[n + 1..]
  {
    if s[0] == x {
      n := 0;
    } else {
      n := RemoveTakes(s[1..], x);
      assert s[1..][..n] == s[1..n + 1] && s[1..][n + 1..] == s[n + 2..];
      n := n + 1;
    }
  }

  lemma MergedSpan(x: nat, k: nat)
    ensures var m := Merged(x, k);
      && m <= x && x + Pow2(k) <= m + Pow2(k + 1)
      && m <= Buddy(x, k) && Buddy(x, k) + Pow2(k) <= m + Pow2(k + 1)
  {
  }

  lemma {:induction false} FreeForms(l: Lists, x: nat, k: nat) returns (y: nat, j: nat)
    requires |l| == 11 && k <= 10
    ensures Formed(l, FreeBlockLists(l, x, k), x, k, y, j)
    decreases 10 - k
  {
    if k < 10 && Buddy(x, k) in l[k] {
      var b := Buddy(x, k);
      var l1 := Drop(l, k, b);
      y, j := FreeForms(l1, Merged(x, k), k + 1);
      MergedSpan(x, k);
      var n := RemoveTakes(l[k], b);
      FormedThrough(l, l1, FreeBlockLists(l, x, k), x, k, n, y, j);
    } else {
      y, j := x, k;
    }
  }

  lemma FormedThrough(l: Lists, l1: Lists, r: Lists, x: nat, k: nat, n: nat, y: nat, j: nat)
    requires |l| == 11 && k < 10 && n < |l[k]| && l[k][n] == Buddy(x, k)
    requires l1 == l[k := l[k][..n] + l[k][n + 1..]] && Formed(l1, r, Merged(x, k), k + 1, y, j)
    ensures Formed(l, r, x, k, y, j)
  {
    MergedSpan(x, k);
    assert r[k] == l1[k];
    forall i {:trigger r[i]} | k <= i < j ensures TakenInside(l[i], r[i], i, y, j) {
      if i > k {
        assert l1[i] == l[i];
      } else {
        assert l[i][n] == Buddy(x, k);
      }
    }
  }

  /** A run of n pages at x is freed piece by piece, the smallest first, from bit k on. */
  ghost predicate FormedRun(l: Lists, r: Lists, x: nat, n: nat, k: nat)
    decreases n + 1 - Pow2(k)
  {
    if n < Pow2(k) then r == l
    else if BitSet(n, k) then
      exists mid, y, j :: Formed(l, mid, x, k, y, j) && FormedRun(mid, r, x + Pow2(k), n - Pow2(k), k + 1)
    else FormedRun(l, r, x, n, k + 1)
  }

  lemma {:induction false} FreeRunForms(l: Lists, x: nat, n: nat, k: nat)
    requires |l| == 11 && n < Pow2(11)
    ensures FormedRun(l, FreeRunLists(l, x, n, k), x, n, k)
    decreases n + 1 - Pow2(k)
  {
    if n >= Pow2(k) {
      FreeRunListsStep(l, x, n, k);
      if BitSet(n, k) {
        var mid := FreeBlockLists(l, x, k);
        var y, j := FreeForms(l, x, k);
        FreeRunForms(mid, x + Pow2(k), n - Pow2(k), k + 1);
        assert Formed(l, mid, x, k, y, j);
      } else {
        FreeRunForms(l, x, n, k + 1);
      }
    }
  }

  // ---------- splitting a block ----------

  /** r is l with one right half of block (page, cur) in front of each list from order k up to cur. */
  ghost predicate HalvesAdded(l: Lists, r: Lists, page: nat, k: nat, cur: nat) {
    && |r| == |l|
    && (forall i {:trigger r[i]} | 0 <= i < |l| && k <= i < cur :: r[i] == [page + Pow2(i)] + l[i])
    && (forall i {:trigger r[i]} | 0 <= i < |l| && (i < k || i >= cur) :: r[i] == l[i])
  }

  /** Splitting block (page, cur) down to order k adds the halves and nothing else. */
  lemma {:induction false} SplitHeads(l: Lists, page: nat, k: nat, cur: nat)
    requires k <= cur < |l|
    ensures HalvesAdded(l, SplitDown(l, page, k, cur), page, k, cur)
    decreases cur
  {
    if k < cur {
      SplitHeads(Push(l, cur - 1, page + Pow2(cur - 1)), page, k, cur - 1);
    }
  }

  // ---------- the tail of a request ----------

  /** n without its bits below i. */
  ghost function Upper(n: nat, i: nat): (r: nat)
    ensures r <= n
  {
    if i == 0 then n else 2 * Upper(n / 2, i - 1)
  }

  /** List i with the piece for bit i of n in front, if n has that bit from j on, when the last n
      pages before page end are freed. */
  ghost function WithPiece(s: seq<nat>, end: nat, n: nat, j: nat, i: nat): seq<nat>
    requires n <= end
  {
    if i >= j && BitSet(n, i) then [end - Upper(n, i)] + s else s
  }

  lemma {:induction false} WithoutLowBit(n: nat, j: nat, i: nat)
    requires j < i && Divides(j, n) && BitSet(n, j)
    ensures n >= Pow2(j) && Upper(n - Pow2(j), i) == Upper(n, i) && (BitSet(n - Pow2(j), i) <==> BitSet(n, i))
  {
    BitSetGrows(n, j);
    if j > 0 {
      assert (n - Pow2(j)) / 2 == n / 2 - Pow2(j - 1);
      WithoutLowBit(n / 2, j - 1, i - 1);
    } else {
      assert Pow2(0) == 1 && (n - 1) / 2 == n / 2;
    }
  }

  lemma {:induction false} WholeUpper(n: nat, j: nat)
    requires Divides(j, n)
    ensures Upper(n, j) == n
  {
    if j > 0 {
      WholeUpper(n / 2, j - 1);
    }
  }

  lemma {:induction false} NoBitAbove(n: nat, j: nat, i: nat)
    requires n < Pow2(j) && i >= j
    ensures !BitSet(n, i)
  {
    BitSetGrows(n, i);
    Pow2Monotonic(j, i);
  }

  lemma PieceStays(s: seq<nat>, end: nat, n: nat, j: nat, i: nat)
    requires Pow2(j) <= n <= end && Divides(j, n) && BitSet(n, j)
    ensures WithPiece(if i == j then [end - n] + s else s, end, n - Pow2(j), j + 1, i) == WithPiece(s, end, n, j, i)
  {
    if i == j {
      WholeUpper(n, j);
    } else if i > j {
      WithoutLowBit(n, j, i);
    }
  }

  /** r is l with one piece for each bit of n from j on in front of its list. */
  ghost predicate PiecesAdded(l: Lists, r: Lists, end: nat, n: nat, j: nat) {
    |l| == |r| == 11 && n <= end && forall i {:trigger r[i]} | 0 <= i < 11 :: r[i] == WithPiece(l[i], end, n, j, i)
  }

  lemma PiecesThrough(l: Lists, l1: Lists, r: Lists, x: nat, end: nat, n: nat, j: nat)
    requires |l| == 11 && j < 11 && Pow2(j) <= n && x + n == end && Divides(j, n) && BitSet(n, j)
    requires l1 == l[j := [x] + l[j]] && PiecesAdded(l1, r, end, n - Pow2(j), j + 1)
    ensures PiecesAdded(l, r, end, n, j)
  {
    forall i {:trigger r[i]} | 0 <= i < 11 ensures r[i] == WithPiece(l[i], end, n, j, i) {
      PieceStays(l[i], end, n, j, i);
      assert r[i] == WithPiece(l1[i], end, n - Pow2(j), j + 1, i);
    }
  }

  lemma NoPieceLeft(l: Lists, end: nat, n: nat, j: nat)
    requires |l| == 11 && n <= end && n < Pow2(j)
    ensures PiecesAdded(l, l, end, n, j)
  {
    forall i | j <= i < 11 ensures !BitSet(n, i) {
      NoBitAbove(n, j, i);
    }
  }

  lemma NoPieceHere(l: Lists, r: Lists, end: nat, n: nat, j: nat)
    requires PiecesAdded(l, r, end, n, j + 1) && !BitSet(n, j)
    ensures PiecesAdded(l, r, end, n, j)
  {
    forall i {:trigger r[i]} | 0 <= i < 11 ensures r[i] == WithPiece(l[i], end, n, j, i) {
    }
  }

  /** The buddy of a piece is not free, so that the piece is just pushed. */
  lemma PiecePushed(l: Lists, page: nat, k: nat, x: nat, n: nat, j: nat) returns (l1: Lists)
    requires |l| == 11 && k <= 10 && Divides(k, page) && page < x && x + n == page + Pow2(k) && Divides(j, n)
    requires Pow2(j) <= n < Pow2(11) && BitSet(n, j)
    requires forall i, p | j <= i < 11 && p in l[i] :: !(page <= p < page + Pow2(k))
    ensures j < 11 && Divides(j + 1, n - Pow2(j)) && l1 == l[j := [x] + l[j]]
    ensures FreeRunLists(l, x, n, j) == FreeRunLists(l1, x + Pow2(j), n - Pow2(j), j + 1)
    ensures forall i, p | j + 1 <= i < 11 && p in l1[i] :: !(page <= p < page + Pow2(k))
  {
    FreeRunListsStep(l, x, n, j);
    NextBit(n, j);
    PieceBuddyOnTheLeft(page, k, x, n, j);
    assert Buddy(x, j) !in l[j];
    l1 := l[j := [x] + l[j]];
    assert forall i | j + 1 <= i < 11 :: l1[i] == l[i];
  }

  /** Trimming an aligned block of 2^k pages: each piece heads its list, and none merges. */
  lemma {:induction false} TailHeads(l: Lists, page: nat, k: nat, x: nat, n: nat, j: nat, end: nat) returns (r: Lists)
    requires |l| == 11 && k <= 10 && Divides(k, page) && page < x && x + n == end == page + Pow2(k) && Divides(j, n)
    requires n < Pow2(11)
    requires forall i, p | j <= i < 11 && p in l[i] :: !(page <= p < page + Pow2(k))
    ensures r == FreeRunLists(l, x, n, j) && PiecesAdded(l, r, end, n, j)
    decreases n + 1 - Pow2(j)
  {
    if n < Pow2(j) {
      r := l;
      NoPieceLeft(l, end, n, j);
    } else if BitSet(n, j) {
      var l1 := PiecePushed(l, page, k, x, n, j);
      r := TailHeads(l1, page, k, x + Pow2(j), n - Pow2(j), j + 1, end);
      PiecesThrough(l, l1, r, x, end, n, j);
    } else {
      FreeRunListsStep(l, x, n, j);
      NextBit(n, j);
      r := TailHeads(l, page, k, x, n, j + 1, end);
      NoPieceHere(l, r, end, n, j);
    }
  }

  /** The lists after the first block of order cur has served a request for n pages of order k. */
  ghost predicate ServedOrder(l: Lists, r: Lists, page: nat, n: nat, k: nat, cur: nat) {
    && |l| == |r| == 11 && k <= cur <= 10 && n <= Pow2(k)
    && (forall i | k <= i < cur :: l[i] == []) && |l[cur]| > 0 && page == l[cur][0]
    && (forall i {:trigger r[i]} | 0 <= i < k :: r[i] == WithPiece(l[i], page + Pow2(k), Pow2(k) - n, 0, i))
    && (forall i {:trigger r[i]} | k <= i < cur :: r[i] == [page + Pow2(i)])
    && r[cur] == l[cur][1..]
    && (forall i {:trigger r[i]} | cur < i < 11 :: r[i] == l[i])
  }

  lemma NoBlocksListed(l: Lists, k: nat, cur: nat)
    requires |l| == 11 && cur <= 11 && NoneBetween(BlocksOf(l), k, cur)
    ensures forall i | k <= i < cur :: l[i] == []
  {
    forall i | k <= i < cur ensures l[i] == [] {
      if l[i] != [] {
        InBlocks(l, Block(l[i][0], i));
      }
    }
  }

  lemma NoneListedInside(l: Lists, page: nat, k: nat)
    requires |l| == 11 && forall b | b in BlocksOf(l) :: !(page <= b.start < page + Pow2(k))
    ensures forall i, p | 0 <= i < 11 && p in l[i] :: !(page <= p < page + Pow2(k))
  {
    forall i, p | 0 <= i < 11 && p in l[i] ensures !(page <= p < page + Pow2(k)) {
      assert Block(p, i) in BlocksOf(l);
    }
  }

  /** With aligned blocks, what a request leaves: the pieces of its tail and the right halves that
      splitting made head their lists. */
  lemma ServedHeads(l: Lists, r: Lists, total: nat, page: nat, n: nat, k: nat, cur: nat)
    requires Shape(l) && Wf(BlocksOf(l), total) && Aligned(BlocksOf(l)) && n > 0
    requires NoneBetween(BlocksOf(l), k, cur) && Served(l, r, page, n, k, cur)
    ensures ServedOrder(l, r, page, n, k, cur)
  {
    var l0 := l[cur := l[cur][1..]];
    var l1 := SplitDown(l0, page, k, cur);
    NoBlocksListed(l, k, cur);
    SplitHeads(l0, page, k, cur);
    SplitSet(l, page, k, cur);
    SplitLeavesNoneInside(l, l1, total, page, k, cur);
    var r' := TrimmedHeads(l, l0, l1, page, n, k, cur);
  }

  lemma TrimmedHeads(l: Lists, l0: Lists, l1: Lists, page: nat, n: nat, k: nat, cur: nat) returns (r: Lists)
    requires |l| == |l1| == 11 && k <= cur <= 10 && |l[cur]| > 0 && page == l[cur][0] && l0 == l[cur := l[cur][1..]]
    requires 0 < n <= Pow2(k) < Pow2(11) && Divides(k, page) && forall i | k <= i < cur :: l[i] == []
    requires forall i, p | 0 <= i < 11 && p in l1[i] :: !(page <= p < page + Pow2(k))
    requires HalvesAdded(l0, l1, page, k, cur)
    ensures r == FreeRunLists(l1, page + n, Pow2(k) - n, 0) && ServedOrder(l, r, page, n, k, cur)
  {
    var m, end := Pow2(k) - n, page + Pow2(k);
    r := TailHeads(l1, page, k, page + n, m, 0, end);
    HeadsTogether(l, l0, l1, r, page, n, k, cur);
  }

  lemma SplitLeavesNoneInside(l: Lists, l1: Lists, total: nat, page: nat, k: nat, cur: nat)
    requires |l1| == 11 && Wf(BlocksOf(l), total) && Aligned(BlocksOf(l)) && k <= cur && Block(page, cur) in BlocksOf(l)
    requires BlocksOf(l1) == TakeBlock(BlocksOf(l), page, k, cur)
    ensures Divides(k, page) && forall i, p | 0 <= i < 11 && p in l1[i] :: !(page <= p < page + Pow2(k))
  {
    NoneStartsInside(BlocksOf(l), total, page, k, cur);
    NoneListedInside(l1, page, k);
    StartIsMultiple(BlocksOf(l), Block(page, cur), k);
  }

  lemma HeadsTogether(l: Lists, l0: Lists, l1: Lists, r: Lists, page: nat, n: nat, k: nat, cur: nat)
    requires |l| == |l1| == |r| == 11 && k <= cur <= 10 && 0 < n <= Pow2(k) && |l[cur]| > 0 && page == l[cur][0]
    requires forall i | k <= i < cur :: l[i] == []
    requires l0 == l[cur := l[cur][1..]] && HalvesAdded(l0, l1, page, k, cur)
    requires PiecesAdded(l1, r, page + Pow2(k), Pow2(k) - n, 0)
    ensures ServedOrder(l, r, page, n, k, cur)
  {
    forall i | k <= i < 11 ensures r[i] == l1[i] {
      NoBitAbove(Pow2(k) - n, k, i);
    }
    forall i | 0 <= i < k ensures r[i] == WithPiece(l[i], page + Pow2(k), Pow2(k) - n, 0, i) {
      assert l1[i] == l0[i] == l[i];
    }
    forall i | k <= i < cur ensures r[i] == [page + Pow2(i)] {
      assert l1[i] == [page + Pow2(i)] + l0[i] && l0[i] == [];
    }
  }

  lemma SplitSet(l: Lists, page: nat, k: nat, cur: nat)
    requires Shape(l) && k <= cur < |l| && |l[cur]| > 0 && page == l[cur][0]
    ensures BlocksOf(SplitDown(l[cur := l[cur][1..]], page, k, cur)) == TakeBlock(BlocksOf(l), page, k, cur)
    ensures Block(page, cur) in BlocksOf(l)
  {
    InBlocks(l, Block(page, cur));
    DropBlocks(l, cur, page);
    SplitDownBlocks(l[cur := l[cur][1..]], page, k, cur);
  }

  // ---------- buddy_page_init ----------

  ghost predicate Descending(s: seq<nat>) { forall i, j | 0 <= i < j < |s| :: s[i] > s[j] }

  ghost predicate AllDescending(l: Lists) { forall k | 0 <= k < |l| :: Descending(l[k]) }

  lemma PushDescends(l: Lists, k: nat, p: nat)
    requires AllDescending(l) && k < |l| && forall b | b in BlocksOf(l) :: b.End() <= p
    ensures AllDescending(Push(l, k, p))
  {
    forall j | 0 <= j < |l[k]| ensures l[k][j] < p {
      assert Block(l[k][j], k) in BlocksOf(l);
    }
    forall i | 0 <= i < |l| ensures Descending(Push(l, k, p)[i]) {
      assert Descending(l[i]);
    }
  }

  /** The blocks of the largest order begin at the multiples of 1024 that leave room for one. */
  lemma {:induction false} TopBlocks(p: nat, n: nat, q: nat)
    requires p % 1024 == 0
    ensures Block(q, 10) in InitBlocks(p, n, 10) <==> q % 1024 == 0 && p <= q && q + 1024 <= p + n
    decreases n
  {
    TenthPower();
    if n >= 1024 {
      TopBlocks(p + 1024, n - 1024, q);
    } else if n > 0 {
      SmallerBlocks(p, n, 9);
    }
  }

  lemma TenthPower()
    ensures Pow2(10) == 1024
  {
    assert Pow2(5) == 32;
    Pow2Sum(5, 5);
  }

  lemma {:induction false} SmallerBlocks(p: nat, n: nat, k: nat)
    ensures forall b | b in InitBlocks(p, n, k) :: b.order <= k
    decreases n, k
  {
    if n >= Pow2(k) {
      SmallerBlocks(p + Pow2(k), n - Pow2(k), k);
    } else if n > 0 && k > 0 {
      SmallerBlocks(p, n, k - 1);
    }
  }

  /** So the last of them heads the list, and is served first. */
  lemma TopHead(l: Lists, n: nat)
    requires |l| == 11 && AllDescending(l) && BlocksOf(l) == InitBlocks(0, n, 10)
    ensures n >= 1024 ==> l[10] != [] && l[10][0] == (n / 1024 - 1) * 1024
    ensures n < 1024 ==> l[10] == []
  {
    if n >= 1024 {
      var q: nat := (n / 1024 - 1) * 1024;
      TopBlocks(0, n, q);
      InBlocks(l, Block(q, 10));
      TopBlocks(0, n, l[10][0]);
      InBlocks(l, Block(l[10][0], 10));
      assert Descending(l[10]);
    } else if l[10] != [] {
      TopBlocks(0, n, l[10][0]);
      InBlocks(l, Block(l[10][0], 10));
    }
  }
}
