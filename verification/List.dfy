/** The circular doubly linked list of include/lib/list.h. Every operation takes, as ghost
    state, the ring of list heads that it works on, starting anywhere, and says which ring results. */
module List {
  import opened Common

  /** struct list_head. The owner stands for the structure it is embedded in, which list_entry
      recovers by address arithmetic. */
  class ListHead {
    const owner: nat
    var next: ListHead
    var prev: ListHead

    /** INIT_LIST_HEAD on a fresh list head. */
    constructor (o: nat)
      ensures owner == o && next == this && prev == this
      ensures IsRing([this])
    {
      owner := o;
      next, prev := this, this;
    }
  }

  function After(r: seq<ListHead>, i: nat): (h: ListHead)
    requires i < |r|
  {
    if i + 1 < |r| then r[i + 1] else r[0]
  }

  function Before(r: seq<ListHead>, i: nat): (h: ListHead)
    requires i < |r|
  {
    if 0 < i then r[i - 1] else r[|r| - 1]
  }

  /** Following next from r[0] visits r in order and comes back, and prev inverts next. */
  ghost predicate IsRing(r: seq<ListHead>)
    reads r
  {
    && |r| > 0 && Distinct(r)
    && (forall i {:trigger r[i].next} | 0 <= i < |r| :: r[i].next == After(r, i))
    && (forall i {:trigger r[i].prev} | 0 <= i < |r| :: r[i].prev == Before(r, i))
  }

  ghost function Inserted(r: seq<ListHead>, i: nat, x: ListHead): seq<ListHead>
    requires i <= |r|
  {
    r[..i] + [x] + r[i..]
  }

  ghost function Removed(r: seq<ListHead>, i: nat): seq<ListHead>
    requires i < |r|
  {
    r[..i] + r[i + 1..]
  }

  /** __list_add: x goes in between two neighbours. */
  method AddBetween(x: ListHead, prev: ListHead, next: ListHead, ghost r: seq<ListHead>, ghost i: nat)
    requires IsRing(r) && x !in r && i < |r| && prev == r[i] && next == After(r, i)
    modifies x`next, x`prev, prev`next, next`prev
    ensures IsRing(r[..i + 1] + [x] + r[i + 1..]) && prev.next == x && x.prev == prev && x.next == next && next.prev == x
  {
    next.prev := x;
    x.next := next;
    x.prev := prev;
    prev.next := x;
    ghost var n := if i + 1 < |r| then i + 1 else 0;
    assert forall k {:trigger r[k].next} | 0 <= k < |r| :: r[k].next == if k == i then x else After(r, k);
    assert forall k {:trigger r[k].prev} | 0 <= k < |r| :: r[k].prev == if k == n then x else Before(r, k);
    InsertedIsRing(r, i, x);
  }

  /** A ring whose two links between positions i and i + 1 lead to x instead, and whose x links back. */
  lemma InsertedIsRing(r: seq<ListHead>, i: nat, x: ListHead)
    requires i < |r| && Distinct(r) && x !in r
    requires x.next == After(r, i) && x.prev == r[i]
    requires forall k {:trigger r[k].next} | 0 <= k < |r| :: r[k].next == if k == i then x else After(r, k)
    requires var n := if i + 1 < |r| then i + 1 else 0;
      forall k {:trigger r[k].prev} | 0 <= k < |r| :: r[k].prev == if k == n then x else Before(r, k)
    ensures IsRing(Inserted(r, i + 1, x))
  {
    var r' := Inserted(r, i + 1, x);
    forall j | 0 <= j < |r'| ensures r'[j].next == After(r', j) && r'[j].prev == Before(r', j) {
      if j <= i {
        assert r'[j] == r[j];
      } else if j > i + 1 {
        assert r'[j] == r[j - 1];
      }
    }
  }

  /** list_add: x becomes the first entry after head. */
  method Add(x: ListHead, head: ListHead, ghost r: seq<ListHead>, ghost i: nat)
    requires IsRing(r) && x !in r && i < |r| && head == r[i]
    modifies x`next, x`prev, r`next, r`prev
    ensures IsRing(r[..i + 1] + [x] + r[i + 1..]) && head.next == x && x.prev == head && x.next == old(head.next)
    ensures forall h | h in r && h != head && h != After(r, i) :: h.next == old(h.next) && h.prev == old(h.prev)
  {
    AddBetween(x, head, head.next, r, i);
  }

  /** list_add_before and list_add_tail: x becomes the entry just before head. */
  method AddBefore(x: ListHead, head: ListHead, ghost r: seq<ListHead>, ghost i: nat)
    requires IsRing(r) && x !in r && i < |r| && head == r[i]
    modifies x`next, x`prev, r`next, r`prev
    ensures head.prev == x && x.next == head && x.prev == old(head.prev)
    ensures IsRing(if i == 0 then r + [x] else r[..i] + [x] + r[i..])
  {
    AddBetween(x, head.prev, head, r, if i == 0 then |r| - 1 else i - 1);
  }

  /** list_del: the ring closes over entry, whose own two links stay as they were. */
  method Del(entry: ListHead, ghost r: seq<ListHead>, ghost i: nat)
    requires IsRing(r) && |r| > 1 && i < |r| && entry == r[i]
    modifies r`next, r`prev
    ensures IsRing(r[..i] + r[i + 1..])
    ensures entry.next == After(r, i) && entry.prev == Before(r, i)
  {
    ghost var n, p := if i + 1 < |r| then i + 1 else 0, if 0 < i then i - 1 else |r| - 1;
    entry.next.prev := entry.prev;
    entry.prev.next := entry.next;
    assert forall k {:trigger r[k].next} | 0 <= k < |r| :: r[k].next == if k == p then After(r, i) else After(r, k);
    assert forall k {:trigger r[k].prev} | 0 <= k < |r| :: r[k].prev == if k == n then Before(r, i) else Before(r, k);
    RemovedIsRing(r, i);
  }

  lemma RemovedIsRing(r: seq<ListHead>, i: nat)
    requires i < |r| && |r| > 1 && Distinct(r)
    requires var p := if 0 < i then i - 1 else |r| - 1;
      forall k {:trigger r[k].next} | 0 <= k < |r| :: r[k].next == if k == p then After(r, i) else After(r, k)
    requires var n := if i + 1 < |r| then i + 1 else 0;
      forall k {:trigger r[k].prev} | 0 <= k < |r| :: r[k].prev == if k == n then Before(r, i) else Before(r, k)
    ensures IsRing(Removed(r, i))
  {
    var r' := Removed(r, i);
    RemovedAt(r, i);
    forall j | 0 <= j < |r'| ensures r'[j].next == After(r', j) && r'[j].prev == Before(r', j) {
      var u := if j < i then j else j + 1;
      RemovedLinks(r, i, j);
      assert r[u].next == After(r', j) && r[u].prev == Before(r', j);
    }
  }

  /** The entry at position j of the shortened sequence, and its neighbours there. */
  lemma RemovedAt(r: seq<ListHead>, i: nat)
    requires i < |r| && Distinct(r)
    ensures |Removed(r, i)| == |r| - 1 && Distinct(Removed(r, i))
    ensures forall j {:trigger Removed(r, i)[j]} | 0 <= j < |r| - 1 :: Removed(r, i)[j] == r[if j < i then j else j + 1]
  {
  }

  lemma RemovedLinks(r: seq<ListHead>, i: nat, j: nat)
    requires i < |r| && |r| > 1 && Distinct(r) && j < |r| - 1
    ensures var r' := Removed(r, i); var u := if j < i then j else j + 1;
      && |r'| == |r| - 1
      && After(r', j) == (if After(r, u) == r[i] then After(r, i) else After(r, u))
      && Before(r', j) == (if Before(r, u) == r[i] then Before(r, i) else Before(r, u))
  {
    RemovedAt(r, i);
  }

  /** list_splice: the entries of the ring r go in right after the head of the ring q. The head
      r[0] itself stays out, with its links as they were. */
  method Splice(list: ListHead, head: ListHead, ghost r: seq<ListHead>, ghost q: seq<ListHead>)
    requires IsRing(r) && IsRing(q) && Distinct(r + q) && list == r[0] && head == q[0]
    modifies r`next, r`prev, q`next, q`prev
    ensures IsRing([head] + r[1..] + q[1..])
    ensures list.next == After(r, 0) && list.prev == Before(r, 0)
  {
    assert forall k | 0 <= k < |r| :: (r + q)[k] == r[k];
    assert forall k | 0 <= k < |q| :: (r + q)[|r| + k] == q[k];
    if list.next == list {
      assert r[1..] == [];
      assert [head] + r[1..] + q[1..] == q;
      return;
    }
    var next := head.next;
    var first := list.next;
    var last := list.prev;
    first.prev := head;
    head.next := first;
    last.next := next;
    next.prev := last;
    assert forall k {:trigger r[k].next} | 0 < k < |r| - 1 :: r[k].next == r[k + 1];
    assert forall k {:trigger r[k].prev} | 1 < k < |r| :: r[k].prev == r[k - 1];
    assert forall k {:trigger q[k].next} | 0 < k < |q| :: q[k].next == After(q, k);
    assert forall k {:trigger q[k].prev} | 1 < k < |q| :: q[k].prev == q[k - 1];
    SplicedIsRing(r, q);
  }

  lemma SplicedIsRing(r: seq<ListHead>, q: seq<ListHead>)
    requires |r| > 1 && |q| > 0 && Distinct(r + q)
    requires q[0].next == r[1] && r[1].prev == q[0]
    requires r[|r| - 1].next == After(q, 0) && After(q, 0).prev == r[|r| - 1]
    requires forall k {:trigger r[k].next} | 0 < k < |r| - 1 :: r[k].next == r[k + 1]
    requires forall k {:trigger r[k].prev} | 1 < k < |r| :: r[k].prev == r[k - 1]
    requires forall k {:trigger q[k].next} | 0 < k < |q| :: q[k].next == After(q, k)
    requires forall k {:trigger q[k].prev} | 1 < k < |q| :: q[k].prev == q[k - 1]
    requires |q| > 1 ==> q[0].prev == q[|q| - 1]
    ensures IsRing([q[0]] + r[1..] + q[1..])
  {
    var s := [q[0]] + r[1..] + q[1..];
    forall i, j | 0 <= i < j < |s| ensures s[i] != s[j] {
      assert s[i] == (r + q)[if i == 0 then |r| else if i < |r| then i else i + 1];
      assert s[j] == (r + q)[if j < |r| then j else j + 1];
    }
    forall j | 0 <= j < |s| ensures s[j].next == After(s, j) && s[j].prev == Before(s, j) {
      if 0 < j < |r| {
        assert s[j] == r[j];
      } else if j >= |r| {
        assert s[j] == q[j - |r| + 1];
      }
    }
  }

  /** list_cut_position: the entries of the ring r up to position i move to the head list. With
      i == 0 nothing moves, and on an empty ring even list stays as it was. */
  method CutPosition(list: ListHead, head: ListHead, entry: ListHead, ghost r: seq<ListHead>, ghost i: nat)
    requires IsRing(r) && list !in r && i < |r| && head == r[0] && entry == r[i]
    modifies list`next, list`prev, r`next, r`prev
    ensures i == 0 ==> IsRing(r) && (|r| > 1 ==> IsRing([list]))
    ensures i == 0 && |r| == 1 ==> list.next == old(list.next) && list.prev == old(list.prev)
    ensures i > 0 ==> IsRing([list] + r[1..i + 1]) && IsRing([head] + r[i + 1..])
  {
    if head.next == head {
      return;
    }
    if head.next != head && head.next == head.prev && head.next != entry && head != entry {
      return;
    }
    if entry == head {
      list.next, list.prev := list, list;
    } else {
      var newFirst := entry.next;
      list.next := head.next;
      list.next.prev := list;
      list.prev := entry;
      entry.next := list;
      head.next := newFirst;
      newFirst.prev := head;
      CutIsRing(list, r, i);
    }
  }

  lemma CutIsRing(list: ListHead, r: seq<ListHead>, i: nat)
    requires 0 < i < |r| && Distinct(r) && list !in r
    requires list.next == r[1] && list.prev == r[i] && r[i].next == list && r[1].prev == list
    requires r[0].next == After(r, i) && After(r, i).prev == r[0]
    requires forall k {:trigger r[k].next} | 0 < k < |r| && k != i :: r[k].next == After(r, k)
    requires forall k {:trigger r[k].prev} | 1 < k < |r| && k != i + 1 :: r[k].prev == r[k - 1]
    requires i + 1 < |r| ==> r[0].prev == r[|r| - 1]
    ensures IsRing([list] + r[1..i + 1]) && IsRing([r[0]] + r[i + 1..])
  {
    FrontIsRing(list, r, i);
    BackIsRing(r, i);
  }

  /** The part that moves to list. */
  lemma FrontIsRing(list: ListHead, r: seq<ListHead>, i: nat)
    requires 0 < i < |r| && Distinct(r) && list !in r
    requires list.next == r[1] && list.prev == r[i] && r[i].next == list && r[1].prev == list
    requires forall k {:trigger r[k].next} | 0 < k < i :: r[k].next == r[k + 1]
    requires forall k {:trigger r[k].prev} | 1 < k <= i :: r[k].prev == r[k - 1]
    ensures IsRing([list] + r[1..i + 1])
  {
    var a := [list] + r[1..i + 1];
    assert |a| == i + 1 && forall j | 0 < j <= i :: a[j] == r[j];
    assert forall j {:trigger a[j].next} | 0 <= j < |a| :: a[j].next == After(a, j);
    assert forall j {:trigger a[j].prev} | 0 <= j < |a| :: a[j].prev == Before(a, j);
  }

  /** The part that stays. */
  lemma BackIsRing(r: seq<ListHead>, i: nat)
    requires 0 < i < |r| && Distinct(r)
    requires r[0].next == After(r, i) && After(r, i).prev == r[0]
    requires forall k {:trigger r[k].next} | i < k < |r| :: r[k].next == After(r, k)
    requires forall k {:trigger r[k].prev} | i + 1 < k < |r| :: r[k].prev == r[k - 1]
    requires i + 1 < |r| ==> r[0].prev == r[|r| - 1]
    ensures IsRing([r[0]] + r[i + 1..])
  {
    var b := [r[0]] + r[i + 1..];
    assert |b| == |r| - i && forall j | 0 < j < |b| :: b[j] == r[i + j];
    assert forall j {:trigger b[j].next} | 0 <= j < |b| :: b[j].next == After(b, j);
    assert forall j {:trigger b[j].prev} | 0 <= j < |b| :: b[j].prev == Before(b, j);
  }

  lemma TwoRing(h: ListHead, l: ListHead)
    requires IsRing([h, l])
    ensures IsRing([l, h])
  {
    var hl := [h, l];
    assert hl[0] != hl[1];
    assert hl[0].next == l && hl[1].next == h && hl[0].prev == l && hl[1].prev == h;
  }

  /** INIT_LIST_HEAD, and list_add of the one entry for i. */
  method OneEntry(i: nat) returns (head: ListHead, entry: ListHead)
    ensures fresh(head) && fresh(entry) && IsRing([entry, head]) && entry.owner == i
  {
    head := new ListHead(0);
    entry := new ListHead(i);
    Add(entry, head, [head], 0);
    assert Inserted([head], 1, entry) == [head, entry];
    TwoRing(head, entry);
  }
}
