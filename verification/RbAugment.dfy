/** Augmented trees: rb_augment_insert and rb_augment_erase keep a per-node summary up to date. */
module RbAugment {
  import opened RbCells
  import opened RbInsertFixup
  import opened RbRelink
  import opened RbTree

  /** The summary of a possibly empty subtree. */
  datatype Summary = Empty | Sum(v: int)

  /** The client's rule for a summary, given the node and the summaries of its children. */
  type Rule = (Node, Summary, Summary) -> int

  function SumOf(n: Node?): Summary
    reads n
  {
    if n == null then Empty else Sum(n.sum)
  }

  /** The summary of x agrees with those of its children. */
  ghost predicate Fresh(x: Node, f: Rule)
    reads x, x.left, x.right
  {
    x.sum == f(x, SumOf(x.left), SumOf(x.right))
  }

  /** The callback func: recomputes the summary of n from its children. */
  method Apply(n: Node, f: Rule)
    modifies n`sum
    ensures n.left != n && n.right != n ==> Fresh(n, f)
  {
    n.sum := f(n, SumOf(n.left), SumOf(n.right));
  }

  /** A node that covers the position of x, other than x, also covers the parent of x. */
  lemma {:induction false} AncestorsCoverParent(m: Heap, root: Node?, order: seq<Node>, y: Node, x: Node)
    requires Shaped(m, root, order) && x in m && y != x && Covers(m, y, m[x].at.pos)
    ensures m[x].parent != null && m[x].parent in m && Covers(m, y, m[m[x].parent].at.pos)
    decreases m[y].at.hi - m[y].at.lo
  {
    assert Linked(m, root, y) && Placed(m, order, y) && Placed(m, order, x);
    var kid := if m[x].at.pos < m[y].at.pos then m[y].left else m[y].right;
    assert kid != null && Covers(m, kid, m[x].at.pos);
    if kid != x {
      AncestorsCoverParent(m, root, order, kid, x);
    }
  }

  /** x is on the path from position k to the root, or a sibling of a node on it. */
  ghost predicate OnRoute(m: Heap, x: Node, from: Node) {
    && x in m && from in m
    && (|| Covers(m, x, m[from].at.pos)
        || (m[x].parent != null && m[x].parent != from && Covers(m, m[x].parent, m[from].at.pos)))
  }

  /** Going from x to its parent leaves behind only x and its sibling. */
  lemma RouteGoesUp(m: Heap, root: Node?, order: seq<Node>, x: Node, y: Node)
    requires Shaped(m, root, order) && x in m && y in m && OnRoute(m, y, x)
    ensures m[x].parent == null ==> y == x
    ensures m[x].parent != null ==> m[x].parent in m
    ensures m[x].parent != null ==> y == x || m[y].parent == m[x].parent || OnRoute(m, y, m[x].parent)
  {
    assert Linked(m, root, x) && Linked(m, root, y);
    if y != x && Covers(m, y, m[x].at.pos) {
      AncestorsCoverParent(m, root, order, y, x);
    } else if y != x {
      AncestorsCoverParent(m, root, order, m[y].parent, x);
    }
  }

  /** func applied to a linked node: only the freshness of its parent can suffer. */
  method Recompute(t: Root, n: Node, f: Rule)
    requires t.Valid() && n in t.nodes
    modifies n`sum
    ensures Fresh(n, f)
    ensures forall y | y in t.nodes && y != n && y != n.parent :: Fresh(y, f) == old(Fresh(y, f))
  {
    LinksLead(t.Cells(), t.node, t.order, n);
    assert forall y | y in t.nodes :: t.Cells()[y].left == y.left && t.Cells()[y].right == y.right;
    Apply(n, f);
  }

  /** Going from x to its parent, for all nodes at once. */
  lemma RouteGoesUpForAll(m: Heap, root: Node?, order: seq<Node>, x: Node)
    requires Shaped(m, root, order) && x in m
    ensures m[x].parent == null ==> forall y | y in m && OnRoute(m, y, x) :: y == x
    ensures m[x].parent != null ==> m[x].parent in m
    ensures m[x].parent != null ==>
      forall y | y in m && OnRoute(m, y, x) && !OnRoute(m, y, m[x].parent) :: y == x || m[y].parent == m[x].parent
  {
    assert Linked(m, root, x);
    forall y | y in m && OnRoute(m, y, x)
      ensures m[x].parent == null ==> y == x
      ensures m[x].parent != null && !OnRoute(m, y, m[x].parent) ==> y == x || m[y].parent == m[x].parent
    {
      RouteGoesUp(m, root, order, x, y);
    }
  }

  /** One round of rb_augment_path: func for x and for its sibling, if it has one. */
  method AugmentBoth(t: Root, x: Node, f: Rule) returns (parent: Node?)
    requires t.Valid() && x in t.nodes
    modifies t.nodes`sum
    ensures parent == x.parent
    ensures forall y | y in t.nodes && (y == x || (parent != null && y.parent == parent)) :: Fresh(y, f)
    ensures forall y | y in t.nodes && y != parent :: old(Fresh(y, f)) ==> Fresh(y, f)
  {
    ghost var m := t.Cells();
    t.ParentLinked(x);
    parent := x.parent;
    Recompute(t, x, f);
    if parent != null {
      t.KidsLinked(parent);
      SiblingsOnly(m, t.node, t.order, parent);
      assert forall y | y in t.nodes && y.parent == parent :: m[y].parent == parent;
      if x == parent.left && parent.right != null {
        Recompute(t, parent.right, f);
      } else if parent.left != null {
        Recompute(t, parent.left, f);
      }
    }
  }

  /** rb_augment_path: applies func to every node from start to the root and to their siblings.
      When no other summary was stale, none is afterwards. */
  method AugmentPath(t: Root, start: Node, f: Rule)
    requires t.Valid() && start in t.nodes
    requires forall y | y in t.nodes :: Fresh(y, f) || OnRoute(t.Cells(), y, start)
    modifies t.nodes`sum
    ensures forall y | y in t.nodes :: Fresh(y, f)
  {
    var x := start;
    ghost var m := t.Cells();
    while true
      invariant x in t.nodes && t.Cells() == m
      invariant forall y | y in t.nodes :: Fresh(y, f) || OnRoute(m, y, x)
      decreases |t.order| - (x.at.hi - x.at.lo)
    {
      RouteGoesUpForAll(m, t.node, t.order, x);
      var parent := AugmentBoth(t, x, f);
      if parent == null {
        return;
      }
      SliceGrows(m, t.node, t.order, x);
      x := parent;
    }
  }

  lemma SliceGrows(m: Heap, root: Node?, order: seq<Node>, x: Node)
    requires Shaped(m, root, order) && x in m && m[x].parent != null
    ensures m[x].parent in m && OnRoute(m, m[x].parent, m[x].parent)
    ensures m[x].at.hi - m[x].at.lo < m[m[x].parent].at.hi - m[m[x].parent].at.lo <= |order|
  {
    assert Linked(m, root, x) && Placed(m, order, x);
    assert Linked(m, root, m[x].parent) && Placed(m, order, m[x].parent);
  }

  lemma SiblingsOnly(m: Heap, root: Node?, order: seq<Node>, p: Node)
    requires Shaped(m, root, order) && p in m
    ensures forall y {:trigger m[y]} | y in m && m[y].parent == p :: y == m[p].left || y == m[p].right
    ensures Covers(m, p, m[p].at.pos)
  {
    LinksLead(m, root, order, p);
    assert Placed(m, order, p);
  }

  lemma {:induction false} AncestorsCoverSlice(m: Heap, root: Node?, order: seq<Node>, y: Node, x: Node)
    requires Shaped(m, root, order) && x in m && Covers(m, y, m[x].at.pos)
    ensures m[y].at.lo <= m[x].at.lo && m[x].at.hi <= m[y].at.hi
    decreases m[y].at.hi - m[y].at.lo
  {
    assert Linked(m, root, y) && Placed(m, order, y) && Placed(m, order, x);
    if m[y].at.pos == m[x].at.pos {
      assert y == x;
    } else {
      var kid := if m[x].at.pos < m[y].at.pos then m[y].left else m[y].right;
      assert kid != null && Covers(m, kid, m[x].at.pos);
      AncestorsCoverSlice(m, root, order, kid, x);
    }
  }

  /** Starting at a child of n, when there is one, the route also passes n and its other child. */
  lemma NearIsOnRoute(m: Heap, root: Node?, order: seq<Node>, n: Node, start: Node, y: Node)
    requires Shaped(m, root, order) && n in m && Near(m, y, m[n].at.pos, false)
    requires start == if m[n].left != null then m[n].left else if m[n].right != null then m[n].right else n
    ensures OnRoute(m, y, start)
  {
    assert Linked(m, root, n) && Placed(m, order, n) && Placed(m, order, start) && Linked(m, root, y);
    var c := if Covers(m, y, m[n].at.pos) then y else m[y].parent;
    AncestorsCoverSlice(m, root, order, c, n);
  }

  /** rb_augment_insert. */
  method AugmentInsert(t: Root, n: Node, f: Rule)
    requires t.Valid() && n in t.nodes
    requires forall y | y in t.nodes :: Fresh(y, f) || Near(t.Cells(), y, n.at.pos, false)
    modifies t.nodes`sum
    ensures forall y | y in t.nodes :: Fresh(y, f)
  {
    t.KidsLinked(n);
    var start := n;
    if n.left != null {
      start := n.left;
    } else if n.right != null {
      start := n.right;
    }
    forall y | y in t.nodes && Near(t.Cells(), y, n.at.pos, false) ensures OnRoute(t.Cells(), y, start) {
      NearIsOnRoute(t.Cells(), t.node, t.order, n, start, y);
    }
    AugmentPath(t, start, f);
  }

  /** rb_augment_erase_begin: the deepest node on the repaired path that stays when n goes. */
  method AugmentEraseBegin(t: Root, n: Node) returns (deepest: Node?)
    requires t.Valid() && n in t.nodes
    ensures deepest == DeepestLeft(t.Cells(), t.order, n)
  {
    t.KidsLinked(n);
    t.ParentLinked(n);
    if n.right == null && n.left == null {
      deepest := n.parent;
    } else if n.right == null {
      deepest := n.left;
    } else if n.left == null {
      deepest := n.right;
    } else {
      deepest := t.Next(n);
      t.KidsLinked(deepest);
      if deepest.right != null {
        deepest := deepest.right;
      } else if deepest.parent != n {
        deepest := deepest.parent;
      }
    }
  }

  /** rb_augment_erase_end. */
  method AugmentEraseEnd(t: Root, node: Node?, f: Rule)
    requires t.Valid()
    requires if node == null then t.nodes == {}
             else node in t.nodes
                  && forall y | y in t.nodes :: Fresh(y, f) || Near(t.Cells(), y, node.at.pos, true)
    modifies t.nodes`sum
    ensures forall y | y in t.nodes :: Fresh(y, f)
  {
    if node != null {
      AugmentPath(t, node, f);
    }
  }

  /** rb_link_node makes only the new leaf and its ancestors stale. */
  method LinkStale(t: Root, n: Node, parent: Node?, s: Side, f: Rule)
    requires t.Valid() && n !in t.nodes
    requires if parent == null then t.node == null
             else parent in t.nodes && (if s.Left? then parent.left == null else parent.right == null)
    requires forall y | y in t.nodes :: Fresh(y, f)
    modifies t, t.nodes, n
    ensures t.nodes == old(t.nodes) + {n} && Inserting(t.Cells(), t.node, t.order, n)
    ensures var k := if parent == null then 0 else if s.Left? then old(parent.at.pos) else old(parent.at.pos) + 1;
      0 <= k <= |old(t.order)| && t.order == old(t.order)[..k] + [n] + old(t.order)[k..]
    ensures forall y | y in t.nodes :: Fresh(y, f) || Covers(t.Cells(), y, n.at.pos)
  {
    ghost var m := t.Cells();
    t.LinkNode(n, parent, s);
    ghost var m1 := t.Cells();
    assert Placed(m1, t.order, n);
    CoversUp(m1, t.node, t.order, n, n.at.pos);
    forall y | y in t.nodes ensures Fresh(y, f) || Covers(m1, y, n.at.pos) {
      if y != n && y != parent {
        assert SameKids(m, m1, y) && old(Fresh(y, f));
      }
    }
  }

  /** rb_insert_color keeps the stale nodes near the path from the new leaf. */
  method ColorStale(t: Root, n: Node, f: Rule)
    requires n in t.nodes && Inserting(t.Cells(), t.node, t.order, n)
    requires forall y | y in t.nodes :: Fresh(y, f) || Covers(t.Cells(), y, n.at.pos)
    modifies t, t.nodes
    ensures t.Valid() && t.nodes == old(t.nodes) && t.order == old(t.order)
    ensures forall y | y in t.nodes :: Fresh(y, f) || Near(t.Cells(), y, n.at.pos, false)
  {
    ghost var m, root, k := t.Cells(), t.node, n.at.pos;
    t.InsertColor(n);
    SamePlace(m, root, t.Cells(), t.node, t.order, n);
    forall y | y in t.nodes ensures Fresh(y, f) || Near(t.Cells(), y, k, false) {
      assert Untouched(m, t.Cells(), y) || Near(t.Cells(), y, k, false);
    }
  }

  /** Linking, repairing and rb_augment_insert together keep every summary correct. */
  method InsertAugmented(t: Root, n: Node, parent: Node?, s: Side, f: Rule)
    requires t.Valid() && n !in t.nodes
    requires if parent == null then t.node == null
             else parent in t.nodes && (if s.Left? then parent.left == null else parent.right == null)
    requires forall y | y in t.nodes :: Fresh(y, f)
    modifies t, t.nodes, n
    ensures t.Valid() && t.nodes == old(t.nodes) + {n}
    ensures var k := if parent == null then 0 else if s.Left? then old(parent.at.pos) else old(parent.at.pos) + 1;
      0 <= k <= |old(t.order)| && t.order == old(t.order)[..k] + [n] + old(t.order)[k..]
    ensures forall y | y in t.nodes :: Fresh(y, f)
  {
    LinkStale(t, n, parent, s, f);
    ColorStale(t, n, f);
    AugmentInsert(t, n, f);
  }

  /** rb_augment_erase_begin, rb_erase and rb_augment_erase_end together keep every summary correct. */
  method EraseAugmented(t: Root, n: Node, f: Rule)
    requires t.Valid() && n in t.nodes
    requires forall y | y in t.nodes :: Fresh(y, f)
    modifies t, t.nodes
    ensures t.Valid() && t.nodes == old(t.nodes) - {n}
    ensures var k := old(n.at.pos);
      0 <= k < |old(t.order)| && t.order == old(t.order)[..k] + old(t.order)[k + 1..]
    ensures forall y | y in t.nodes :: Fresh(y, f)
  {
    ghost var m := t.Cells();
    var deepest := AugmentEraseBegin(t, n);
    t.Erase(n);
    AugmentEraseEnd(t, deepest, f);
  }
}
