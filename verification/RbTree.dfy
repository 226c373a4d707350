/** The red-black tree operations of lib/rbtree.c on mutable nodes. */
module RbTree {
  import opened RbCells
  import opened RbInsertFixup
  import opened RbEraseFixup
  import opened RbRelink

  /** struct rb_root, with the set of linked nodes and their in-order sequence as ghost state. */
  class Root {
    var node: Node?
    ghost var nodes: set<Node>
    ghost var order: seq<Node>

    /** The contents of all linked nodes. */
    ghost function Cells(): Heap
      reads this`nodes, nodes`left, nodes`right, nodes`parent, nodes`black, nodes`at
    {
      map x | x in nodes :: Cell(x.left, x.right, x.parent, x.black, x.at)
    }

    ghost predicate Valid()
      reads this, nodes`left, nodes`right, nodes`parent, nodes`black, nodes`at
    {
      RedBlack(Cells(), node, order)
    }

    constructor ()
      ensures Valid() && order == [] && nodes == {}
    {
      node, nodes, order := null, {}, [];
    }

    method RotateLeft(n: Node)
      requires n in nodes && Pivot(Cells(), n, Left)
      modifies this`node, nodes`left, nodes`right, nodes`parent, nodes`at
      ensures Rotated(old(Cells()), Cells(), n, Left)
      ensures node == RotatedRoot(old(Cells()), old(node), n, Left)
    {
      var right := n.right;
      var parent := n.parent;
      n.right := right.left;
      if n.right != null {
        right.left.parent := n;
      }
      right.left := n;
      right.parent := parent;
      if parent != null {
        if n == parent.left {
          parent.left := right;
        } else {
          parent.right := right;
        }
      } else {
        node := right;
      }
      n.parent := right;
      right.at, n.at := right.at.(lo := n.at.lo), n.at.(hi := right.at.pos);
    }

    method RotateRight(n: Node)
      requires n in nodes && Pivot(Cells(), n, Right)
      modifies this`node, nodes`left, nodes`right, nodes`parent, nodes`at
      ensures Rotated(old(Cells()), Cells(), n, Right)
      ensures node == RotatedRoot(old(Cells()), old(node), n, Right)
    {
      var left := n.left;
      var parent := n.parent;
      n.left := left.right;
      if n.left != null {
        left.right.parent := n;
      }
      left.right := n;
      left.parent := parent;
      if parent != null {
        if n == parent.right {
          parent.right := left;
        } else {
          parent.left := left;
        }
      } else {
        node := left;
      }
      n.parent := left;
      left.at, n.at := left.at.(hi := n.at.hi), n.at.(lo := left.at.pos + 1);
    }

    /** The recolouring for a red uncle. */
    method PaintFlipped(parent: Node, uncle: Node, gparent: Node)
      requires {parent, uncle, gparent} <= nodes && uncle != parent && gparent != parent && gparent != uncle
      modifies nodes`black, nodes`at
      ensures ColoursFlipped(old(Cells()), Cells(), parent, uncle, gparent)
    {
      uncle.black, uncle.at := true, uncle.at.(bh := uncle.at.bh + 1);
      parent.black, parent.at := true, parent.at.(bh := parent.at.bh + 1);
      gparent.black := false;
    }

    /** The recolouring before a rotation that moves parent above gparent. */
    method PaintTop(parent: Node, gparent: Node)
      requires {parent, gparent} <= nodes && gparent != parent
      modifies nodes`black, nodes`at
      ensures TopRecoloured(old(Cells()), Cells(), parent, gparent)
    {
      parent.black, parent.at := true, parent.at.(bh := parent.at.bh + 1);
      gparent.black, gparent.at := false, gparent.at.(bh := gparent.at.bh - 1);
    }

    /** The last step for a red node z with z == parent.left and parent == gparent.left. */
    method LiftLeft(z: Node, parent: Node, gparent: Node)
      requires {z, parent, gparent} <= nodes && Inserting(Cells(), node, order, z)
      requires z.parent == parent && parent.parent == gparent && parent.left == z && gparent.left == parent
      requires !parent.black && !IsRed(Cells(), gparent.right)
      modifies this`node, nodes`left, nodes`right, nodes`parent, nodes`black, nodes`at
      ensures nodes == old(nodes) && order == old(order)
      ensures Valid() && z.parent == parent && parent.black
      ensures Turned(old(Cells()), Cells(), gparent, parent)
    {
      ghost var m, root := Cells(), node;
      GrandparentExists(m, root, order, z);
      PaintTop(parent, gparent);
      ghost var m1 := Cells();
      TopPivot(m, m1, root, order, z, Left);
      RotateRight(gparent);
      RotateOuter(m, m1, Cells(), root, order, z, Left);
    }

    /** One round of rb_insert_color below a parent that is a left child: either the fault moves
        two levels up, to next, or the tree is valid again. */
    method InsertLeft(z: Node, ghost k: int) returns (next: Node)
      requires z in nodes && Inserting(Cells(), node, order, z) && z.parent != null
      requires Covers(Cells(), z, k)
      requires z.parent in nodes && !z.parent.black && z.parent.parent != null
      requires z.parent.parent in nodes && z.parent == z.parent.parent.left
      modifies this`node, nodes`left, nodes`right, nodes`parent, nodes`black, nodes`at
      ensures nodes == old(nodes) && order == old(order) && next in nodes
      ensures Settled(old(Cells()), Cells(), k, false)
      ensures next.parent != null && !next.parent.black ==> AllSameKids(old(Cells()), Cells()) && Covers(Cells(), next, k)
      ensures next.parent != null && !next.parent.black ==>
                Inserting(Cells(), node, order, next) && next.at.hi - next.at.lo > old(z.at.hi - z.at.lo)
      ensures Inserting(Cells(), node, order, next) || (Valid() && next.parent != null && next.parent.black)
    {
      next := z;
      var parent := z.parent;
      var gparent := parent.parent;
      ghost var m, root := Cells(), node;
      GrandparentExists(m, root, order, z);
      CoversUp(m, root, order, z, k);
      CoversUp(m, root, order, parent, k);
      var uncle := gparent.right;
      if uncle != null && !uncle.black {
        PaintFlipped(parent, uncle, gparent);
        FlipColours(m, Cells(), root, order, z, uncle);
        return gparent;
      }
      if parent.right == z {
        PivotExists(m, root, order, parent, Left);
        RotateLeft(parent);
        RotateInner(m, Cells(), root, order, z, Left);
        next, parent := parent, z;
      }
      ghost var ma := Cells();
      LiftLeft(next, parent, gparent);
      if ma == m {
        OneTurn(m, Cells(), node, order, gparent, parent, k);
      } else {
        TwoTurns(m, ma, Cells(), node, order, next, parent, gparent, k);
      }
    }

    /** The last step for a red node z with z == parent.right and parent == gparent.right. */
    method LiftRight(z: Node, parent: Node, gparent: Node)
      requires {z, parent, gparent} <= nodes && Inserting(Cells(), node, order, z)
      requires z.parent == parent && parent.parent == gparent && parent.right == z && gparent.right == parent
      requires !parent.black && !IsRed(Cells(), gparent.left)
      modifies this`node, nodes`left, nodes`right, nodes`parent, nodes`black, nodes`at
      ensures nodes == old(nodes) && order == old(order)
      ensures Valid() && z.parent == parent && parent.black
      ensures Turned(old(Cells()), Cells(), gparent, parent)
    {
      ghost var m, root := Cells(), node;
      GrandparentExists(m, root, order, z);
      PaintTop(parent, gparent);
      ghost var m1 := Cells();
      TopPivot(m, m1, root, order, z, Right);
      RotateLeft(gparent);
      RotateOuter(m, m1, Cells(), root, order, z, Right);
    }

    /** One round of rb_insert_color below a parent that is a right child: either the fault moves
        two levels up, to next, or the tree is valid again. */
    method InsertRight(z: Node, ghost k: int) returns (next: Node)
      requires z in nodes && Inserting(Cells(), node, order, z) && z.parent != null
      requires Covers(Cells(), z, k)
      requires z.parent in nodes && !z.parent.black && z.parent.parent != null
      requires z.parent.parent in nodes && z.parent == z.parent.parent.right
      modifies this`node, nodes`left, nodes`right, nodes`parent, nodes`black, nodes`at
      ensures nodes == old(nodes) && order == old(order) && next in nodes
      ensures Settled(old(Cells()), Cells(), k, false)
      ensures next.parent != null && !next.parent.black ==> AllSameKids(old(Cells()), Cells()) && Covers(Cells(), next, k)
      ensures next.parent != null && !next.parent.black ==>
                Inserting(Cells(), node, order, next) && next.at.hi - next.at.lo > old(z.at.hi - z.at.lo)
      ensures Inserting(Cells(), node, order, next) || (Valid() && next.parent != null && next.parent.black)
    {
      next := z;
      var parent := z.parent;
      var gparent := parent.parent;
      ghost var m, root := Cells(), node;
      GrandparentExists(m, root, order, z);
      CoversUp(m, root, order, z, k);
      CoversUp(m, root, order, parent, k);
      var uncle := gparent.left;
      if uncle != null && !uncle.black {
        PaintFlipped(parent, uncle, gparent);
        FlipColours(m, Cells(), root, order, z, uncle);
        return gparent;
      }
      if parent.left == z {
        PivotExists(m, root, order, parent, Right);
        RotateRight(parent);
        RotateInner(m, Cells(), root, order, z, Right);
        next, parent := parent, z;
      }
      ghost var ma := Cells();
      LiftRight(next, parent, gparent);
      if ma == m {
        OneTurn(m, Cells(), node, order, gparent, parent, k);
      } else {
        TwoTurns(m, ma, Cells(), node, order, next, parent, gparent, k);
      }
    }

    /** rb_set_black. */
    method Blacken(n: Node)
      requires n in nodes
      modifies n`black, n`at
      ensures Cells() == old(Cells())[n := old(Cells())[n].Painted(true, if old(n.black) then old(n.at.bh) else old(n.at.bh) + 1)]
    {
      n.at := n.at.(bh := if n.black then n.at.bh else n.at.bh + 1);
      n.black := true;
    }

    /** What follows the loop of rb_insert_color: the root is painted black. */
    method FinishInsert(ghost z: Node)
      requires z in nodes
      requires (Inserting(Cells(), node, order, z) && !IsRed(Cells(), z.parent)) || Valid()
      modifies nodes`black, nodes`at
      ensures Valid() && Repainted(old(Cells()), Cells())
    {
      ghost var m := Cells();
      RootLinked();
      Blacken(node);
      if Inserting(m, node, order, z) && !IsRed(m, z.parent) {
        BlackenRoot(m, Cells(), node, order, z);
      } else {
        assert Cells() == m;
      }
    }

    /** rb_insert_color: repairs the tree after n has been linked in as a red leaf. */
    method InsertColor(n: Node)
      requires n in nodes && Inserting(Cells(), node, order, n)
      modifies this`node, nodes`left, nodes`right, nodes`parent, nodes`black, nodes`at
      ensures nodes == old(nodes) && order == old(order)
      ensures Valid() && Settled(old(Cells()), Cells(), old(n.at.pos), false)
    {
      ghost var m0, k := Cells(), n.at.pos;
      ParentLinked(n);
      var z := n;
      while z.parent != null && !z.parent.black
        invariant nodes == old(nodes) && order == old(order) && z in nodes
        invariant Settled(m0, Cells(), k, false)
        invariant z.parent != null && !z.parent.black ==> AllSameKids(m0, Cells()) && Covers(Cells(), z, k)
        invariant Inserting(Cells(), node, order, z) || (Valid() && z.parent != null && z.parent.black)
        decreases if z.parent == null || z.parent.black then 0 else 1 + |order| - (z.at.hi - z.at.lo)
      {
        ParentLinked(z);
        GrandparentExists(Cells(), node, order, z);
        if z.parent == z.parent.parent.left {
          z := InsertLeft(z, k);
        } else {
          z := InsertRight(z, k);
        }
      }
      ghost var m := Cells();
      FinishInsert(z);
      RepaintedSettled(m0, m, Cells(), k, false);
    }

    /** The stores of rb_link_node. */
    method StoreLeaf(n: Node, parent: Node?, s: Side)
      requires n !in nodes && (parent != null ==> parent in nodes)
      modifies this, nodes`left, nodes`right, nodes`parent, nodes`black, nodes`at, n`left, n`right, n`parent, n`black, n`at
      ensures nodes == old(nodes) + {n} && LeafLinked(old(Cells()), Cells(), n, parent, s)
      ensures node == (if parent == null then n else old(node)) && order == old(order)
    {
      ghost var k := LeafPos(Cells(), parent, s);
      n.parent, n.black := parent, false;
      n.left, n.right := null, null;
      if parent == null {
        node := n;
      } else if s.Left? {
        parent.left := n;
      } else {
        parent.right := n;
      }
      forall x | x in nodes {
        x.at := Spread(x.at, k, s);
      }
      n.at := Mark(k, k, k + 1, 0);
      nodes := nodes + {n};
    }

    /** rb_link_node: n becomes a red leaf on side s of parent, or the root of an empty tree. */
    method LinkNode(n: Node, parent: Node?, s: Side)
      requires Valid() && n !in nodes
      requires if parent == null then node == null
               else parent in nodes && (if s.Left? then parent.left == null else parent.right == null)
      modifies this, nodes`left, nodes`right, nodes`parent, nodes`black, nodes`at, n`left, n`right, n`parent, n`black, n`at
      ensures nodes == old(nodes) + {n} && Inserting(Cells(), node, order, n)
      ensures LeafLinked(old(Cells()), Cells(), n, parent, s)
      ensures var k := if parent == null then 0 else if s.Left? then old(parent.at.pos) else old(parent.at.pos) + 1;
        0 <= k <= |old(order)| && order == old(order)[..k] + [n] + old(order)[k..]
    {
      ghost var m, root := Cells(), node;
      ghost var k := if parent == null then 0 else if s.Left? then parent.at.pos else parent.at.pos + 1;
      assert k == LeafPos(m, parent, s);
      if parent != null {
        ParentLinked(parent);
      }
      StoreLeaf(n, parent, s);
      order := order[..k] + [n] + order[k..];
      LinkLeaf(m, Cells(), root, node, old(order), order, n, parent, s);
    }

    lemma ParentLinked(n: Node)
      requires n in nodes && Shaped(Cells(), node, order)
      ensures n.parent != null ==> n.parent in nodes && (n.parent.left == n || n.parent.right == n)
      ensures 0 <= n.at.lo <= n.at.pos < n.at.hi <= |order|
    {
      assert Linked(Cells(), node, n) && Placed(Cells(), order, n);
    }

    lemma RootLinked()
      requires nodes != {} && Shaped(Cells(), node, order)
      ensures node != null && node in nodes
    {
      var x :| x in nodes;
      assert Placed(Cells(), order, x);
    }

    lemma KidsLinked(n: Node)
      requires n in nodes && Shaped(Cells(), node, order)
      ensures n.left != null ==>
                n.left in nodes && n.left.parent == n && n.left.at.lo == n.at.lo && n.left.at.hi == n.at.pos
      ensures n.right != null ==>
                n.right in nodes && n.right.parent == n && n.right.at.lo == n.at.pos + 1 && n.right.at.hi == n.at.hi
      ensures n.left == null <==> n.at.lo == n.at.pos
      ensures n.right == null <==> n.at.pos + 1 == n.at.hi
    {
      assert Linked(Cells(), node, n);
    }

    /** Hands the place of n, a node with at most one child, to that child. */
    method Bypassed(n: Node) returns (child: Node?, parent: Node?, black: bool)
      requires Valid() && n in nodes && (n.left == null || n.right == null)
      modifies this`node, nodes`left, nodes`right, nodes`parent
      ensures child == OnlyChild(old(Cells())[n]) && parent == old(n.parent) && black == old(n.black)
      ensures node == if old(node) == n then child else old(node)
      ensures BypassStored(old(Cells()), Cells(), n)
    {
      LinksLead(Cells(), node, order, n);
      if n.left == null {
        child := n.right;
      } else {
        child := n.left;
      }
      parent := n.parent;
      black := n.black;
      if child != null {
        child.parent := parent;
      }
      if parent != null {
        if parent.left == n {
          parent.left := child;
        } else {
          parent.right := child;
        }
      } else {
        node := child;
      }
    }

    /** Ghost bookkeeping when n leaves: everything from position k on moves down by one, and y, if it
        is another node, gets the marks of n. */
    ghost method Retire(n: Node, y: Node, k: int)
      requires {n, y} <= nodes && 0 <= n.at.pos < |order|
      modifies this`nodes, this`order, nodes`at
      ensures nodes == old(nodes) - {n} && Retired(old(Cells()), Cells(), n, y, k)
      ensures order == old(order)[..old(n.at.pos)] + old(order)[old(n.at.pos) + 1..]
    {
      nodes := nodes - {n};
      order := order[..n.at.pos] + order[n.at.pos + 1..];
      forall x | x in nodes {
        x.at := Shrink(if x == y then n.at else x.at, k);
      }
    }

    /** The relinking of rb_erase for a node with at most one child. */
    method SpliceOut(n: Node) returns (child: Node?, parent: Node?, black: bool)
      requires Valid() && n in nodes && (n.left == null || n.right == null)
      modifies this, nodes`left, nodes`right, nodes`parent, nodes`black, nodes`at
      ensures nodes == old(nodes) - {n} && Cells() == Without(old(Cells()), n)
      ensures child == OnlyChild(old(Cells())[n]) && parent == old(n.parent) && black == old(n.black)
      ensures node == if old(node) == n then child else old(node)
      ensures var k := old(n.at.pos); 0 <= k < |old(order)| && order == old(order)[..k] + old(order)[k + 1..]
    {
      ghost var m, root := Cells(), node;
      ParentLinked(n);
      child, parent, black := Bypassed(n);
      ghost var m1 := Cells();
      Retire(n, n, n.at.pos);
      BypassedIsWithout(m, m1, Cells(), root, old(order), n);
    }

    /** The leftmost node below the right child of n. */
    method Successor(n: Node) returns (y: Node)
      requires Valid() && n in nodes && n.right != null
      ensures y in nodes && y.left == null && y.at.pos == n.at.pos + 1
      ensures y.at.hi <= n.at.hi && y.parent != null && y.parent in nodes && y.parent.at.hi <= n.at.hi
    {
      KidsLinked(n);
      y := n.right;
      ParentLinked(y);
      while y.left != null
        invariant y in nodes && y.at.lo == n.at.pos + 1 && y.at.hi <= n.at.hi
        invariant y.parent != null && y.parent in nodes && y.parent.at.hi <= n.at.hi
        invariant 0 <= y.at.lo <= y.at.pos < y.at.hi <= |order|
        decreases y.at.hi - y.at.lo
      {
        KidsLinked(y);
        y := y.left;
        ParentLinked(y);
      }
      KidsLinked(y);
    }

    /** The sibling of the short left subtree z is red. */
    method RotateLeftRedSibling(parent: Node, ghost z: Node?) returns (other: Node)
      requires parent in nodes && AtWork(Cells(), node, order, z, parent, Left) && IsRed(Cells(), parent.right)
      modifies this`node, nodes`left, nodes`right, nodes`parent, nodes`black, nodes`at
      ensures nodes == old(nodes) && order == old(order)
      ensures AtWork(Cells(), node, order, z, parent, Left)
      ensures other in nodes && other == parent.right && other.black && !parent.black
      ensures parent.at.pos == old(parent.at.pos) && (z != null ==> z in nodes && z.at == old(z.at))
      ensures parent.parent != null && Turned(old(Cells()), Cells(), parent, old(parent.right))
    {
      ghost var m, root := Cells(), node;
      SiblingExists(m, root, order, z, parent, Left);
      other := parent.right;
      PaintTop(other, parent);
      ghost var m1 := Cells();
      RedSiblingPivot(m, m1, root, order, z, parent, Left);
      RotateLeft(parent);
      RedSibling(m, m1, Cells(), root, order, z, parent, Left);
      SiblingExists(Cells(), node, order, z, parent, Left);
      other := parent.right;
    }

    /** The recoloured rotation of the black sibling other towards its outer side. */
    method TurnInnerLeft(parent: Node, other: Node, ghost z: Node?) returns (ghost m1: Heap)
      requires {parent, other} <= nodes && AtWork(Cells(), node, order, z, parent, Left)
      requires parent.right == other && other.black && !IsRed(Cells(), other.right) && IsRed(Cells(), other.left)
      modifies this`node, nodes`left, nodes`right, nodes`parent, nodes`black, nodes`at
      ensures nodes == old(nodes) && order == old(order)
      ensures InnerRotated(old(Cells()), m1, Cells(), old(node), order, z, parent, Left)
      ensures node == RotatedRoot(m1, old(node), other, Right)
    {
      ghost var m, root := Cells(), node;
      SiblingExists(m, root, order, z, parent, Left);
      var inner := other.left;
      PaintTop(inner, other);
      m1 := Cells();
      InnerNephewPivot(m, m1, root, order, z, parent, Left);
      RotateRight(other);
    }

    /** The outer child of the black sibling other is not red, but its inner child is. */
    method RotateRightInnerNephew(parent: Node, other: Node, ghost z: Node?) returns (next: Node)
      requires {parent, other} <= nodes && AtWork(Cells(), node, order, z, parent, Left)
      requires parent.right == other && other.black && !IsRed(Cells(), other.right) && IsRed(Cells(), other.left)
      modifies this`node, nodes`left, nodes`right, nodes`parent, nodes`black, nodes`at
      ensures nodes == old(nodes) && order == old(order)
      ensures AtWork(Cells(), node, order, z, parent, Left)
      ensures parent.at.pos == old(parent.at.pos) && (z != null ==> z in nodes && z.at == old(z.at))
      ensures next == old(other.left) && other.parent == next && parent.parent == old(parent.parent)
      ensures Turned(old(Cells()), Cells(), other, next) && old(other.parent) == parent && next.right == other
      ensures next in nodes && next == parent.right && next.black && IsRed(Cells(), next.right)
    {
      ghost var m, root := Cells(), node;
      ghost var m1 := TurnInnerLeft(parent, other, z);
      InnerNephew(m, m1, Cells(), root, order, z, parent, Left);
      next := parent.right;
    }

    /** The recolouring before the last rotation: other takes the colour of parent. */
    method PaintBorrowed(other: Node, parent: Node, outer: Node)
      requires {other, parent, outer} <= nodes && other != parent && outer != parent && outer != other
      modifies nodes`black, nodes`at
      ensures BorrowRecoloured(old(Cells()), Cells(), other, parent, outer)
    {
      ghost var b, h := parent.at.bh, other.at.bh;
      other.black, other.at := parent.black, other.at.(bh := b);
      parent.black, parent.at := true, parent.at.(bh := h);
      outer.black, outer.at := true, outer.at.(bh := outer.at.bh + 1);
    }

    /** The outer child of the black sibling other is red. */
    method BorrowLeft(parent: Node, other: Node, ghost z: Node?)
      requires {parent, other} <= nodes && AtWork(Cells(), node, order, z, parent, Left)
      requires parent.right == other && other.black && IsRed(Cells(), other.right)
      modifies this`node, nodes`left, nodes`right, nodes`parent, nodes`black, nodes`at
      ensures nodes == old(nodes) && order == old(order) && Valid()
      ensures Turned(old(Cells()), Cells(), parent, other)
      ensures old(other.right) != null && old(other.right).parent == other
    {
      ghost var m, root := Cells(), node;
      SiblingExists(m, root, order, z, parent, Left);
      PaintBorrowed(other, parent, other.right);
      ghost var m1 := Cells();
      BorrowPivot(m, m1, root, order, z, parent, Left);
      RotateLeft(parent);
      Borrow(m, m1, Cells(), root, order, z, parent, Left);
    }

    /** other turns red, and the subtree of parent loses one black node. */
    method PaintReddened(other: Node, parent: Node)
      requires {other, parent} <= nodes && other != parent
      modifies nodes`black, nodes`at
      ensures SiblingReddened(old(Cells()), Cells(), other, parent)
    {
      other.black, other.at := false, other.at.(bh := other.at.bh - 1);
      parent.at := parent.at.(bh := parent.at.bh - 1);
    }

    /** The black sibling other has no red child: it turns red and parent becomes short. */
    method ReddenRight(parent: Node, other: Node, ghost z: Node?)
      requires {parent, other} <= nodes && AtWork(Cells(), node, order, z, parent, Left)
      requires parent.right == other && other.black
      requires !IsRed(Cells(), other.left) && !IsRed(Cells(), other.right)
      modifies nodes`black, nodes`at
      ensures Repainted(old(Cells()), Cells()) && AllSameKids(old(Cells()), Cells())
      ensures Erasing(Cells(), node, order, parent, parent.parent) && parent.black == old(parent.black)
      ensures parent.parent != null ==>
                parent.parent in nodes && parent.parent.at.hi - parent.parent.at.lo > old(parent.at.hi - parent.at.lo)
    {
      ghost var m := Cells();
      SiblingExists(m, node, order, z, parent, Left);
      PaintReddened(other, parent);
      ReddenedRepaints(m, Cells(), other, parent);
      MoveUp(m, Cells(), node, order, z, parent, Left);
    }

    /** The rotations that end the repair when the black sibling other has a red child; m is the
        state in which the round began, possibly with a red sibling w still to be rotated. */
    method EndEraseLeft(z: Node?, parent: Node, sibling: Node, ghost m: Heap, ghost w: Node?, ghost k: int)
      requires {parent, sibling} <= nodes && AtWork(Cells(), node, order, z, parent, Left) && FromHere(Cells(), z, parent, k)
      requires parent.right == sibling && sibling.black
      requires IsRed(Cells(), sibling.left) || IsRed(Cells(), sibling.right)
      requires parent in m && (if w == null then Cells() == m else Turned(m, Cells(), parent, w))
      modifies this`node, nodes`left, nodes`right, nodes`parent, nodes`black, nodes`at
      ensures nodes == old(nodes) && order == old(order) && Valid()
      ensures Settled(m, Cells(), k, true)
    {
      ghost var ma, roota := Cells(), node;
      var other := sibling;
      SiblingExists(ma, node, order, z, parent, Left);
      if other.right == null || other.right.black {
        other := RotateRightInnerNephew(parent, other, z);
      }
      ghost var mb, rootb := Cells(), node;
      BorrowLeft(parent, other, z);
      BorrowRoundSettled(m, ma, mb, Cells(), roota, rootb, node, order, z, parent, Left, k, w, sibling, other);
    }

    /** The sibling of the short left subtree z, black after a rotation if it was red before. */
    method BlackSiblingLeft(parent: Node, ghost z: Node?, ghost k: int) returns (other: Node, ghost w: Node?)
      requires parent in nodes && AtWork(Cells(), node, order, z, parent, Left) && FromHere(Cells(), z, parent, k)
      modifies this`node, nodes`left, nodes`right, nodes`parent, nodes`black, nodes`at
      ensures nodes == old(nodes) && order == old(order)
      ensures AtWork(Cells(), node, order, z, parent, Left)
      ensures FromHere(Cells(), z, parent, k) && FromHere(Cells(), parent, parent.parent, k)
      ensures other in nodes && other == parent.right && other.black
      ensures (other.left != null ==> other.left in nodes) && (other.right != null ==> other.right in nodes)
      ensures if w == null then Cells() == old(Cells()) else Turned(old(Cells()), Cells(), parent, w) && !parent.black
    {
      SiblingExists(Cells(), node, order, z, parent, Left);
      other, w := parent.right, null;
      if !other.black {
        w := other;
        other := RotateLeftRedSibling(parent, z);
      }
      SiblingExists(Cells(), node, order, z, parent, Left);
      FromHereUp(Cells(), node, order, z, parent, k);
    }

    /** One round of __rb_erase_color for a short left subtree z of parent: either the shortage moves
        up to parent, or the tree is valid again and the root is returned. */
    method EraseLeft(z: Node?, parent: Node, ghost k: int) returns (next: Node?, up: Node?)
      requires parent in nodes && AtWork(Cells(), node, order, z, parent, Left) && FromHere(Cells(), z, parent, k)
      modifies this`node, nodes`left, nodes`right, nodes`parent, nodes`black, nodes`at
      ensures nodes == old(nodes) && order == old(order)
      ensures Erasing(Cells(), node, order, next, up) || (Valid() && next == node)
      ensures next != null && next in nodes
      ensures up != null ==> up in nodes
      ensures next.black && next != node ==>
                up != null && up.at.hi - up.at.lo > old(parent.at.hi - parent.at.lo)
      ensures Settled(old(Cells()), Cells(), k, true)
      ensures next.black && next != node ==> AllSameKids(old(Cells()), Cells()) && FromHere(Cells(), next, up, k)
    {
      ghost var m := Cells();
      var other, w := BlackSiblingLeft(parent, z, k);
      if (other.left == null || other.left.black) && (other.right == null || other.right.black) {
        ghost var ma := Cells();
        ReddenRight(parent, other, z);
        ReddenedSettled(m, ma, Cells(), node, order, z, parent, w, k);
        next, up := parent, parent.parent;
      } else {
        EndEraseLeft(z, parent, other, m, w, k);
        RootLinked();
        next, up := node, null;
      }
    }

    /** The sibling of the short right subtree z is red. */
    method RotateRightRedSibling(parent: Node, ghost z: Node?) returns (other: Node)
      requires parent in nodes && AtWork(Cells(), node, order, z, parent, Right) && IsRed(Cells(), parent.left)
      modifies this`node, nodes`left, nodes`right, nodes`parent, nodes`black, nodes`at
      ensures nodes == old(nodes) && order == old(order)
      ensures AtWork(Cells(), node, order, z, parent, Right)
      ensures other in nodes && other == parent.left && other.black && !parent.black
      ensures parent.at.pos == old(parent.at.pos) && (z != null ==> z in nodes && z.at == old(z.at))
      ensures parent.parent != null && Turned(old(Cells()), Cells(), parent, old(parent.left))
    {
      ghost var m, root := Cells(), node;
      SiblingExists(m, root, order, z, parent, Right);
      other := parent.left;
      PaintTop(other, parent);
      ghost var m1 := Cells();
      RedSiblingPivot(m, m1, root, order, z, parent, Right);
      RotateRight(parent);
      RedSibling(m, m1, Cells(), root, order, z, parent, Right);
      SiblingExists(Cells(), node, order, z, parent, Right);
      other := parent.left;
    }

    /** The recoloured rotation of the black sibling other towards its outer side. */
    method TurnInnerRight(parent: Node, other: Node, ghost z: Node?) returns (ghost m1: Heap)
      requires {parent, other} <= nodes && AtWork(Cells(), node, order, z, parent, Right)
      requires parent.left == other && other.black && !IsRed(Cells(), other.left) && IsRed(Cells(), other.right)
      modifies this`node, nodes`left, nodes`right, nodes`parent, nodes`black, nodes`at
      ensures nodes == old(nodes) && order == old(order)
      ensures InnerRotated(old(Cells()), m1, Cells(), old(node), order, z, parent, Right)
      ensures node == RotatedRoot(m1, old(node), other, Left)
    {
      ghost var m, root := Cells(), node;
      SiblingExists(m, root, order, z, parent, Right);
      var inner := other.right;
      PaintTop(inner, other);
      m1 := Cells();
      InnerNephewPivot(m, m1, root, order, z, parent, Right);
      RotateLeft(other);
    }

    /** The outer child of the black sibling other is not red, but its inner child is. */
    method RotateLeftInnerNephew(parent: Node, other: Node, ghost z: Node?) returns (next: Node)
      requires {parent, other} <= nodes && AtWork(Cells(), node, order, z, parent, Right)
      requires parent.left == other && other.black && !IsRed(Cells(), other.left) && IsRed(Cells(), other.right)
      modifies this`node, nodes`left, nodes`right, nodes`parent, nodes`black, nodes`at
      ensures nodes == old(nodes) && order == old(order)
      ensures AtWork(Cells(), node, order, z, parent, Right)
      ensures parent.at.pos == old(parent.at.pos) && (z != null ==> z in nodes && z.at == old(z.at))
      ensures next == old(other.right) && other.parent == next && parent.parent == old(parent.parent)
      ensures Turned(old(Cells()), Cells(), other, next) && old(other.parent) == parent && next.left == other
      ensures next in nodes && next == parent.left && next.black && IsRed(Cells(), next.left)
    {
      ghost var m, root := Cells(), node;
      ghost var m1 := TurnInnerRight(parent, other, z);
      InnerNephew(m, m1, Cells(), root, order, z, parent, Right);
      next := parent.left;
    }

    /** The outer child of the black sibling other is red. */
    method BorrowRight(parent: Node, other: Node, ghost z: Node?)
      requires {parent, other} <= nodes && AtWork(Cells(), node, order, z, parent, Right)
      requires parent.left == other && other.black && IsRed(Cells(), other.left)
      modifies this`node, nodes`left, nodes`right, nodes`parent, nodes`black, nodes`at
      ensures nodes == old(nodes) && order == old(order) && Valid()
      ensures Turned(old(Cells()), Cells(), parent, other)
      ensures old(other.left) != null && old(other.left).parent == other
    {
      ghost var m, root := Cells(), node;
      SiblingExists(m, root, order, z, parent, Right);
      PaintBorrowed(other, parent, other.left);
      ghost var m1 := Cells();
      BorrowPivot(m, m1, root, order, z, parent, Right);
      RotateRight(parent);
      Borrow(m, m1, Cells(), root, order, z, parent, Right);
    }

    /** The black sibling other has no red child: it turns red and parent becomes short. */
    method ReddenLeft(parent: Node, other: Node, ghost z: Node?)
      requires {parent, other} <= nodes && AtWork(Cells(), node, order, z, parent, Right)
      requires parent.left == other && other.black
      requires !IsRed(Cells(), other.left) && !IsRed(Cells(), other.right)
      modifies nodes`black, nodes`at
      ensures Repainted(old(Cells()), Cells()) && AllSameKids(old(Cells()), Cells())
      ensures Erasing(Cells(), node, order, parent, parent.parent) && parent.black == old(parent.black)
      ensures parent.parent != null ==>
                parent.parent in nodes && parent.parent.at.hi - parent.parent.at.lo > old(parent.at.hi - parent.at.lo)
    {
      ghost var m := Cells();
      SiblingExists(m, node, order, z, parent, Right);
      PaintReddened(other, parent);
      ReddenedRepaints(m, Cells(), other, parent);
      MoveUp(m, Cells(), node, order, z, parent, Right);
    }

    /** The rotations that end the repair when the black sibling other has a red child; m is the
        state in which the round began, possibly with a red sibling w still to be rotated. */
    method EndEraseRight(z: Node?, parent: Node, sibling: Node, ghost m: Heap, ghost w: Node?, ghost k: int)
      requires {parent, sibling} <= nodes && AtWork(Cells(), node, order, z, parent, Right) && FromHere(Cells(), z, parent, k)
      requires parent.left == sibling && sibling.black
      requires IsRed(Cells(), sibling.left) || IsRed(Cells(), sibling.right)
      requires parent in m && (if w == null then Cells() == m else Turned(m, Cells(), parent, w))
      modifies this`node, nodes`left, nodes`right, nodes`parent, nodes`black, nodes`at
      ensures nodes == old(nodes) && order == old(order) && Valid()
      ensures Settled(m, Cells(), k, true)
    {
      ghost var ma, roota := Cells(), node;
      var other := sibling;
      SiblingExists(ma, node, order, z, parent, Right);
      if other.left == null || other.left.black {
        other := RotateLeftInnerNephew(parent, other, z);
      }
      ghost var mb, rootb := Cells(), node;
      BorrowRight(parent, other, z);
      BorrowRoundSettled(m, ma, mb, Cells(), roota, rootb, node, order, z, parent, Right, k, w, sibling, other);
    }

    /** The sibling of the short right subtree z, black after a rotation if it was red before. */
    method BlackSiblingRight(parent: Node, ghost z: Node?, ghost k: int) returns (other: Node, ghost w: Node?)
      requires parent in nodes && AtWork(Cells(), node, order, z, parent, Right) && FromHere(Cells(), z, parent, k)
      modifies this`node, nodes`left, nodes`right, nodes`parent, nodes`black, nodes`at
      ensures nodes == old(nodes) && order == old(order)
      ensures AtWork(Cells(), node, order, z, parent, Right)
      ensures FromHere(Cells(), z, parent, k) && FromHere(Cells(), parent, parent.parent, k)
      ensures other in nodes && other == parent.left && other.black
      ensures (other.left != null ==> other.left in nodes) && (other.right != null ==> other.right in nodes)
      ensures if w == null then Cells() == old(Cells()) else Turned(old(Cells()), Cells(), parent, w) && !parent.black
    {
      SiblingExists(Cells(), node, order, z, parent, Right);
      other, w := parent.left, null;
      if !other.black {
        w := other;
        other := RotateRightRedSibling(parent, z);
      }
      SiblingExists(Cells(), node, order, z, parent, Right);
      FromHereUp(Cells(), node, order, z, parent, k);
    }

    /** One round of __rb_erase_color for a short right subtree z of parent: either the shortage moves
        up to parent, or the tree is valid again and the root is returned. */
    method EraseRight(z: Node?, parent: Node, ghost k: int) returns (next: Node?, up: Node?)
      requires parent in nodes && AtWork(Cells(), node, order, z, parent, Right) && FromHere(Cells(), z, parent, k)
      modifies this`node, nodes`left, nodes`right, nodes`parent, nodes`black, nodes`at
      ensures nodes == old(nodes) && order == old(order)
      ensures Erasing(Cells(), node, order, next, up) || (Valid() && next == node)
      ensures next != null && next in nodes
      ensures up != null ==> up in nodes
      ensures next.black && next != node ==>
                up != null && up.at.hi - up.at.lo > old(parent.at.hi - parent.at.lo)
      ensures Settled(old(Cells()), Cells(), k, true)
      ensures next.black && next != node ==> AllSameKids(old(Cells()), Cells()) && FromHere(Cells(), next, up, k)
    {
      ghost var m := Cells();
      var other, w := BlackSiblingRight(parent, z, k);
      if (other.left == null || other.left.black) && (other.right == null || other.right.black) {
        ghost var ma := Cells();
        ReddenLeft(parent, other, z);
        ReddenedSettled(m, ma, Cells(), node, order, z, parent, w, k);
        next, up := parent, parent.parent;
      } else {
        EndEraseRight(z, parent, other, m, w, k);
        RootLinked();
        next, up := node, null;
      }
    }

    /** What follows the loop of __rb_erase_color: z, when there is one, is painted black. */
    method FinishErase(z: Node?, ghost parent: Node?)
      requires (Erasing(Cells(), node, order, z, parent) && (z == node || IsRed(Cells(), z))) || (Valid() && z == node)
      modifies nodes`black, nodes`at
      ensures Valid() && Repainted(old(Cells()), Cells())
    {
      ghost var m := Cells();
      if nodes != {} {
        RootLinked();
      }
      if z != null {
        Blacken(z);
        if Erasing(m, node, order, z, parent) {
          BlackenShort(m, Cells(), node, order, z, parent);
        } else {
          assert Cells() == m;
        }
      }
    }

    /** One round of __rb_erase_color on either side; m0 is the state before the first round. */
    method EraseRound(z: Node?, parent: Node?, ghost m0: Heap, ghost k: int) returns (next: Node?, up: Node?)
      requires Erasing(Cells(), node, order, z, parent) && !IsRed(Cells(), z) && z != node
      requires AllSameKids(m0, Cells()) && FromHere(Cells(), z, parent, k)
      modifies this`node, nodes`left, nodes`right, nodes`parent, nodes`black, nodes`at
      ensures nodes == old(nodes) && order == old(order)
      ensures Erasing(Cells(), node, order, next, up) || (Valid() && next == node)
      ensures next != null && next in nodes && (up != null ==> up in nodes && 0 <= up.at.lo < up.at.hi <= |order|)
      ensures parent != null && old(parent.at.hi - parent.at.lo) <= |order|
      ensures next.black && next != node ==> up != null && up.at.hi - up.at.lo > old(parent.at.hi - parent.at.lo)
      ensures Settled(m0, Cells(), k, true)
      ensures next.black && next != node ==> AllSameKids(m0, Cells()) && FromHere(Cells(), next, up, k)
    {
      ghost var m := Cells();
      ParentLinked(parent);
      if parent.left == z {
        next, up := EraseLeft(z, parent, k);
      } else {
        next, up := EraseRight(z, parent, k);
      }
      if up != null {
        ParentLinked(up);
      }
      SettledThrough(m0, m, Cells(), k);
    }

    /** __rb_erase_color: repairs the tree after a black node has been unlinked above z0. */
    method EraseColor(z0: Node?, parent0: Node?, ghost k: int)
      requires Erasing(Cells(), node, order, z0, parent0) && (parent0 != null ==> FromHere(Cells(), z0, parent0, k))
      modifies this`node, nodes`left, nodes`right, nodes`parent, nodes`black, nodes`at
      ensures nodes == old(nodes) && order == old(order) && Valid()
      ensures Settled(old(Cells()), Cells(), k, true)
    {
      ghost var m0 := Cells();
      var z, parent := z0, parent0;
      while (z == null || z.black) && z != node
        invariant nodes == old(nodes) && order == old(order)
        invariant (z != null ==> z in nodes) && (parent != null ==> parent in nodes)
        invariant Settled(m0, Cells(), k, true)
        invariant (z == null || z.black) && z != node ==> AllSameKids(m0, Cells()) && FromHere(Cells(), z, parent, k)
        invariant Erasing(Cells(), node, order, z, parent) || (Valid() && z == node)
        decreases if z == node || (z != null && !z.black) then 0
                  else 1 + |order| - (if parent == null then 0 else parent.at.hi - parent.at.lo)
      {
        z, parent := EraseRound(z, parent, m0, k);
      }
      ghost var m := Cells();
      FinishErase(z, parent);
      RepaintedSettled(m0, m, Cells(), k, true);
    }

    /** Points the link from the parent of n, or the root, to y instead of n. */
    method Redirect(n: Node, y: Node)
      requires n.parent != null ==> n.parent in nodes
      modifies this`node, nodes`left, nodes`right
      ensures node == if n.parent == null then y else old(node)
      ensures forall x | x in nodes ::
        && x.left == (if x == n.parent && old(x.left) == n then y else old(x.left))
        && x.right == (if x == n.parent && old(x.left) != n then y else old(x.right))
    {
      if n.parent != null {
        if n.parent.left == n {
          n.parent.left := y;
        } else {
          n.parent.right := y;
        }
      } else {
        node := y;
      }
    }

    /** Lets the right child of y take the place of y, and y take over the right child of n. */
    method Detach(n: Node, y: Node) returns (child: Node?, parent: Node?)
      requires {n, y} <= nodes && n.right != null && n.right in nodes && y.parent != null && y.parent in nodes
      requires y.right != null ==> y.right in nodes && y.right != n.right
      requires y != n && y.parent != y
      modifies nodes`left, nodes`right, nodes`parent
      ensures child == old(y.right) && parent == if old(y.parent) == n then y else old(y.parent)
      ensures forall x | x in nodes ::
        && x.left == (if parent != y && x == parent then child else old(x.left))
        && x.right == (if parent != y && x == y then old(n.right) else old(x.right))
        && x.parent == (if parent == y then old(x.parent) else if x == child then parent
                        else if x == old(n.right) then y else old(x.parent))
    {
      child := y.right;
      parent := y.parent;
      if parent == n {
        parent := y;
      } else {
        if child != null {
          child.parent := parent;
        }
        parent.left := child;
        y.right := n.right;
        n.right.parent := y;
      }
    }

    /** Copies parent, colour and left child of n to y. */
    method Adopt(n: Node, y: Node)
      requires {n, y} <= nodes && n.left != null && n.left in nodes && n.left != n && n.left != y
      modifies nodes`left, nodes`parent, nodes`black
      ensures forall x | x in nodes ::
        && x.left == (if x == y then old(n.left) else old(x.left))
        && x.parent == (if x == y then old(n.parent) else if x == old(n.left) then y else old(x.parent))
        && x.black == (if x == y then old(n.black) else old(x.black))
    {
      y.parent, y.black := n.parent, n.black;
      y.left := n.left;
      n.left.parent := y;
    }

    /** Links y in the place of n from above, and the right child of y in the place of y. */
    method Hoist(n: Node, y: Node) returns (child: Node?, parent: Node?)
      requires {n, y} <= nodes && n.right != null && n.right in nodes && y.parent != null && y.parent in nodes
      requires n.parent != null ==> n.parent in nodes && n.parent != n && n.parent != n.right && n.parent != y.parent
      requires y.right != null ==> y.right in nodes && y.right != n.right && y.right != n
      requires y != n && y.parent != y && n.parent != y && n.right != n
      modifies this`node, nodes`left, nodes`right, nodes`parent
      ensures child == old(y.right) && parent == if old(y.parent) == n then y else old(y.parent)
      ensures node == if old(n.parent) == null then y else old(node)
      ensures forall x | x in nodes ::
        && x.left == (if x == old(n.parent) && old(x.left) == n then y
                      else if parent != y && x == parent then child else old(x.left))
        && x.right == (if x == old(n.parent) && old(x.left) != n then y
                       else if parent != y && x == y then old(n.right) else old(x.right))
        && x.parent == (if parent == y then old(x.parent) else if x == child then parent
                        else if x == old(n.right) then y else old(x.parent))
    {
      Redirect(n, y);
      child, parent := Detach(n, y);
    }

    /** The stores of rb_erase when n has two children: its successor y takes its place, colour
        and children, and the right child of y takes the place of y. */
    method StoreSuccessor(n: Node, y: Node) returns (child: Node?, parent: Node?, black: bool)
      requires Valid() && n in nodes && n.left != null && n.right != null
      requires y in nodes && y.left == null && y.at.pos == n.at.pos + 1
      modifies this`node, nodes`left, nodes`right, nodes`parent, nodes`black
      ensures child == old(y.right) && parent == Renamed(old(y.parent), n, y) && black == old(y.black)
      ensures node == Renamed(old(node), n, y)
      ensures SuccessorStored(old(Cells()), Cells(), n, y)
    {
      SuccessorPlace(Cells(), node, order, n, y);
      black := y.black;
      child, parent := Hoist(n, y);
      Adopt(n, y);
    }

    /** The relinking of rb_erase for a node with two children. */
    method SpliceSuccessor(n: Node) returns (child: Node?, parent: Node?, black: bool, ghost y: Node)
      requires Valid() && n in nodes && n.left != null && n.right != null
      modifies this, nodes`left, nodes`right, nodes`parent, nodes`black, nodes`at
      ensures y in old(nodes) && y != n && old(y.left) == null && old(y.at.pos) == old(n.at.pos) + 1
      ensures old(y.at.hi) <= old(n.at.hi) && old(y.parent) != null && old(y.parent) in old(nodes)
      ensures old(y.parent.at.hi) <= old(n.at.hi)
      ensures nodes == old(nodes) - {n}
      ensures Cells() == Replaced(Without(old(Cells()), y), n, y)
      ensures child == OnlyChild(old(Cells())[y]) && parent == Renamed(old(y.parent), n, y) && black == old(y.black)
      ensures node == Renamed(old(node), n, y)
      ensures var k := old(n.at.pos); 0 <= k < |old(order)| && order == old(order)[..k] + old(order)[k + 1..]
    {
      ghost var m, root := Cells(), node;
      ParentLinked(n);
      var s := Successor(n);
      child, parent, black := StoreSuccessor(n, s);
      ghost var m1 := Cells();
      Retire(n, s, n.at.pos + 1);
      StoredIsReplacement(m, m1, Cells(), root, old(order), n, s);
      y := s;
    }

    /** The relinking of rb_erase. */
    method Splice(n: Node) returns (child: Node?, parent: Node?, black: bool)
      requires Valid() && n in nodes
      modifies this, nodes`left, nodes`right, nodes`parent, nodes`black, nodes`at
      ensures nodes == old(nodes) - {n} && (Deepest(child, parent) == null ==> nodes == {})
      ensures Spliced(old(Cells()), old(order), Cells(), node, order, n, child, parent, black)
    {
      ghost var m, root := Cells(), node;
      if n.left == null || n.right == null {
        child, parent, black := SpliceOut(n);
        LowSpliced(m, root, old(order), n, Cells(), node, order);
      } else {
        ghost var y;
        child, parent, black, y := SpliceSuccessor(n);
        HighSpliced(m, root, old(order), n, y, Cells(), node, order);
      }
      assert nodes == Cells().Keys;
    }

    /** rb_erase: n leaves the tree, and every other node keeps its identity and order. A node gets
        new children only near the path from the node that rb_augment_erase_begin finds. */
    method Erase(n: Node)
      requires Valid() && n in nodes
      modifies this, nodes`left, nodes`right, nodes`parent, nodes`black, nodes`at
      ensures Valid() && nodes == old(nodes) - {n}
      ensures var k := old(n.at.pos);
        0 <= k < |old(order)| && old(order)[k] == n && order == old(order)[..k] + old(order)[k + 1..]
      ensures var d := DeepestLeft(old(Cells()), old(order), n);
        if d == null then nodes == {}
        else d in nodes && forall x | x in nodes ::
          SameKids(old(Cells()), Cells(), x) || Near(Cells(), x, d.at.pos, true)
    {
      ghost var m, k := Cells(), n.at.pos;
      assert Placed(Cells(), order, n);
      var child, parent, black := Splice(n);
      ghost var m1, root1, d := Cells(), node, Deepest(child, parent);
      if black {
        EraseColor(child, parent, if d == null then 0 else d.at.pos);
      }
      if d != null {
        ThenSettled(m, m1, Cells(), d);
        SamePlace(m1, root1, Cells(), node, order, d);
      }
    }

    /** The stores of rb_replace_node. */
    method StoreReplacement(victim: Node, new_: Node)
      requires victim in nodes && new_ !in nodes
      requires victim.left != null ==> victim.left in nodes
      requires victim.right != null ==> victim.right in nodes
      requires victim.parent != null ==> victim.parent in nodes
      requires victim.left != victim && victim.right != victim && victim.parent != victim
      modifies this`node, nodes`left, nodes`right, nodes`parent, new_`left, new_`right, new_`parent, new_`black
      ensures node == if old(victim.parent) == null then new_ else old(node)
      ensures new_.left == old(victim.left) && new_.right == old(victim.right)
      ensures new_.parent == old(victim.parent) && new_.black == victim.black
      ensures forall x | x in nodes && x != victim ::
        && x.left == (if x == old(victim.parent) && old(x.left) == victim then new_ else old(x.left))
        && x.right == (if x == old(victim.parent) && old(x.left) != victim then new_ else old(x.right))
        && x.parent == (if x == old(victim.left) || x == old(victim.right) then new_ else old(x.parent))
    {
      Redirect(victim, new_);
      if victim.left != null {
        victim.left.parent := new_;
      }
      if victim.right != null {
        victim.right.parent := new_;
      }
      new_.left, new_.right, new_.parent, new_.black := victim.left, victim.right, victim.parent, victim.black;
    }

    /** rb_replace_node: new_ takes over links and colour of victim. */
    method ReplaceNode(victim: Node, new_: Node)
      requires Valid() && victim in nodes && new_ !in nodes
      modifies this, nodes`left, nodes`right, nodes`parent, nodes`black, nodes`at,
               new_`left, new_`right, new_`parent, new_`black, new_`at
      ensures Valid() && nodes == old(nodes) - {victim} + {new_}
      ensures Cells() == Replaced(old(Cells()), victim, new_)
      ensures var k := old(victim.at.pos);
        0 <= k < |old(order)| && old(order)[k] == victim && order == old(order)[k := new_]
    {
      ghost var m, root, k := Cells(), node, victim.at.pos;
      assert Placed(m, order, victim);
      Substitute(victim, new_);
      StoredReplacementValid(m, Cells(), root, order, victim, new_);
      order := order[k := new_];
    }

    /** Those stores, and the ghost state of the new node. */
    method Substitute(victim: Node, new_: Node)
      requires Valid() && victim in nodes && new_ !in nodes
      modifies this, nodes`left, nodes`right, nodes`parent, nodes`black, nodes`at,
               new_`left, new_`right, new_`parent, new_`black, new_`at
      ensures nodes == old(nodes) - {victim} + {new_} && order == old(order)
      ensures node == Renamed(old(node), victim, new_) && Cells() == Replaced(old(Cells()), victim, new_)
    {
      ghost var m, root := Cells(), node;
      LinksLead(m, root, order, victim);
      StoreReplacement(victim, new_);
      new_.at := victim.at;
      nodes := nodes - {victim} + {new_};
      StoredIsReplaced(m, Cells(), root, order, victim, new_);
    }

    // ---------- traversal ----------

    /** rb_first. */
    method First() returns (n: Node?)
      requires Valid()
      ensures n == if |order| == 0 then null else order[0]
    {
      n := node;
      if n == null {
        return;
      }
      while n.left != null
        invariant n in nodes && n.at.lo == 0
        decreases n.at.hi - n.at.lo
      {
        KidsLinked(n);
        ParentLinked(n);
        n := n.left;
        ParentLinked(n);
      }
      KidsLinked(n);
      assert Placed(Cells(), order, n);
    }

    /** rb_last. */
    method Last() returns (n: Node?)
      requires Valid()
      ensures n == if |order| == 0 then null else order[|order| - 1]
    {
      n := node;
      if n == null {
        return;
      }
      while n.right != null
        invariant n in nodes && n.at.hi == |order|
        decreases n.at.hi - n.at.lo
      {
        KidsLinked(n);
        ParentLinked(n);
        n := n.right;
        ParentLinked(n);
      }
      KidsLinked(n);
      assert Placed(Cells(), order, n);
    }

    /** rb_next: the in-order successor of n, or null after the last node. */
    method Next(n: Node) returns (r: Node?)
      requires Valid() && n in nodes
      ensures 0 <= n.at.pos < |order| && order[n.at.pos] == n
      ensures r == if n.at.pos + 1 == |order| then null else order[n.at.pos + 1]
    {
      assert Placed(Cells(), order, n);
      KidsLinked(n);
      ParentLinked(n);
      if n.parent == n {
        return null;
      }
      if n.right != null {
        r := Successor(n);
        assert Placed(Cells(), order, r);
        return;
      }
      var x := n;
      while x.parent != null && x == x.parent.right
        invariant x in nodes && x.at.hi == n.at.pos + 1 && (x.parent != null ==> x.parent in nodes)
        invariant 0 <= x.at.lo < x.at.hi <= |order|
        decreases |order| - (x.at.hi - x.at.lo)
      {
        KidsLinked(x.parent);
        x := x.parent;
        ParentLinked(x);
      }
      r := x.parent;
      if r == null {
        assert Linked(Cells(), node, x);
      } else {
        ParentLinked(x);
        KidsLinked(r);
        assert Placed(Cells(), order, r);
      }
    }

    /** rb_prev: the in-order predecessor of n, or null before the first node. */
    method Prev(n: Node) returns (r: Node?)
      requires Valid() && n in nodes
      ensures 0 <= n.at.pos < |order| && order[n.at.pos] == n
      ensures r == if n.at.pos == 0 then null else order[n.at.pos - 1]
    {
      assert Placed(Cells(), order, n);
      KidsLinked(n);
      ParentLinked(n);
      if n.parent == n {
        return null;
      }
      if n.left != null {
        r := n.left;
        ParentLinked(r);
        while r.right != null
          invariant r in nodes && r.at.hi == n.at.pos
          invariant 0 <= r.at.lo <= r.at.pos < r.at.hi <= |order|
          decreases r.at.hi - r.at.lo
        {
          KidsLinked(r);
          r := r.right;
          ParentLinked(r);
        }
        KidsLinked(r);
        assert Placed(Cells(), order, r);
        return;
      }
      var x := n;
      while x.parent != null && x == x.parent.left
        invariant x in nodes && x.at.lo == n.at.pos && (x.parent != null ==> x.parent in nodes)
        invariant 0 <= x.at.lo < x.at.hi <= |order|
        decreases |order| - (x.at.hi - x.at.lo)
      {
        KidsLinked(x.parent);
        x := x.parent;
        ParentLinked(x);
      }
      r := x.parent;
      if r == null {
        assert Linked(Cells(), node, x);
      } else {
        ParentLinked(x);
        KidsLinked(r);
        assert Placed(Cells(), order, r);
      }
    }
  }
}
