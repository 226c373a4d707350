/** Why each step of rb_insert_color restores the red-black invariants. */
module RbInsertFixup {
  import opened RbCells

  /** The only thing still wrong is that z is red: under a red parent, or as the root. */
  ghost predicate Inserting(m: Heap, root: Node?, order: seq<Node>, z: Node) {
    && Shaped(m, root, order)
    && (forall x {:trigger Balanced(m, x)} | x in m :: Balanced(m, x))
    && (forall x {:trigger NoRedRed(m, x, z)} | x in m :: NoRedRed(m, x, z))
    && IsRed(m, z)
    && (IsRed(m, root) ==> z == root)
  }

  /** A red parent has a black parent of its own, so the grandparent exists. */
  lemma GrandparentExists(m: Heap, root: Node?, order: seq<Node>, z: Node)
    requires Inserting(m, root, order, z) && IsRed(m, m[z].parent)
    ensures var p := m[z].parent; var g := m[p].parent;
      && g != null && g in m && m[g].black && p != z && g != p && g != z
      && (m[g].left == p || m[g].right == p) && m[g].left != m[g].right
      && (m[p].left == z || m[p].right == z) && m[p].left != m[p].right
      && (m[g].left != null ==> m[g].left in m && m[m[g].left].parent == g)
      && (m[g].right != null ==> m[g].right in m && m[m[g].right].parent == g)
      && m[g].at.hi - m[g].at.lo > m[z].at.hi - m[z].at.lo && 0 <= m[g].at.lo && m[g].at.hi <= |order|
  {
    var p := m[z].parent;
    assert Linked(m, root, z) && Linked(m, root, p) && Placed(m, order, z) && Placed(m, order, p);
    assert NoRedRed(m, p, z);
    var g := m[p].parent;
    if g != null {
      assert Linked(m, root, g) && Placed(m, order, g) && NoRedRed(m, g, z);
    }
  }

  /** Red uncle u: the colours of p, u and g flip. */
  ghost predicate ColoursFlipped(m: Heap, m': Heap, p: Node, u: Node, g: Node) {
    && p in m && u in m && g in m && p != u && p != g && u != g
    && m'.Keys == m.Keys
    && m'[p] == m[p].Painted(true, m[p].at.bh + 1)
    && m'[u] == m[u].Painted(true, m[u].at.bh + 1)
    && m'[g] == m[g].Painted(false, m[g].at.bh)
    && (forall x {:trigger m'[x]} | x in m && x != p && x != u && x != g :: m'[x] == m[x])
  }

  /** After the flip the fault has moved to the grandparent. */
  lemma FlipColours(m: Heap, m': Heap, root: Node?, order: seq<Node>, z: Node, u: Node)
    requires Inserting(m, root, order, z) && IsRed(m, m[z].parent) && IsRed(m, u)
    requires var p := m[z].parent; var g := m[p].parent;
      && g != null && g in m && (m[g].left == u || m[g].right == u) && u != p && ColoursFlipped(m, m', p, u, g)
    ensures Inserting(m', root, order, m[m[z].parent].parent)
  {
    var p := m[z].parent;
    var g := m[p].parent;
    GrandparentExists(m, root, order, z);
    RepaintedShaped(m, m', root, order);
    forall x | x in m' ensures Balanced(m', x) && NoRedRed(m', x, g) {
      assert Balanced(m, x) && NoRedRed(m, x, z) && Linked(m, root, x);
      assert Balanced(m, p) && Balanced(m, u) && Linked(m, root, u) && Linked(m, root, p);
    }
  }

  lemma InnerRotatedAt(m: Heap, m': Heap, root: Node?, order: seq<Node>, z: Node, s: Side, x: Node)
    requires Inserting(m, root, order, z) && IsRed(m, m[z].parent) && x in m
    requires var p := m[z].parent; m[p].Kid(s.Flip()) == z && Pivot(m, p, s) && Rotated(m, m', p, s)
    ensures Balanced(m', x) && NoRedRed(m', x, m[z].parent)
  {
    var p := m[z].parent;
    GrandparentExists(m, root, order, z);
    assert Balanced(m, p) && Balanced(m, z) && NoRedRed(m, p, z) && NoRedRed(m, z, z);
    assert Linked(m, root, p) && Linked(m, root, z);
    assert Balanced(m, x) && NoRedRed(m, x, z);
    if x != p && x != z {
      assert Linked(m, root, x);
      RotatedKids(m, m', root, order, p, s, x);
    }
  }

  /** z is the inner grandchild: rotating its parent outwards makes the parent the faulty node. */
  lemma RotateInner(m: Heap, m': Heap, root: Node?, order: seq<Node>, z: Node, s: Side)
    requires Inserting(m, root, order, z) && IsRed(m, m[z].parent)
    requires var p := m[z].parent; m[p].Kid(s.Flip()) == z && Pivot(m, p, s) && Rotated(m, m', p, s)
    ensures Inserting(m', root, order, m[z].parent) && m'[m[z].parent].parent == z && IsRed(m', z)
    ensures m'[z].parent == m[m[z].parent].parent && Turned(m, m', m[z].parent, z)
  {
    var p := m[z].parent;
    GrandparentExists(m, root, order, z);
    RotatedShaped(m, m', root, order, p, s);
    assert Linked(m, root, p);
    RotatedTurns(m, m, m', p, s);
    forall x | x in m' ensures Balanced(m', x) && NoRedRed(m', x, p) {
      InnerRotatedAt(m, m', root, order, z, s, x);
    }
  }

  /** The recolouring that goes with the last rotation. */
  ghost predicate TopRecoloured(m: Heap, m1: Heap, p: Node, g: Node) {
    && p in m && g in m && p != g
    && m1.Keys == m.Keys
    && m1[p] == m[p].Painted(true, m[p].at.bh + 1)
    && m1[g] == m[g].Painted(false, m[g].at.bh - 1)
    && (forall x {:trigger m1[x]} | x in m && x != p && x != g :: m1[x] == m[x])
  }

  lemma TopPivot(m: Heap, m1: Heap, root: Node?, order: seq<Node>, z: Node, s: Side)
    requires Inserting(m, root, order, z) && IsRed(m, m[z].parent)
    requires var p := m[z].parent; m[p].parent != null && TopRecoloured(m, m1, p, m[p].parent)
    requires m[m[m[z].parent].parent].Kid(s) == m[z].parent
    ensures Pivot(m1, m[m[z].parent].parent, s.Flip())
  {
    GrandparentExists(m, root, order, z);
    RepaintedShaped(m, m1, root, order);
    PivotExists(m1, root, order, m[m[z].parent].parent, s.Flip());
  }

  ghost predicate OuterRotated(m: Heap, m1: Heap, m': Heap, root: Node?, order: seq<Node>, z: Node, s: Side) {
    && Inserting(m, root, order, z) && IsRed(m, m[z].parent)
    && m[m[z].parent].Kid(s) == z
    && var p := m[z].parent;
    && var g := m[p].parent;
    && g != null && g in m && m[g].Kid(s) == p && !IsRed(m, m[g].Kid(s.Flip()))
    && TopRecoloured(m, m1, p, g) && Pivot(m1, g, s.Flip()) && Rotated(m1, m', g, s.Flip())
  }

  lemma OuterRotatedNear(m: Heap, m1: Heap, m': Heap, root: Node?, order: seq<Node>, z: Node, s: Side)
    requires OuterRotated(m, m1, m', root, order, z, s)
    ensures var p := m[z].parent; Balanced(m', p) && NoRedRed(m', p, null)
    ensures var g := m[m[z].parent].parent; Balanced(m', g) && NoRedRed(m', g, null)
    ensures m'[z].parent == m[z].parent && m'[z].parent != null && m'[m[z].parent].black
  {
    var p := m[z].parent;
    var g := m[p].parent;
    GrandparentExists(m, root, order, z);
    assert Linked(m, root, p) && Linked(m, root, g) && Linked(m, root, z);
    assert Balanced(m, p) && Balanced(m, g) && NoRedRed(m, p, z) && NoRedRed(m, g, z);
  }

  lemma OuterRotatedFar(m: Heap, m1: Heap, m': Heap, root: Node?, order: seq<Node>, z: Node, s: Side, x: Node)
    requires OuterRotated(m, m1, m', root, order, z, s)
    requires Shaped(m1, root, order)
    requires x in m && x != m[z].parent && x != m[m[z].parent].parent
    ensures Balanced(m', x) && NoRedRed(m', x, null)
  {
    var p := m[z].parent;
    var g := m[p].parent;
    GrandparentExists(m, root, order, z);
    assert Balanced(m, x) && NoRedRed(m, x, z) && Linked(m, root, x);
    assert Balanced(m, p) && Balanced(m, g);
    RotatedKids(m1, m', root, order, g, s.Flip(), x);
  }

  lemma OuterRotatedAt(m: Heap, m1: Heap, m': Heap, root: Node?, order: seq<Node>, z: Node, s: Side, x: Node)
    requires OuterRotated(m, m1, m', root, order, z, s) && Shaped(m1, root, order) && x in m
    ensures Balanced(m', x) && NoRedRed(m', x, null)
  {
    if x == m[z].parent || x == m[m[z].parent].parent {
      OuterRotatedNear(m, m1, m', root, order, z, s);
    } else {
      OuterRotatedFar(m, m1, m', root, order, z, s, x);
    }
  }

  lemma OuterTurns(m: Heap, m1: Heap, m': Heap, root: Node?, order: seq<Node>, z: Node, s: Side)
    requires OuterRotated(m, m1, m', root, order, z, s)
    ensures Turned(m, m', m[m[z].parent].parent, m[z].parent)
  {
    var p := m[z].parent;
    var g := m[p].parent;
    assert Linked(m, root, p) && Linked(m, root, g);
    RotatedTurns(m, m1, m', g, s.Flip());
  }

  /** z is the outer grandchild with a black uncle: one recoloured rotation ends the repair. */
  lemma RotateOuter(m: Heap, m1: Heap, m': Heap, root: Node?, order: seq<Node>, z: Node, s: Side)
    requires OuterRotated(m, m1, m', root, order, z, s)
    ensures RedBlack(m', RotatedRoot(m1, root, m[m[z].parent].parent, s.Flip()), order)
    ensures m'[z].parent == m[z].parent && m'[z].parent != null && m'[m[z].parent].black
    ensures Turned(m, m', m[m[z].parent].parent, m[z].parent)
  {
    var p := m[z].parent;
    var g := m[p].parent;
    RepaintedShaped(m, m1, root, order);
    RotatedShaped(m1, m', root, order, g, s.Flip());
    OuterRotatedNear(m, m1, m', root, order, z, s);
    forall x | x in m' ensures Balanced(m', x) && NoRedRed(m', x, null) {
      OuterRotatedAt(m, m1, m', root, order, z, s, x);
    }
    OuterTurns(m, m1, m', root, order, z, s);
  }

  /** At the end the root is painted black, whatever it was. */
  lemma BlackenRoot(m: Heap, m': Heap, root: Node, order: seq<Node>, z: Node)
    requires Inserting(m, root, order, z) && !IsRed(m, m[z].parent)
    requires root in m && Repainted(m, m')
    requires m'[root] == m[root].Painted(true, if m[root].black then m[root].at.bh else m[root].at.bh + 1)
    requires forall x | x in m && x != root :: m'[x] == m[x]
    ensures RedBlack(m', root, order)
  {
    RepaintedShaped(m, m', root, order);
    assert Linked(m, root, z) && Linked(m, root, root);
    forall x | x in m' ensures Balanced(m', x) && NoRedRed(m', x, null) {
      assert Balanced(m, x) && NoRedRed(m, x, z) && Linked(m, root, x);
    }
  }
}
