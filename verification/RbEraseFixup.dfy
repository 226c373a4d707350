/** Why each step of __rb_erase_color restores the red-black invariants. */
module RbEraseFixup {
  import opened RbCells
  import opened RbInsertFixup

  /** The subtree z below q is one black node short of its sibling; q is right otherwise. */
  ghost predicate Short(m: Heap, q: Node, z: Node?, s: Side) {
    && q in m && m[q].Kid(s) == z
    && 0 <= BhOf(m, z)
    && BhOf(m, z) + 1 == BhOf(m, m[q].Kid(s.Flip()))
    && m[q].at.bh == BhOf(m, m[q].Kid(s.Flip())) + (if m[q].black then 1 else 0)
  }

  /** The only things still wrong: z, the possibly empty child of q, is one black node short,
      and z may be red next to red nodes. With q null, z is the root and only its colour may be wrong. */
  ghost predicate Erasing(m: Heap, root: Node?, order: seq<Node>, z: Node?, q: Node?) {
    && Shaped(m, root, order)
    && (z != null ==> z in m && m[z].parent == q)
    && (q == null ==> z == root)
    && (q != null ==> Short(m, q, z, Left) || Short(m, q, z, Right))
    && (forall x {:trigger Balanced(m, x)} | x in m && x != q :: Balanced(m, x))
    && (forall x {:trigger NoRedRed(m, x, z)} | x in m && x != z :: NoRedRed(m, x, z))
    && (IsRed(m, root) ==> z == root)
  }

  /** The sibling always exists: this is why the source never tests other for NULL. */
  lemma SiblingExists(m: Heap, root: Node?, order: seq<Node>, z: Node?, q: Node, s: Side)
    requires Erasing(m, root, order, z, q) && m[q].Kid(s) == z
    requires s.Right? ==> m[q].left != z
    ensures Short(m, q, z, s)
    ensures var w := m[q].Kid(s.Flip());
      && w != null && w in m && w != q && w != z && m[w].parent == q && Balanced(m, w)
      && (m[w].left != null ==> m[w].left in m && m[m[w].left].parent == w && m[w].left != w && m[w].left != q)
      && (m[w].right != null ==> m[w].right in m && m[m[w].right].parent == w && m[w].right != w && m[w].right != q)
      && (m[w].left != null ==> m[w].left != m[w].right)
    ensures IsRed(m, m[q].Kid(s.Flip())) ==> m[q].black && m[m[q].Kid(s.Flip())].Kid(s) != null
  {
    var w := m[q].Kid(s.Flip());
    assert Linked(m, root, q) && Placed(m, order, q);
    if z != null {
      assert Balanced(m, z);
    }
    assert w != null;
    assert Linked(m, root, w) && Placed(m, order, w) && Balanced(m, w) && NoRedRed(m, q, z);
    if m[w].left != null {
      assert Linked(m, root, m[w].left) && Placed(m, order, m[w].left);
    }
    if m[w].right != null {
      assert Linked(m, root, m[w].right) && Placed(m, order, m[w].right);
    }
  }

  /** Shared hypotheses of the steps: a short, non-red z on side s of q. */
  ghost predicate AtWork(m: Heap, root: Node?, order: seq<Node>, z: Node?, q: Node, s: Side) {
    && Erasing(m, root, order, z, q) && m[q].Kid(s) == z && (s.Right? ==> m[q].left != z)
    && !IsRed(m, z)
  }

  // ---------- a red sibling ----------

  lemma RedSiblingNear(m: Heap, m1: Heap, m': Heap, root: Node?, order: seq<Node>, z: Node?, q: Node, s: Side)
    requires AtWork(m, root, order, z, q, s)
    requires var w := m[q].Kid(s.Flip()); w != null && IsRed(m, w) && TopRecoloured(m, m1, w, q)
    requires Pivot(m1, q, s) && Rotated(m1, m', q, s)
    ensures var w := m[q].Kid(s.Flip()); Balanced(m', w) && NoRedRed(m', w, z)
    ensures Short(m', q, z, s) && NoRedRed(m', q, z) && !m'[q].black
    ensures m'[q].left != m'[q].right
    ensures m'[q].Kid(s.Flip()) == m[m[q].Kid(s.Flip())].Kid(s) && !IsRed(m', m'[q].Kid(s.Flip()))
    ensures m'[q].parent == m[q].Kid(s.Flip()) && !IsRed(m', RotatedRoot(m1, root, q, s))
    ensures z != null ==> m'[z] == m[z]
  {
    var w := m[q].Kid(s.Flip());
    SiblingExists(m, root, order, z, q, s);
    assert Linked(m, root, q) && Linked(m, root, w);
    assert NoRedRed(m, w, z) && NoRedRed(m, q, z) && Balanced(m, w);
    if z != null {
      NotGrandparent(m, root, order, z, q);
    }
  }

  lemma NotGrandparent(m: Heap, root: Node?, order: seq<Node>, z: Node?, q: Node)
    requires Shaped(m, root, order) && q in m && z != null && z in m && m[z].parent == q
    ensures m[q].parent != z
  {
    assert Linked(m, root, z) && Linked(m, root, q) && Placed(m, order, z) && Placed(m, order, q);
  }

  lemma RedSiblingFar(m: Heap, m1: Heap, m': Heap, root: Node?, order: seq<Node>, z: Node?, q: Node, s: Side, x: Node)
    requires AtWork(m, root, order, z, q, s)
    requires var w := m[q].Kid(s.Flip()); w != null && IsRed(m, w) && TopRecoloured(m, m1, w, q)
    requires Pivot(m1, q, s) && Rotated(m1, m', q, s) && Shaped(m1, root, order)
    requires x in m && x != q && x != m[q].Kid(s.Flip())
    ensures Balanced(m', x) && (x != z ==> NoRedRed(m', x, z))
  {
    var w := m[q].Kid(s.Flip());
    SiblingExists(m, root, order, z, q, s);
    assert Balanced(m, x) && Linked(m, root, x) && Linked(m, root, q);
    if x != z {
      assert NoRedRed(m, x, z);
    }
    RotatedKids(m1, m', root, order, q, s, x);
  }

  /** Red sibling: after a recoloured rotation the sibling is black and the parent red. */
  lemma RedSibling(m: Heap, m1: Heap, m': Heap, root: Node?, order: seq<Node>, z: Node?, q: Node, s: Side)
    requires AtWork(m, root, order, z, q, s)
    requires var w := m[q].Kid(s.Flip()); w != null && IsRed(m, w) && TopRecoloured(m, m1, w, q)
    requires Pivot(m1, q, s) && Rotated(m1, m', q, s)
    ensures AtWork(m', RotatedRoot(m1, root, q, s), order, z, q, s)
    ensures !m'[q].black && !IsRed(m', m'[q].Kid(s.Flip())) && m'[q].parent == m[q].Kid(s.Flip())
    ensures Turned(m, m', q, m[q].Kid(s.Flip())) && m'[q].at.pos == m[q].at.pos && (z != null ==> m'[z] == m[z])
  {
    var w := m[q].Kid(s.Flip());
    assert Linked(m, root, q);
    RotatedTurns(m, m1, m', q, s);
    RepaintedShaped(m, m1, root, order);
    RotatedShaped(m1, m', root, order, q, s);
    RedSiblingNear(m, m1, m', root, order, z, q, s);
    forall x | x in m' ensures (x != q ==> Balanced(m', x)) && (x != z ==> NoRedRed(m', x, z)) {
      if x != q && x != w {
        RedSiblingFar(m, m1, m', root, order, z, q, s, x);
      }
    }
  }

  // ---------- a black sibling with two black children ----------

  /** The sibling w turns red, which moves the shortage from z to q. */
  ghost predicate SiblingReddened(m: Heap, m': Heap, w: Node, q: Node) {
    && w in m && q in m && w != q
    && m'.Keys == m.Keys
    && m'[w] == m[w].Painted(false, m[w].at.bh - 1)
    && m'[q] == m[q].Painted(m[q].black, m[q].at.bh - 1)
    && (forall x {:trigger m'[x]} | x in m && x != w && x != q :: m'[x] == m[x])
  }

  lemma ReddenedRepaints(m: Heap, m': Heap, w: Node, q: Node)
    requires SiblingReddened(m, m', w, q)
    ensures Repainted(m, m') && AllSameKids(m, m')
  {
  }

  lemma MoveUpFar(m: Heap, m': Heap, root: Node?, order: seq<Node>, z: Node?, q: Node, s: Side, x: Node)
    requires AtWork(m, root, order, z, q, s)
    requires var w := m[q].Kid(s.Flip());
      w != null && w in m && m[w].black && !IsRed(m, m[w].left) && !IsRed(m, m[w].right) && SiblingReddened(m, m', w, q)
    requires x in m
    ensures x != m[q].parent ==> Balanced(m', x)
    ensures x != q ==> NoRedRed(m', x, q)
  {
    var w := m[q].Kid(s.Flip());
    SiblingExists(m, root, order, z, q, s);
    assert Linked(m, root, x) && Linked(m, root, q) && Linked(m, root, w);
    if x != q {
      assert Balanced(m, x);
    }
    if x != z {
      assert NoRedRed(m, x, z);
    }
  }

  lemma MoveUp(m: Heap, m': Heap, root: Node?, order: seq<Node>, z: Node?, q: Node, s: Side)
    requires AtWork(m, root, order, z, q, s)
    requires var w := m[q].Kid(s.Flip());
      w != null && w in m && m[w].black && !IsRed(m, m[w].left) && !IsRed(m, m[w].right) && SiblingReddened(m, m', w, q)
    ensures Erasing(m', root, order, q, m[q].parent)
    ensures m[q].parent != null ==> m[q].parent in m && m[m[q].parent].at.hi - m[m[q].parent].at.lo > m[q].at.hi - m[q].at.lo
  {
    var w := m[q].Kid(s.Flip());
    SiblingExists(m, root, order, z, q, s);
    RepaintedShaped(m, m', root, order);
    forall x | x in m' ensures (x != m[q].parent ==> Balanced(m', x)) && (x != q ==> NoRedRed(m', x, q)) {
      MoveUpFar(m, m', root, order, z, q, s, x);
    }
    assert Linked(m, root, q) && Placed(m, order, q);
    var g := m[q].parent;
    if g != null {
      assert Linked(m, root, g) && Placed(m, order, g) && Balanced(m, g);
      var s' := if m[g].left == q then Left else Right;
      assert Short(m', g, q, s');
    }
  }

  // ---------- a black sibling whose inner child is red ----------

  /** The hypotheses of this step. */
  ghost predicate InnerRotated(m: Heap, m1: Heap, m': Heap, root: Node?, order: seq<Node>, z: Node?, q: Node, s: Side) {
    && AtWork(m, root, order, z, q, s)
    && var w := m[q].Kid(s.Flip());
    && w != null && w in m && m[w].black && !IsRed(m, m[w].Kid(s.Flip())) && IsRed(m, m[w].Kid(s))
    && TopRecoloured(m, m1, m[w].Kid(s), w) && Pivot(m1, w, s.Flip()) && Rotated(m1, m', w, s.Flip())
  }

  lemma InnerNephewNear(m: Heap, m1: Heap, m': Heap, root: Node?, order: seq<Node>, z: Node?, q: Node, s: Side)
    requires InnerRotated(m, m1, m', root, order, z, q, s)
    ensures var w := m[q].Kid(s.Flip()); var v := m[w].Kid(s);
      && Balanced(m', w) && NoRedRed(m', w, z) && Balanced(m', v) && NoRedRed(m', v, z)
      && m'[q].Kid(s.Flip()) == v && m'[v].black && m'[v].Kid(s.Flip()) == w && IsRed(m', w)
    ensures Short(m', q, z, s) && NoRedRed(m', q, z) && m'[q].left != m'[q].right
    ensures z != null ==> m'[z] == m[z]
    ensures m'[q].parent == m[q].parent && m'[q].at.lo == m[q].at.lo && m'[q].at.hi == m[q].at.hi
    ensures RotatedRoot(m1, root, m[q].Kid(s.Flip()), s.Flip()) == root && !IsRed(m', root)
  {
    var w := m[q].Kid(s.Flip());
    var v := m[w].Kid(s);
    SiblingExists(m, root, order, z, q, s);
    assert Linked(m, root, q) && Linked(m, root, w) && Linked(m, root, v) && Placed(m, order, v) && Placed(m, order, q);
    assert NoRedRed(m, w, z) && NoRedRed(m, v, z) && NoRedRed(m, q, z) && Balanced(m, w) && Balanced(m, v);
  }

  lemma InnerNephewFar(m: Heap, m1: Heap, m': Heap, root: Node?, order: seq<Node>, z: Node?, q: Node, s: Side, x: Node)
    requires InnerRotated(m, m1, m', root, order, z, q, s)
    requires x in m && x != q && x != m[q].Kid(s.Flip()) && x != m[m[q].Kid(s.Flip())].Kid(s)
    requires Shaped(m1, root, order)
    ensures Balanced(m', x) && (x != z ==> NoRedRed(m', x, z))
  {
    var w := m[q].Kid(s.Flip());
    SiblingExists(m, root, order, z, q, s);
    assert Balanced(m, x) && Linked(m, root, x) && Linked(m, root, w);
    if x != z {
      assert NoRedRed(m, x, z);
    }
    RotatedKids(m1, m', root, order, w, s.Flip(), x);
  }

  lemma InnerNephewAt(m: Heap, m1: Heap, m': Heap, root: Node?, order: seq<Node>, z: Node?, q: Node, s: Side, x: Node)
    requires InnerRotated(m, m1, m', root, order, z, q, s)
    requires Shaped(m1, root, order) && x in m
    ensures (x != q ==> Balanced(m', x)) && (x != z ==> NoRedRed(m', x, z))
  {
    var w := m[q].Kid(s.Flip());
    if x == q || x == w || x == m[w].Kid(s) {
      InnerNephewNear(m, m1, m', root, order, z, q, s);
    } else {
      InnerNephewFar(m, m1, m', root, order, z, q, s, x);
    }
  }

  lemma InnerNephewTurns(m: Heap, m1: Heap, m': Heap, root: Node?, order: seq<Node>, z: Node?, q: Node, s: Side)
    requires InnerRotated(m, m1, m', root, order, z, q, s)
    ensures var w := m[q].Kid(s.Flip()); Turned(m, m', w, m[w].Kid(s)) && m[w].parent == q
  {
    var w := m[q].Kid(s.Flip());
    assert Linked(m, root, q) && Linked(m, root, w);
    RotatedTurns(m, m1, m', w, s.Flip());
  }

  /** Only the inner child of the sibling is red: rotating the sibling makes its outer child red. */
  lemma InnerNephew(m: Heap, m1: Heap, m': Heap, root: Node?, order: seq<Node>, z: Node?, q: Node, s: Side)
    requires InnerRotated(m, m1, m', root, order, z, q, s)
    ensures AtWork(m', root, order, z, q, s) && RotatedRoot(m1, root, m[q].Kid(s.Flip()), s.Flip()) == root
    ensures var v := m'[q].Kid(s.Flip());
      v == m[m[q].Kid(s.Flip())].Kid(s) && v != null && v in m' && m'[v].black && IsRed(m', m'[v].Kid(s.Flip()))
    ensures m'[q].parent == m[q].parent && m'[q].at.pos == m[q].at.pos && (z != null ==> m'[z] == m[z])
    ensures var w := m[q].Kid(s.Flip()); Turned(m, m', w, m[w].Kid(s)) && m[w].parent == q
  {
    var w := m[q].Kid(s.Flip());
    InnerNephewTurns(m, m1, m', root, order, z, q, s);
    RepaintedShaped(m, m1, root, order);
    RotatedShaped(m1, m', root, order, w, s.Flip());
    InnerNephewNear(m, m1, m', root, order, z, q, s);
    forall x | x in m' ensures (x != q ==> Balanced(m', x)) && (x != z ==> NoRedRed(m', x, z)) {
      InnerNephewAt(m, m1, m', root, order, z, q, s, x);
    }
  }

  // ---------- a black sibling whose outer child is red ----------

  ghost predicate BorrowRecoloured(m: Heap, m1: Heap, w: Node, q: Node, f: Node) {
    && w in m && q in m && f in m && w != q && f != q && f != w
    && m1.Keys == m.Keys
    && m1[w] == m[w].Painted(m[q].black, m[q].at.bh)
    && m1[q] == m[q].Painted(true, m[w].at.bh)
    && m1[f] == m[f].Painted(true, m[f].at.bh + 1)
    && (forall x {:trigger m1[x]} | x in m && x != w && x != q && x != f :: m1[x] == m[x])
  }

  /** The hypotheses of the step that ends the repair. */
  ghost predicate Borrowed(m: Heap, m1: Heap, m': Heap, root: Node?, order: seq<Node>, z: Node?, q: Node, s: Side) {
    && AtWork(m, root, order, z, q, s)
    && var w := m[q].Kid(s.Flip());
    && w != null && w in m && m[w].black
    && var f := m[w].Kid(s.Flip());
    && f != null && IsRed(m, f)
    && BorrowRecoloured(m, m1, w, q, f) && Pivot(m1, q, s) && Rotated(m1, m', q, s)
  }

  lemma BorrowNear(m: Heap, m1: Heap, m': Heap, root: Node?, order: seq<Node>, z: Node?, q: Node, s: Side)
    requires Borrowed(m, m1, m', root, order, z, q, s)
    ensures var w := m[q].Kid(s.Flip()); var f := m[w].Kid(s.Flip());
      && Balanced(m', w) && NoRedRed(m', w, null) && Balanced(m', f) && NoRedRed(m', f, null)
    ensures Balanced(m', q) && NoRedRed(m', q, null) && !IsRed(m', RotatedRoot(m1, root, q, s))
  {
    var w := m[q].Kid(s.Flip());
    var f := m[w].Kid(s.Flip());
    SiblingExists(m, root, order, z, q, s);
    assert Linked(m, root, q) && Linked(m, root, w) && Linked(m, root, f);
    assert NoRedRed(m, q, z) && Balanced(m, w) && Balanced(m, f);
  }

  lemma BorrowFar(m: Heap, m1: Heap, m': Heap, root: Node?, order: seq<Node>, z: Node?, q: Node, s: Side, x: Node)
    requires Borrowed(m, m1, m', root, order, z, q, s) && Shaped(m1, root, order)
    requires x in m && x != q && x != m[q].Kid(s.Flip()) && x != m[m[q].Kid(s.Flip())].Kid(s.Flip())
    ensures Balanced(m', x) && NoRedRed(m', x, null)
  {
    var w := m[q].Kid(s.Flip());
    var f := m[w].Kid(s.Flip());
    SiblingExists(m, root, order, z, q, s);
    assert Balanced(m, x) && Linked(m, root, x) && Linked(m, root, q);
    if x != z {
      assert NoRedRed(m, x, z);
    }
    RotatedKids(m1, m', root, order, q, s, x);
  }

  /** The outer child of the sibling is red: one recoloured rotation ends the repair. */
  lemma Borrow(m: Heap, m1: Heap, m': Heap, root: Node?, order: seq<Node>, z: Node?, q: Node, s: Side)
    requires Borrowed(m, m1, m', root, order, z, q, s)
    ensures RedBlack(m', RotatedRoot(m1, root, q, s), order)
    ensures var w := m[q].Kid(s.Flip()); Turned(m, m', q, w) && m'[m[w].Kid(s.Flip())].parent == w
  {
    var w := m[q].Kid(s.Flip());
    var f := m[w].Kid(s.Flip());
    assert Linked(m, root, q) && Linked(m, root, w) && Linked(m, root, f);
    RotatedTurns(m, m1, m', q, s);
    RepaintedShaped(m, m1, root, order);
    RotatedShaped(m1, m', root, order, q, s);
    BorrowNear(m, m1, m', root, order, z, q, s);
    forall x | x in m' ensures Balanced(m', x) && NoRedRed(m', x, null) {
      if x != q && x != w && x != f {
        BorrowFar(m, m1, m', root, order, z, q, s, x);
      }
    }
  }

  // ---------- the end ----------

  /** A red z, or z at the root: painting z black settles the account. */
  lemma BlackenShort(m: Heap, m': Heap, root: Node?, order: seq<Node>, z: Node, q: Node?)
    requires Erasing(m, root, order, z, q) && (IsRed(m, z) || z == root)
    requires Repainted(m, m') && z in m
    requires m'[z] == m[z].Painted(true, if m[z].black then m[z].at.bh else m[z].at.bh + 1)
    requires forall x {:trigger m'[x]} | x in m && x != z :: m'[x] == m[x]
    ensures RedBlack(m', root, order)
  {
    RepaintedShaped(m, m', root, order);
    assert Linked(m, root, z);
    forall x | x in m' ensures Balanced(m', x) && NoRedRed(m', x, null) {
      assert Linked(m, root, x);
      if x != z {
        assert NoRedRed(m, x, z);
      }
      if x != q {
        assert Balanced(m, x);
      }
    }
  }

  // ---------- the rotations are possible ----------

  lemma RedSiblingPivot(m: Heap, m1: Heap, root: Node?, order: seq<Node>, z: Node?, q: Node, s: Side)
    requires AtWork(m, root, order, z, q, s)
    requires var w := m[q].Kid(s.Flip()); w != null && TopRecoloured(m, m1, w, q)
    ensures Pivot(m1, q, s)
  {
    RepaintedShaped(m, m1, root, order);
    PivotExists(m1, root, order, q, s);
  }

  lemma InnerNephewPivot(m: Heap, m1: Heap, root: Node?, order: seq<Node>, z: Node?, q: Node, s: Side)
    requires AtWork(m, root, order, z, q, s)
    requires var w := m[q].Kid(s.Flip()); w != null && w in m && m[w].Kid(s) != null && TopRecoloured(m, m1, m[w].Kid(s), w)
    ensures Pivot(m1, m[q].Kid(s.Flip()), s.Flip())
  {
    RepaintedShaped(m, m1, root, order);
    PivotExists(m1, root, order, m[q].Kid(s.Flip()), s.Flip());
  }

  lemma BorrowPivot(m: Heap, m1: Heap, root: Node?, order: seq<Node>, z: Node?, q: Node, s: Side)
    requires AtWork(m, root, order, z, q, s)
    requires var w := m[q].Kid(s.Flip());
      w != null && w in m && m[w].Kid(s.Flip()) != null && BorrowRecoloured(m, m1, w, q, m[w].Kid(s.Flip()))
    ensures Pivot(m1, q, s)
  {
    RepaintedShaped(m, m1, root, order);
    PivotExists(m1, root, order, q, s);
  }

  // ---------- where the repair leaves new children ----------

  /** Position k is inside z or, when z is empty, at its parent q: the path repaired later starts there. */
  ghost predicate FromHere(m: Heap, z: Node?, q: Node?, k: int) {
    && (q != null ==> Covers(m, q, k))
    && (if z != null then Covers(m, z, k) else q != null && q in m && k == m[q].at.pos)
  }

  lemma FromHereUp(m: Heap, root: Node?, order: seq<Node>, z: Node?, q: Node, k: int)
    requires Shaped(m, root, order) && q in m && (m[q].left == z || m[q].right == z)
    requires if z != null then Covers(m, z, k) else k == m[q].at.pos
    ensures FromHere(m, q, m[q].parent, k)
  {
    assert Linked(m, root, q) && Placed(m, order, q);
    CoversUp(m, root, order, q, k);
  }

  /** After the last rotation o is above q, and the path from k leads through o. */
  lemma BorrowCovers(m: Heap, m': Heap, root: Node?, root': Node?, order: seq<Node>, z: Node?, q: Node, s: Side, k: int)
    requires Shaped(m, root, order) && Shaped(m', root', order) && q in m && m[q].Kid(s) == z
    requires if z != null then Covers(m, z, k) else k == m[q].at.pos
    requires m[q].Kid(s.Flip()) != null && Turned(m, m', q, m[q].Kid(s.Flip()))
    ensures Covers(m', m[q].Kid(s.Flip()), k) && m'[m[q].Kid(s.Flip())].at.pos != k
  {
    var o := m[q].Kid(s.Flip());
    assert Linked(m, root, q) && Placed(m, order, q) && Placed(m, order, o) && Placed(m', order, o);
    assert order[m[o].at.pos] == o;
    if z != null {
      assert Placed(m, order, z);
    }
  }

  /** The old parent p0 of a red sibling that went above q is none of the nodes below q. */
  lemma ApartAbove(m: Heap, root: Node?, order: seq<Node>, q: Node, o: Node, x: Node)
    requires Shaped(m, root, order) && {q, o, x} <= m.Keys
    requires m[o].parent == q && (x == o || m[x].parent == o)
    requires m[q].parent != null && m[q].parent in m
    ensures m[m[q].parent].parent != x
  {
    var w := m[q].parent;
    assert Linked(m, root, q) && Linked(m, root, o) && Linked(m, root, x) && Linked(m, root, w);
    assert Placed(m, order, q) && Placed(m, order, o) && Placed(m, order, x) && Placed(m, order, w);
    if m[w].parent != null {
      assert Linked(m, root, m[w].parent) && Placed(m, order, m[w].parent);
    }
  }

  /** What one round that ends with a borrowing rotation has done: it may have rotated a red
      sibling w above q, it may have rotated o above the sibling o1, and then o above q. */
  ghost predicate BorrowRound(m: Heap, ma: Heap, mb: Heap, m': Heap, z: Node?, q: Node, s: Side,
                              w: Node?, o1: Node, o: Node) {
    && q in m && (if w == null then ma == m else Turned(m, ma, q, w))
    && q in ma && ma[q].Kid(s.Flip()) == o1 && o1 in ma && o in ma && ma[o1].parent == q
    && (if o1 == o then mb == ma
        else Turned(ma, mb, o1, o) && ma[o].parent == o1 && mb[q].parent == ma[q].parent && q in mb)
    && mb[q].Kid(s) == z && mb[q].Kid(s.Flip()) == o && Turned(mb, m', q, o)
    && (o1 != o ==> m'[o1].parent == o)
  }

  /** All nodes given new children by such a round are near the path from k. */
  lemma BorrowRoundSettled(m: Heap, ma: Heap, mb: Heap, m': Heap, roota: Node?, rootb: Node?, root': Node?,
                           order: seq<Node>, z: Node?, q: Node, s: Side, k: int, w: Node?, o1: Node, o: Node)
    requires BorrowRound(m, ma, mb, m', z, q, s, w, o1, o)
    requires Shaped(ma, roota, order) && Shaped(mb, rootb, order) && Shaped(m', root', order)
    requires if z != null then Covers(mb, z, k) else k == mb[q].at.pos
    ensures Settled(m, m', k, true)
  {
    BorrowCovers(mb, m', rootb, root', order, z, q, s, k);
    CoversUp(m', root', order, o, k);
    if w != null {
      ApartAbove(ma, roota, order, q, o1, o);
      ApartAbove(ma, roota, order, q, o1, o1);
      assert m'[o].parent == w && m'[w].parent == m[q].parent by {
        WParent(ma, mb, m', roota, order, q, o1, o, w);
      }
      CoversUp(m', root', order, w, k);
    }
  }

  lemma WParent(ma: Heap, mb: Heap, m': Heap, roota: Node?, order: seq<Node>, q: Node, o1: Node, o: Node, w: Node)
    requires Shaped(ma, roota, order) && {q, o1, o, w} <= ma.Keys && ma[q].parent == w && ma[o1].parent == q
    requires if o1 == o then mb == ma
             else Turned(ma, mb, o1, o) && ma[o].parent == o1 && mb[q].parent == ma[q].parent && q in mb
    requires ma[w].parent != o && ma[w].parent != o1 && Turned(mb, m', q, o)
    ensures m'[o].parent == w && m'[w].parent == ma[w].parent
  {
    assert Linked(ma, roota, q) && Linked(ma, roota, o1) && Linked(ma, roota, o) && Linked(ma, roota, w);
    assert Placed(ma, order, q) && Placed(ma, order, o1) && Placed(ma, order, o) && Placed(ma, order, w);
  }

  /** The same when the round at most rotated a red sibling w above q and then repainted. */
  lemma ReddenedSettled(m: Heap, ma: Heap, m': Heap, root': Node?, order: seq<Node>, z: Node?, q: Node, w: Node?, k: int)
    requires q in m && (if w == null then ma == m else Turned(m, ma, q, w))
    requires Repainted(ma, m') && Shaped(m', root', order)
    requires q in ma && FromHere(ma, z, q, k) && FromHere(ma, q, ma[q].parent, k)
    ensures Settled(m, m', k, true) && FromHere(m', q, ma[q].parent, k)
    ensures w == null ==> AllSameKids(m, m')
  {
    assert forall x {:trigger m'[x]} | x in ma :: m'[x].parent == ma[x].parent && m'[x].at.lo == ma[x].at.lo && m'[x].at.hi == ma[x].at.hi;
    if w != null {
      assert Turned(m, m', q, w);
      RedSiblingSettled(m, m', root', order, z, q, w, k);
    }
  }

  lemma RedSiblingSettled(m: Heap, m': Heap, root': Node?, order: seq<Node>, z: Node?, q: Node, w: Node, k: int)
    requires Turned(m, m', q, w) && Shaped(m', root', order) && FromHere(m', z, q, k)
    ensures Settled(m, m', k, true)
  {
    CoversUp(m', root', order, q, k);
    CoversUp(m', root', order, w, k);
  }
}
