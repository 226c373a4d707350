/** Red-black trees of lib/rbtree.c seen as finite maps from nodes to their contents. */
module RbCells {

  /** Ghost annotations of a node: its subtree covers the slice [lo, hi) of the in-order
      sequence, the node itself sits at pos, and bh is the black height of its subtree. */
  datatype Mark = Mark(lo: int, pos: int, hi: int, bh: int)

  /** struct rb_node, with the packed parent and colour as two fields. */
  class Node {
    const key: int
    var left: Node?
    var right: Node?
    var parent: Node?
    var black: bool
    /** What the augmented-tree callbacks keep up to date: a summary of the subtree. */
    var sum: int
    ghost var at: Mark

    /** rb_init_node: a red node that is its own parent is in no tree. */
    constructor (k: int)
      ensures key == k && left == null && right == null && parent == this && !black
    {
      key := k;
      left, right, parent, black, sum := null, null, this, false, 0;
      at := Mark(0, 0, 0, 0);
    }
  }

  /** The two mirror images in which every rotation and fix-up of the source occurs. */
  datatype Side = Left | Right {
    function Flip(): Side { if Left? then Right else Left }
  }

  /** What a node holds at one moment. */
  datatype Cell = Cell(left: Node?, right: Node?, parent: Node?, black: bool, at: Mark) {
    ghost function Kid(s: Side): Node? { if s.Left? then left else right }

    ghost function WithKid(s: Side, v: Node?): Cell {
      if s.Left? then this.(left := v) else this.(right := v)
    }

    /** Where the slice of this node ends on side s. */
    ghost function End(s: Side): int { if s.Left? then at.lo else at.hi }

    ghost function WithEnd(s: Side, v: int): Cell {
      if s.Left? then this.(at := at.(lo := v)) else this.(at := at.(hi := v))
    }

    /** Where the slice of the child on side s meets this node. */
    ghost function Cut(s: Side): int { if s.Left? then at.pos else at.pos + 1 }

    ghost function Painted(b: bool, bh: int): Cell { this.(black := b, at := at.(bh := bh)) }
  }

  type Heap = map<Node, Cell>

  /** x occurs in the sequence where its mark says. */
  ghost predicate Placed(m: Heap, order: seq<Node>, x: Node) {
    && x in m
    && 0 <= m[x].at.lo <= m[x].at.pos < m[x].at.hi <= |order|
    && order[m[x].at.pos] == x
  }

  /** Parent and child links of x agree, and its children split its slice around it. */
  ghost predicate Linked(m: Heap, root: Node?, x: Node) {
    && x in m
    && var c := m[x];
    && (c.left == null <==> c.at.lo == c.at.pos)
    && (c.left != null ==>
          c.left in m && m[c.left].parent == x && m[c.left].at.lo == c.at.lo && m[c.left].at.hi == c.at.pos)
    && (c.right == null <==> c.at.pos + 1 == c.at.hi)
    && (c.right != null ==>
          c.right in m && m[c.right].parent == x && m[c.right].at.lo == c.at.pos + 1 && m[c.right].at.hi == c.at.hi)
    && (if c.parent == null then x == root
        else c.parent in m && (m[c.parent].left == x || m[c.parent].right == x))
  }

  /** The links form one binary tree under root, and order is its in-order sequence. */
  ghost predicate Shaped(m: Heap, root: Node?, order: seq<Node>) {
    && (forall i {:trigger order[i]} | 0 <= i < |order| :: order[i] in m && m[order[i]].at.pos == i)
    && (forall x {:trigger Placed(m, order, x)} | x in m :: Placed(m, order, x))
    && (forall x {:trigger Linked(m, root, x)} | x in m :: Linked(m, root, x))
    && (root == null <==> |order| == 0)
    && (root != null ==> root in m && m[root].parent == null && m[root].at.lo == 0 && m[root].at.hi == |order|)
  }

  /** Black height of a possibly empty subtree. */
  ghost function BhOf(m: Heap, n: Node?): int {
    if n != null && n in m then m[n].at.bh else 0
  }

  ghost predicate IsRed(m: Heap, n: Node?) {
    n != null && n in m && !m[n].black
  }

  /** Both subtrees of x have one black height, and the recorded height of x follows from it. */
  ghost predicate Balanced(m: Heap, x: Node) {
    && x in m
    && 0 <= BhOf(m, m[x].left) == BhOf(m, m[x].right)
    && m[x].at.bh == BhOf(m, m[x].left) + (if m[x].black then 1 else 0)
  }

  /** A red x has no red child, the node z excepted. */
  ghost predicate NoRedRed(m: Heap, x: Node, z: Node?) {
    && x in m
    && (|| m[x].black
        || ((m[x].left == z || !IsRed(m, m[x].left)) && (m[x].right == z || !IsRed(m, m[x].right))))
  }

  /** A valid red-black tree with in-order sequence order. */
  ghost predicate RedBlack(m: Heap, root: Node?, order: seq<Node>) {
    && Shaped(m, root, order)
    && (forall x {:trigger Balanced(m, x)} | x in m :: Balanced(m, x))
    && (forall x {:trigger NoRedRed(m, x, null)} | x in m :: NoRedRed(m, x, null))
    && !IsRed(m, root)
  }

  // ---------- which nodes have new children ----------

  ghost predicate SameKids(m: Heap, m': Heap, x: Node) {
    x in m && x in m' && m'[x].left == m[x].left && m'[x].right == m[x].right
  }

  ghost predicate Untouched(m: Heap, m': Heap, x: Node) {
    SameKids(m, m', x) && m'[x].at.lo == m[x].at.lo && m'[x].at.hi == m[x].at.hi
  }

  ghost predicate AllSameKids(m: Heap, m': Heap) {
    m'.Keys == m.Keys && forall x {:trigger m'[x]} | x in m :: Untouched(m, m', x)
  }

  /** The subtree of x contains position k. */
  ghost predicate Covers(m: Heap, x: Node?, k: int) {
    x != null && x in m && m[x].at.lo <= k < m[x].at.hi
  }

  /** x lies on the path from position k to the root, or its parent does; strictly, the parent
      then is not the start of the path itself. */
  ghost predicate Near(m: Heap, x: Node, k: int, strict: bool) {
    && x in m
    && (|| Covers(m, x, k)
        || (m[x].parent != null && Covers(m, m[x].parent, k) && (strict ==> m[m[x].parent].at.pos != k)))
  }

  /** Every node whose children differ between m and m' is near the path from k. */
  ghost predicate Settled(m: Heap, m': Heap, k: int, strict: bool) {
    m'.Keys == m.Keys && forall x {:trigger m'[x]} | x in m :: Untouched(m, m', x) || Near(m', x, k, strict)
  }

  /** n has gone below r, its former child, which has taken its place and slice. */
  ghost predicate Turned(m: Heap, m': Heap, n: Node, r: Node) {
    && n in m && r in m && m'.Keys == m.Keys
    && m'[n].parent == r && m'[r].parent == m[n].parent
    && m'[r].at.lo == m[n].at.lo && m'[r].at.hi == m[n].at.hi
    && (forall x {:trigger m'[x]} | x in m && x != n && x != r && x != m[n].parent :: Untouched(m, m', x))
    && (forall x {:trigger m'[x]} | x in m && x != n && x != r && m[x].parent != r :: m'[x].parent == m[x].parent)
  }

  /** An ancestor covers what its child covers. */
  lemma CoversUp(m: Heap, root: Node?, order: seq<Node>, x: Node, k: int)
    requires Shaped(m, root, order) && Covers(m, x, k)
    ensures m[x].parent != null ==> Covers(m, m[x].parent, k)
  {
    assert Linked(m, root, x);
    if m[x].parent != null {
      assert Linked(m, root, m[x].parent) && Placed(m, order, m[x].parent);
    }
  }

  /** The order alone determines the positions. */
  lemma SamePlace(m: Heap, root: Node?, m': Heap, root': Node?, order: seq<Node>, x: Node)
    requires Shaped(m, root, order) && Shaped(m', root', order) && x in m && x in m'
    ensures m'[x].at.pos == m[x].at.pos
  {
    assert Placed(m, order, x) && order[m[x].at.pos] == x;
  }

  // ---------- changes that leave the shape alone ----------

  /** Only colours and black heights differ. */
  ghost predicate Repainted(m: Heap, m': Heap) {
    && m'.Keys == m.Keys
    && forall x {:trigger m'[x]} | x in m :: m'[x] == m[x].Painted(m'[x].black, m'[x].at.bh)
  }

  lemma RepaintedShaped(m: Heap, m': Heap, root: Node?, order: seq<Node>)
    requires Shaped(m, root, order) && Repainted(m, m')
    ensures Shaped(m', root, order)
  {
    forall x | x in m' ensures Linked(m', root, x) {
      assert Linked(m, root, x);
    }
    forall x | x in m' ensures Placed(m', order, x) {
      assert Placed(m, order, x);
    }
  }

  // ---------- rotations ----------

  /** What a rotation of n towards side s finds around n: its child r on the other side, the
      child of r on side s, and its parent, all distinct. */
  ghost predicate Pivot(m: Heap, n: Node, s: Side) {
    && n in m
    && var r := m[n].Kid(s.Flip());
    && r != null && r in m && r != n && m[r].parent == n
    && m[r].Kid(s) != n && m[r].Kid(s) != r
    && (m[r].Kid(s) != null ==> m[r].Kid(s) in m && m[m[r].Kid(s)].parent == r)
    && (m[n].parent != null ==>
          var p := m[n].parent;
          && p in m && p != n && p != r && p != m[r].Kid(s)
          && (m[p].left == n || m[p].right == n) && m[p].left != m[p].right)
  }

  /** m' is m after n has gone down to side s and its other child has taken its place. */
  ghost predicate Rotated(m: Heap, m': Heap, n: Node, s: Side)
    requires Pivot(m, n, s)
  {
    var r := m[n].Kid(s.Flip());
    var mid := m[r].Kid(s);
    var p := m[n].parent;
    && m'.Keys == m.Keys
    && m'[n] == m[n].WithKid(s.Flip(), mid).(parent := r).WithEnd(s.Flip(), m[r].Cut(s))
    && m'[r] == m[r].WithKid(s, n).(parent := p).WithEnd(s, m[n].End(s))
    && (mid != null ==> m'[mid] == m[mid].(parent := n))
    && (p != null ==> m'[p] == if m[p].left == n then m[p].(left := r) else m[p].(right := r))
    && (forall x {:trigger m'[x]} | x in m && x != n && x != r && x != mid && x != p :: m'[x] == m[x])
  }

  ghost function RotatedRoot(m: Heap, root: Node?, n: Node, s: Side): Node?
    requires n in m
  {
    if m[n].parent == null then m[n].Kid(s.Flip()) else root
  }

  lemma PivotExists(m: Heap, root: Node?, order: seq<Node>, n: Node, s: Side)
    requires Shaped(m, root, order) && n in m && m[n].Kid(s.Flip()) != null
    ensures Pivot(m, n, s)
  {
    var r := m[n].Kid(s.Flip());
    assert Linked(m, root, n) && Linked(m, root, r);
    assert Placed(m, order, n) && Placed(m, order, r);
    if m[n].parent != null {
      assert Linked(m, root, m[n].parent) && Placed(m, order, m[n].parent);
    }
    if m[r].Kid(s) != null {
      assert Linked(m, root, m[r].Kid(s)) && Placed(m, order, m[r].Kid(s));
    }
  }

  lemma PivotFacts(m: Heap, root: Node?, order: seq<Node>, n: Node, s: Side)
    requires Shaped(m, root, order) && Pivot(m, n, s)
    ensures Linked(m, root, n) && Placed(m, order, n)
    ensures var r := m[n].Kid(s.Flip()); Linked(m, root, r) && Placed(m, order, r)
    ensures var mid := m[m[n].Kid(s.Flip())].Kid(s); mid != null ==> Linked(m, root, mid) && Placed(m, order, mid)
    ensures var p := m[n].parent; p != null ==> Linked(m, root, p) && Placed(m, order, p)
  {
  }

  lemma RotatedLinkedPivot(m: Heap, m': Heap, root: Node?, order: seq<Node>, n: Node, s: Side)
    requires Shaped(m, root, order) && Pivot(m, n, s) && Rotated(m, m', n, s)
    ensures Linked(m', RotatedRoot(m, root, n, s), n)
    ensures Linked(m', RotatedRoot(m, root, n, s), m[n].Kid(s.Flip()))
  {
    PivotFacts(m, root, order, n, s);
  }

  lemma RotatedLinkedRim(m: Heap, m': Heap, root: Node?, order: seq<Node>, n: Node, s: Side, x: Node)
    requires Shaped(m, root, order) && Pivot(m, n, s) && Rotated(m, m', n, s)
    requires x == m[m[n].Kid(s.Flip())].Kid(s) || x == m[n].parent
    ensures Linked(m', RotatedRoot(m, root, n, s), x)
  {
    PivotFacts(m, root, order, n, s);
  }

  lemma RotatedLinkedFar(m: Heap, m': Heap, root: Node?, order: seq<Node>, n: Node, s: Side, x: Node)
    requires Shaped(m, root, order) && Pivot(m, n, s) && Rotated(m, m', n, s) && x in m
    requires x != n && x != m[n].Kid(s.Flip()) && x != m[m[n].Kid(s.Flip())].Kid(s) && x != m[n].parent
    ensures Linked(m', RotatedRoot(m, root, n, s), x)
  {
    PivotFacts(m, root, order, n, s);
    assert Linked(m, root, x) && Placed(m, order, x);
  }

  lemma RotatedLinked(m: Heap, m': Heap, root: Node?, order: seq<Node>, n: Node, s: Side, x: Node)
    requires Shaped(m, root, order) && Pivot(m, n, s) && Rotated(m, m', n, s) && x in m
    ensures Linked(m', RotatedRoot(m, root, n, s), x)
  {
    if x == n || x == m[n].Kid(s.Flip()) {
      RotatedLinkedPivot(m, m', root, order, n, s);
    } else if x == m[m[n].Kid(s.Flip())].Kid(s) || x == m[n].parent {
      RotatedLinkedRim(m, m', root, order, n, s, x);
    } else {
      RotatedLinkedFar(m, m', root, order, n, s, x);
    }
  }

  lemma RotatedPlaced(m: Heap, m': Heap, root: Node?, order: seq<Node>, n: Node, s: Side, x: Node)
    requires Shaped(m, root, order) && Pivot(m, n, s) && Rotated(m, m', n, s) && x in m
    ensures Placed(m', order, x) && m'[x].at.pos == m[x].at.pos
  {
    PivotFacts(m, root, order, n, s);
    assert Placed(m, order, x);
  }

  /** A rotation keeps the tree well linked and its in-order sequence unchanged. */
  lemma RotatedShaped(m: Heap, m': Heap, root: Node?, order: seq<Node>, n: Node, s: Side)
    requires Shaped(m, root, order) && Pivot(m, n, s) && Rotated(m, m', n, s)
    ensures Shaped(m', RotatedRoot(m, root, n, s), order)
  {
    var root' := RotatedRoot(m, root, n, s);
    forall x | x in m' ensures Linked(m', root', x) {
      RotatedLinked(m, m', root, order, n, s, x);
    }
    forall x | x in m' ensures Placed(m', order, x) && m'[x].at.pos == m[x].at.pos {
      RotatedPlaced(m, m', root, order, n, s, x);
    }
    PivotFacts(m, root, order, n, s);
    assert Linked(m, root, root);
  }

  /** Away from the two nodes that change places, only the link to n is redirected. */
  lemma RotatedKids(m: Heap, m': Heap, root: Node?, order: seq<Node>, n: Node, s: Side, x: Node)
    requires Shaped(m, root, order) && Pivot(m, n, s) && Rotated(m, m', n, s) && x in m
    requires x != n && x != m[n].Kid(s.Flip())
    ensures m'[x].left == (if m[x].left == n then m[n].Kid(s.Flip()) else m[x].left)
    ensures m'[x].right == (if m[x].right == n then m[n].Kid(s.Flip()) else m[x].right)
    ensures m'[x].black == m[x].black && m'[x].at == m[x].at
  {
    assert Linked(m, root, x) && Linked(m, root, n);
  }

  lemma RotatedTurns(m: Heap, m1: Heap, m': Heap, n: Node, s: Side)
    requires Repainted(m, m1) && n in m && m[n].Kid(s.Flip()) != null
    requires Pivot(m1, n, s) && Rotated(m1, m', n, s)
    requires m[m[n].Kid(s.Flip())].End(s.Flip()) == m[n].End(s.Flip())
    ensures Turned(m, m', n, m[n].Kid(s.Flip()))
  {
  }

  lemma SettledThrough(m0: Heap, m: Heap, m': Heap, k: int)
    requires AllSameKids(m0, m) && Settled(m, m', k, true)
    ensures Settled(m0, m', k, true) && (AllSameKids(m, m') ==> AllSameKids(m0, m'))
  {
  }

  lemma RepaintedSettled(m0: Heap, m: Heap, m': Heap, k: int, strict: bool)
    requires Settled(m0, m, k, strict) && Repainted(m, m')
    ensures Settled(m0, m', k, strict)
  {
  }

  lemma OneTurn(m: Heap, m': Heap, root': Node?, order: seq<Node>, n: Node, r: Node, k: int)
    requires Turned(m, m', n, r) && Shaped(m', root', order) && Covers(m, n, k)
    ensures Settled(m, m', k, false)
  {
    CoversUp(m', root', order, r, k);
  }

  lemma TwoTurns(m: Heap, ma: Heap, m': Heap, root': Node?, order: seq<Node>, p: Node, z: Node, g: Node, k: int)
    requires Turned(m, ma, p, z) && m[p].parent == g && Turned(ma, m', g, z) && m'[p].parent == z
    requires Shaped(m', root', order) && Covers(ma, g, k)
    ensures Settled(m, m', k, false)
  {
    CoversUp(m', root', order, z, k);
  }
}
