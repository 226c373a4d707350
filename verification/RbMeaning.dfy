/** What the link-level invariants mean: the linked nodes are an ordinary inductive red-black tree. */
module RbMeaning {
  import opened Common
  import opened RbCells
  import opened Powers

  datatype Tree = Leaf | Branch(left: Tree, node: Node, black: bool, right: Tree)

  ghost function InOrder(t: Tree): seq<Node> {
    match t
    case Leaf => []
    case Branch(l, n, _, r) => InOrder(l) + [n] + InOrder(r)
  }

  ghost function Size(t: Tree): nat {
    match t
    case Leaf => 0
    case Branch(l, _, _, r) => Size(l) + 1 + Size(r)
  }

  ghost function Height(t: Tree): nat {
    match t
    case Leaf => 0
    case Branch(l, _, _, r) => 1 + if Height(l) < Height(r) then Height(r) else Height(l)
  }

  /** Black nodes on the leftmost path. */
  ghost function BlackHeight(t: Tree): nat {
    match t
    case Leaf => 0
    case Branch(l, _, black, _) => BlackHeight(l) + if black then 1 else 0
  }

  ghost predicate RedTree(t: Tree) { t.Branch? && !t.black }

  /** The textbook definition: equal black heights everywhere and no red node with a red child. */
  ghost predicate WellColoured(t: Tree) {
    match t
    case Leaf => true
    case Branch(l, _, black, r) =>
      && WellColoured(l) && WellColoured(r)
      && BlackHeight(l) == BlackHeight(r)
      && (!black ==> !RedTree(l) && !RedTree(r))
  }

  /** The subtree that hangs at x, read off the links. */
  ghost function TreeAt(m: Heap, root: Node?, order: seq<Node>, x: Node?): Tree
    requires Shaped(m, root, order) && (x != null ==> x in m)
    decreases if x == null then 0 else 1 + m[x].at.hi - m[x].at.lo
  {
    if x == null then Leaf
    else
      assert Linked(m, root, x) && Placed(m, order, x);
      Branch(TreeAt(m, root, order, m[x].left), x, m[x].black, TreeAt(m, root, order, m[x].right))
  }

  /** Reading the links from x on visits exactly the slice of x, in order. */
  lemma {:induction false} SliceInOrder(m: Heap, root: Node?, order: seq<Node>, x: Node)
    requires Shaped(m, root, order) && x in m
    ensures 0 <= m[x].at.lo < m[x].at.hi <= |order|
    ensures InOrder(TreeAt(m, root, order, x)) == order[m[x].at.lo..m[x].at.hi]
    decreases m[x].at.hi - m[x].at.lo
  {
    assert Linked(m, root, x) && Placed(m, order, x);
    var a := m[x].at;
    if m[x].left != null {
      SliceInOrder(m, root, order, m[x].left);
    }
    if m[x].right != null {
      SliceInOrder(m, root, order, m[x].right);
    }
    assert order[a.lo..a.hi] == order[a.lo..a.pos] + [order[a.pos]] + order[a.pos + 1..a.hi];
  }

  /** The recorded black height is the real one, and the colours obey the textbook rules. */
  lemma {:induction false} SubtreeWellColoured(m: Heap, root: Node?, order: seq<Node>, x: Node?)
    requires RedBlack(m, root, order) && (x != null ==> x in m)
    ensures WellColoured(TreeAt(m, root, order, x)) && BlackHeight(TreeAt(m, root, order, x)) == BhOf(m, x)
    decreases if x == null then 0 else 1 + m[x].at.hi - m[x].at.lo
  {
    if x != null {
      assert Linked(m, root, x) && Placed(m, order, x) && Balanced(m, x) && NoRedRed(m, x, null);
      SubtreeWellColoured(m, root, order, m[x].left);
      SubtreeWellColoured(m, root, order, m[x].right);
    }
  }

  /** A well-coloured tree has at least 2^BlackHeight - 1 nodes and is at most twice as high as
      its black height, plus one when its root is red. */
  lemma {:induction false} SizeAndHeight(t: Tree)
    requires WellColoured(t)
    ensures Pow2(BlackHeight(t)) <= Size(t) + 1
    ensures Height(t) <= 2 * BlackHeight(t) + if RedTree(t) then 1 else 0
  {
    if t.Branch? {
      SizeAndHeight(t.left);
      SizeAndHeight(t.right);
    }
  }

  lemma HeightBound(t: Tree)
    requires WellColoured(t) && !RedTree(t)
    ensures Pow2(Height(t)) <= (Size(t) + 1) * (Size(t) + 1)
  {
    SizeAndHeight(t);
    var b := BlackHeight(t);
    Pow2Monotonic(Height(t), b + b);
    Pow2Sum(b, b);
    SquareMonotonic(Pow2(b), Size(t) + 1);
  }

  lemma {:induction false} SizeIsLength(t: Tree)
    ensures Size(t) == |InOrder(t)|
  {
    if t.Branch? {
      SizeIsLength(t.left);
      SizeIsLength(t.right);
    }
  }

  lemma SquareMonotonic(a: nat, b: nat)
    requires a <= b
    ensures a * a <= b * b
  {
  }

  /** A valid tree is an inductive red-black tree with in-order sequence order, and its height h
      satisfies 2^h <= (n + 1)^2, that is h <= 2 * log2(n + 1). */
  lemma ValidMeansRedBlackTree(m: Heap, root: Node?, order: seq<Node>)
    requires RedBlack(m, root, order)
    ensures root != null ==> root in m
    ensures var t := TreeAt(m, root, order, root);
      && InOrder(t) == order && WellColoured(t) && !RedTree(t)
      && Pow2(Height(t)) <= (|order| + 1) * (|order| + 1)
  {
    var t := TreeAt(m, root, order, root);
    if root != null {
      SliceInOrder(m, root, order, root);
    }
    SubtreeWellColoured(m, root, order, root);
    SizeIsLength(t);
    HeightBound(t);
  }

  // ---------- the converse: no inductive red-black tree is left out ----------

  ghost function Top(t: Tree): Node? { if t.Leaf? then null else t.node }

  /** The contents of the nodes of t, hanging below up, when its in-order sequence starts at lo. */
  ghost function Laid(t: Tree, up: Node?, lo: int): Heap {
    match t
    case Leaf => map[]
    case Branch(l, n, black, r) =>
      var pos := lo + |InOrder(l)|;
      Laid(l, n, lo) + Laid(r, n, pos + 1)
      + map[n := Cell(Top(l), Top(r), up, black, Mark(lo, pos, lo + |InOrder(t)|, BlackHeight(t)))]
  }

  lemma {:induction false} LaidKeys(t: Tree, up: Node?, lo: int)
    ensures Laid(t, up, lo).Keys == set x | x in InOrder(t)
  {
    if t.Branch? {
      LaidKeys(t.left, t.node, lo);
      LaidKeys(t.right, t.node, lo + |InOrder(t.left)| + 1);
    }
  }

  /** The part t of a larger heap m, in which it is laid out from lo on below up. */
  ghost predicate Within(m: Heap, order: seq<Node>, t: Tree, up: Node?, lo: int) {
    && 0 <= lo && lo + |InOrder(t)| <= |order| && order[lo..lo + |InOrder(t)|] == InOrder(t)
    && Extends(m, Laid(t, up, lo))
    && Distinct(InOrder(t)) && WellColoured(t)
  }

  lemma DistinctParts(a: seq<Node>, n: Node, b: seq<Node>, order: seq<Node>, lo: int)
    requires Distinct(a + [n] + b) && 0 <= lo && lo + |a| + 1 + |b| <= |order|
    requires order[lo..lo + |a| + 1 + |b|] == a + [n] + b
    ensures Distinct(a) && Distinct(b)
    ensures forall x | x in a :: x !in b && x != n
    ensures n !in b
    ensures order[lo..lo + |a|] == a && order[lo + |a|] == n && order[lo + |a| + 1..lo + |a| + 1 + |b|] == b
  {
    var s := a + [n] + b;
    assert forall i | 0 <= i < |a| :: s[i] == a[i];
    assert forall i | 0 <= i < |b| :: s[|a| + 1 + i] == b[i];
    assert s[|a|] == n;
    forall i | 0 <= i < |s| ensures order[lo + i] == s[i] {
      assert order[lo..lo + |s|][i] == s[i];
    }
    forall x | x in a ensures x !in b && x != n {
      var i :| 0 <= i < |a| && a[i] == x;
      assert s[i] == x;
    }
  }

  lemma UnionParts(l: Heap, r: Heap, n: Node, c: Cell)
    requires l.Keys !! r.Keys && n !in l && n !in r
    ensures var h := l + r + map[n := c];
      && h[n] == c
      && (forall x | x in l :: x in h && h[x] == l[x])
      && (forall x | x in r :: x in h && h[x] == r[x])
  {
  }

  /** m agrees with everything in l. */
  ghost predicate Extends(m: Heap, l: Heap) {
    forall x {:trigger x in l} | x in l :: x in m && m[x] == l[x]
  }

  lemma LaidParts(m: Heap, t: Tree, up: Node?, lo: int)
    requires t.Branch? && t.node !in InOrder(t.left) && t.node !in InOrder(t.right)
    requires forall x | x in InOrder(t.left) :: x !in InOrder(t.right)
    requires Extends(m, Laid(t, up, lo))
    ensures Extends(m, Laid(t.left, t.node, lo))
    ensures Extends(m, Laid(t.right, t.node, lo + |InOrder(t.left)| + 1))
    ensures t.node in m && m[t.node] == Laid(t, up, lo)[t.node]
  {
    var l := Laid(t.left, t.node, lo);
    var r := Laid(t.right, t.node, lo + |InOrder(t.left)| + 1);
    LaidKeys(t.left, t.node, lo);
    LaidKeys(t.right, t.node, lo + |InOrder(t.left)| + 1);
    var h := Laid(t, up, lo);
    assert t.node in h;
    UnionParts(l, r, t.node, h[t.node]);
    assert h == l + r + map[t.node := h[t.node]];
  }

  lemma WithinKids(m: Heap, order: seq<Node>, t: Tree, up: Node?, lo: int)
    requires t.Branch? && Within(m, order, t, up, lo)
    ensures Within(m, order, t.left, t.node, lo)
    ensures Within(m, order, t.right, t.node, lo + |InOrder(t.left)| + 1)
    ensures order[lo + |InOrder(t.left)|] == t.node && t.node in m && m[t.node] == Laid(t, up, lo)[t.node]
  {
    DistinctParts(InOrder(t.left), t.node, InOrder(t.right), order, lo);
    LaidParts(m, t, up, lo);
  }

  lemma {:induction false} LaidIsLocallyValid(m: Heap, root: Node?, order: seq<Node>, t: Tree, up: Node?, lo: int)
    requires Within(m, order, t, up, lo)
    requires if up == null then root == Top(t) else up in m && (m[up].left == Top(t) || m[up].right == Top(t))
    ensures forall x | x in InOrder(t) ::
      Placed(m, order, x) && Linked(m, root, x) && Balanced(m, x) && NoRedRed(m, x, null)
    ensures BhOf(m, Top(t)) == BlackHeight(t) && IsRed(m, Top(t)) == RedTree(t)
  {
    if t.Branch? {
      var pos := lo + |InOrder(t.left)|;
      WithinKids(m, order, t, up, lo);
      LaidIsLocallyValid(m, root, order, t.left, t.node, lo);
      LaidIsLocallyValid(m, root, order, t.right, t.node, pos + 1);
      TopCells(m, order, t, up, lo);
      NodeIsLocallyValid(m, root, order, t, up, lo);
    }
  }

  /** The cell of the top node of t. */
  ghost predicate CellLaid(m: Heap, t: Tree, up: Node?, lo: int) {
    t.Branch? ==>
      && t.node in m
      && m[t.node] == Cell(Top(t.left), Top(t.right), up, t.black,
                           Mark(lo, lo + |InOrder(t.left)|, lo + |InOrder(t)|, BlackHeight(t)))
  }

  lemma NodeIsLocallyValid(m: Heap, root: Node?, order: seq<Node>, t: Tree, up: Node?, lo: int)
    requires t.Branch? && WellColoured(t) && 0 <= lo && lo + |InOrder(t)| <= |order|
    requires order[lo + |InOrder(t.left)|] == t.node
    requires if up == null then root == Top(t) else up in m && (m[up].left == Top(t) || m[up].right == Top(t))
    requires BhOf(m, Top(t.left)) == BlackHeight(t.left) && IsRed(m, Top(t.left)) == RedTree(t.left)
    requires BhOf(m, Top(t.right)) == BlackHeight(t.right) && IsRed(m, Top(t.right)) == RedTree(t.right)
    requires CellLaid(m, t, up, lo) && CellLaid(m, t.left, t.node, lo)
    requires CellLaid(m, t.right, t.node, lo + |InOrder(t.left)| + 1)
    ensures Placed(m, order, t.node) && Linked(m, root, t.node) && Balanced(m, t.node) && NoRedRed(m, t.node, null)
  {
  }

  lemma TopCells(m: Heap, order: seq<Node>, t: Tree, up: Node?, lo: int)
    requires t.Branch? && Within(m, order, t, up, lo)
    requires Within(m, order, t.left, t.node, lo) && Within(m, order, t.right, t.node, lo + |InOrder(t.left)| + 1)
    ensures CellLaid(m, t, up, lo) && CellLaid(m, t.left, t.node, lo)
    ensures CellLaid(m, t.right, t.node, lo + |InOrder(t.left)| + 1)
  {
    TopCell(m, order, t, up, lo);
    TopCell(m, order, t.left, t.node, lo);
    TopCell(m, order, t.right, t.node, lo + |InOrder(t.left)| + 1);
  }

  lemma TopCell(m: Heap, order: seq<Node>, t: Tree, up: Node?, lo: int)
    requires Within(m, order, t, up, lo)
    ensures CellLaid(m, t, up, lo)
  {
    assert t.Branch? ==> t.node in Laid(t, up, lo);
  }

  /** Every inductive red-black tree, laid out in memory, is valid: the validity that the tree
      operations require excludes none of them. */
  lemma RedBlackTreeIsValid(t: Tree)
    requires WellColoured(t) && !RedTree(t) && Distinct(InOrder(t))
    ensures RedBlack(Laid(t, null, 0), Top(t), InOrder(t))
  {
    LaidKeys(t, null, 0);
    AllLocallyValid(Laid(t, null, 0), InOrder(t), t);
  }

  lemma AllLocallyValid(m: Heap, order: seq<Node>, t: Tree)
    requires WellColoured(t) && !RedTree(t) && Distinct(order) && order == InOrder(t)
    requires m == Laid(t, null, 0) && m.Keys == set x | x in order
    ensures RedBlack(m, Top(t), order)
  {
    LaidIsLocallyValid(m, Top(t), order, t, null, 0);
    forall i | 0 <= i < |order| ensures order[i] in m && m[order[i]].at.pos == i {
      assert Placed(m, order, order[i]);
    }
    if t.Branch? {
      assert m[t.node] == Laid(t, null, 0)[t.node];
    }
  }
}
