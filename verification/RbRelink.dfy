/** Linking a leaf, unlinking a node with at most one child, and replacing a node. */
module RbRelink {
  import opened RbCells
  import opened RbInsertFixup
  import opened RbEraseFixup

  // ---------- rb_link_node ----------

  /** A position or slice end after an element has been inserted at k. */
  ghost function Up(v: int, k: int): int { if v >= k then v + 1 else v }

  /** The marks of the other nodes after a leaf has been inserted at position k, on side s of its parent. */
  ghost function Spread(a: Mark, k: int, s: Side): Mark {
    var e := if s.Left? then k + 1 else k;
    Mark(Up(a.lo, e), Up(a.pos, k), Up(a.hi, e), a.bh)
  }

  /** Where a leaf on side s of p goes in the in-order sequence. */
  ghost function LeafPos(m: Heap, p: Node?, s: Side): int {
    if p == null || p !in m then 0 else m[p].Cut(s)
  }

  ghost predicate LeafLinked(m: Heap, m': Heap, n: Node, p: Node?, s: Side) {
    var k := LeafPos(m, p, s);
    && n !in m && m'.Keys == m.Keys + {n}
    && m'[n] == Cell(null, null, p, false, Mark(k, k, k + 1, 0))
    && (forall x {:trigger m'[x]} | x in m ::
          m'[x] == (if x == p then m[x].WithKid(s, n) else m[x]).(at := Spread(m[x].at, k, s)))
  }

  lemma LeafLinkedAt(m: Heap, m': Heap, root: Node?, root': Node?, order: seq<Node>, n: Node, p: Node?, s: Side, x: Node)
    requires RedBlack(m, root, order) && LeafLinked(m, m', n, p, s)
    requires if p == null then root == null && root' == n else p in m && m[p].Kid(s) == null && root' == root
    requires x in m
    ensures Linked(m', root', x) && Balanced(m', x) && NoRedRed(m', x, n)
    ensures 0 <= m'[x].at.lo <= m'[x].at.pos < m'[x].at.hi <= |order| + 1
  {
    assert Placed(m, order, x) && Linked(m, root, x) && Balanced(m, x) && NoRedRed(m, x, null);
    if p != null {
      assert Placed(m, order, p) && Linked(m, root, p);
    }
  }

  /** A red leaf in an empty place breaks at most the red-red rule, and only at itself. */
  lemma LinkLeaf(m: Heap, m': Heap, root: Node?, root': Node?, order: seq<Node>, order': seq<Node>,
                 n: Node, p: Node?, s: Side)
    requires RedBlack(m, root, order) && LeafLinked(m, m', n, p, s)
    requires if p == null then root == null && root' == n else p in m && m[p].Kid(s) == null && root' == root
    requires 0 <= LeafPos(m, p, s) <= |order|
    requires order' == order[..LeafPos(m, p, s)] + [n] + order[LeafPos(m, p, s)..]
    ensures Inserting(m', root', order', n)
  {
    forall x | x in m' ensures Linked(m', root', x) && Balanced(m', x) && NoRedRed(m', x, n) && Placed(m', order', x) {
      if x == n {
        NewLeafAt(m, m', root, root', order, n, p, s);
      } else {
        LeafLinkedAt(m, m', root, root', order, n, p, s, x);
        LeafPlacedAt(m, m', root, order, n, p, s, x);
      }
    }
    LeafOrder(m, m', root, order, n, p, s);
    if root != null {
      assert Placed(m, order, root);
    }
  }

  lemma NewLeafAt(m: Heap, m': Heap, root: Node?, root': Node?, order: seq<Node>, n: Node, p: Node?, s: Side)
    requires RedBlack(m, root, order) && LeafLinked(m, m', n, p, s) && 0 <= LeafPos(m, p, s) <= |order|
    requires if p == null then root == null && root' == n else p in m && m[p].Kid(s) == null && root' == root
    ensures Linked(m', root', n) && Balanced(m', n) && NoRedRed(m', n, n)
    ensures var k := LeafPos(m, p, s); Placed(m', order[..k] + [n] + order[k..], n)
  {
  }

  lemma LeafPlacedAt(m: Heap, m': Heap, root: Node?, order: seq<Node>, n: Node, p: Node?, s: Side, x: Node)
    requires Shaped(m, root, order) && LeafLinked(m, m', n, p, s) && 0 <= LeafPos(m, p, s) <= |order| && x in m
    requires 0 <= m'[x].at.lo <= m'[x].at.pos < m'[x].at.hi <= |order| + 1
    ensures var k := LeafPos(m, p, s); Placed(m', order[..k] + [n] + order[k..], x)
  {
    assert Placed(m, order, x);
  }

  lemma LeafOrder(m: Heap, m': Heap, root: Node?, order: seq<Node>, n: Node, p: Node?, s: Side)
    requires Shaped(m, root, order) && LeafLinked(m, m', n, p, s) && 0 <= LeafPos(m, p, s) <= |order|
    ensures var k := LeafPos(m, p, s); var order' := order[..k] + [n] + order[k..];
      forall i {:trigger order'[i]} | 0 <= i < |order'| :: order'[i] in m' && m'[order'[i]].at.pos == i
  {
    var k := LeafPos(m, p, s);
    var order' := order[..k] + [n] + order[k..];
    forall i {:trigger order'[i]} | 0 <= i < |order'| ensures order'[i] in m' && m'[order'[i]].at.pos == i {
      if i < k {
        assert order'[i] == order[i];
      } else if i > k {
        assert order'[i] == order[i - 1];
      }
    }
  }

  // ---------- unlinking ----------

  /** A position or slice end after the element at k has been removed. */
  ghost function Down(v: int, k: int): int { if v > k then v - 1 else v }

  ghost function Shrink(a: Mark, k: int): Mark {
    Mark(Down(a.lo, k), Down(a.pos, k), Down(a.hi, k), a.bh)
  }

  ghost function OnlyChild(c: Cell): Node? { if c.left == null then c.right else c.left }

  /** c with every link to y redirected to kid, and its parent link y to up. */
  ghost function Bypass(c: Cell, y: Node, kid: Node?, up: Node?): Cell {
    c.(left := if c.left == y then kid else c.left,
       right := if c.right == y then kid else c.right,
       parent := if c.parent == y then up else c.parent)
  }

  /** m without y, whose only child takes its place. */
  ghost function Without(m: Heap, y: Node): Heap
    requires y in m
  {
    map x | x in m.Keys - {y} :: Bypass(m[x], y, OnlyChild(m[y]), m[y].parent).(at := Shrink(m[x].at, m[y].at.pos))
  }

  /** Which links lead to n. */
  lemma LinksLead(m: Heap, root: Node?, order: seq<Node>, n: Node)
    requires Shaped(m, root, order) && n in m
    ensures forall x {:trigger m[x]} | x in m ::
      && (m[x].left == n || m[x].right == n <==> x == m[n].parent)
      && (m[x].parent == n <==> x == m[n].left || x == m[n].right)
      && (m[x].left == n ==> m[x].right != n)
      && m[x].left != x && m[x].right != x && m[x].parent != x
    ensures m[n].parent == null <==> n == root
    ensures m[n].parent != null ==> m[n].parent in m
    ensures (m[n].left != null ==> m[n].left in m) && (m[n].right != null ==> m[n].right in m)
  {
    assert Linked(m, root, n) && Placed(m, order, n);
    if root != null {
      assert Linked(m, root, root);
    }
    forall x | x in m
      ensures m[x].left == n || m[x].right == n <==> x == m[n].parent
      ensures m[x].parent == n <==> x == m[n].left || x == m[n].right
      ensures m[x].left == n ==> m[x].right != n
      ensures m[x].left != x && m[x].right != x && m[x].parent != x
    {
      assert Linked(m, root, x) && Placed(m, order, x);
    }
  }

  /** The stores of rb_erase for a node with at most one child give the map without it. */
  lemma BypassedIsWithout(m: Heap, m1: Heap, m': Heap, root: Node?, order: seq<Node>, n: Node)
    requires Shaped(m, root, order) && BypassStored(m, m1, n) && (m[n].left == null || m[n].right == null)
    requires Retired(m1, m', n, n, m[n].at.pos)
    ensures m' == Without(m, n)
  {
    LinksLead(m, root, order, n);
    forall x | x in m' ensures m'[x] == Without(m, n)[x] {
      assert m1[x] == Bypass(m[x], n, OnlyChild(m[n]), m[n].parent);
    }
  }

  ghost predicate BypassStored(m: Heap, m1: Heap, n: Node) {
    && n in m && m1.Keys == m.Keys && m1[n].at == m[n].at
    && var c := OnlyChild(m[n]); var p := m[n].parent;
    && forall x {:trigger m1[x]} | x in m && x != n ::
      m1[x] == m[x].(
        left := if x == p && m[x].left == n then c else m[x].left,
        right := if x == p && m[x].left != n then c else m[x].right,
        parent := if x == c then p else m[x].parent)
  }

  lemma WithoutLinkedNear(m: Heap, root: Node?, order: seq<Node>, y: Node, x: Node)
    requires Shaped(m, root, order) && y in m && (m[y].left == null || m[y].right == null)
    requires x in m && (x == m[y].parent || x == OnlyChild(m[y]))
    ensures x != y && Linked(Without(m, y), if root == y then OnlyChild(m[y]) else root, x)
  {
    assert Linked(m, root, x) && Linked(m, root, y) && Placed(m, order, x) && Placed(m, order, y);
    if m[x].left != null {
      assert Placed(m, order, m[x].left);
    }
    if m[x].right != null {
      assert Placed(m, order, m[x].right);
    }
    if m[y].parent != null {
      assert Linked(m, root, m[y].parent) && Placed(m, order, m[y].parent);
    }
  }

  lemma WithoutLinkedFar(m: Heap, root: Node?, order: seq<Node>, y: Node, x: Node)
    requires Shaped(m, root, order) && y in m && (m[y].left == null || m[y].right == null)
    requires x in m && x != y && x != m[y].parent && x != OnlyChild(m[y])
    ensures Linked(Without(m, y), if root == y then OnlyChild(m[y]) else root, x)
  {
    assert Linked(m, root, x) && Linked(m, root, y) && Placed(m, order, x) && Placed(m, order, y);
    if m[x].left != null {
      assert Placed(m, order, m[x].left);
    }
    if m[x].right != null {
      assert Placed(m, order, m[x].right);
    }
  }

  lemma WithoutPlaced(m: Heap, root: Node?, order: seq<Node>, y: Node, x: Node)
    requires Shaped(m, root, order) && y in m && x in m && x != y
    requires 0 <= m[y].at.pos < |order|
    requires Linked(Without(m, y), if root == y then OnlyChild(m[y]) else root, x)
    ensures Placed(Without(m, y), order[..m[y].at.pos] + order[m[y].at.pos + 1..], x)
  {
    assert Placed(m, order, x) && Placed(m, order, y);
  }

  lemma WithoutRoot(m: Heap, root: Node?, order: seq<Node>, y: Node)
    requires Shaped(m, root, order) && y in m && (m[y].left == null || m[y].right == null)
    ensures var m' := Without(m, y); var root' := if root == y then OnlyChild(m[y]) else root;
      && (root' == null <==> |order| == 1)
      && (root' != null ==>
            root' in m' && m'[root'].parent == null && m'[root'].at.lo == 0 && m'[root'].at.hi == |order| - 1)
  {
    assert Placed(m, order, y) && Linked(m, root, y);
    assert root != null && Placed(m, order, root);
    if OnlyChild(m[y]) != null {
      assert Placed(m, order, OnlyChild(m[y]));
    }
  }

  lemma WithoutLinkedPlaced(m: Heap, root: Node?, order: seq<Node>, y: Node, x: Node)
    requires Shaped(m, root, order) && y in m && (m[y].left == null || m[y].right == null)
    requires 0 <= m[y].at.pos < |order| && x in m && x != y
    ensures Linked(Without(m, y), if root == y then OnlyChild(m[y]) else root, x)
    ensures Placed(Without(m, y), order[..m[y].at.pos] + order[m[y].at.pos + 1..], x)
  {
    if x == m[y].parent || x == OnlyChild(m[y]) {
      WithoutLinkedNear(m, root, order, y, x);
    } else {
      WithoutLinkedFar(m, root, order, y, x);
    }
    WithoutPlaced(m, root, order, y, x);
  }

  lemma WithoutOrder(m: Heap, root: Node?, order: seq<Node>, y: Node)
    requires Shaped(m, root, order) && y in m && 0 <= m[y].at.pos < |order|
    ensures var m' := Without(m, y); var order' := order[..m[y].at.pos] + order[m[y].at.pos + 1..];
      forall i {:trigger order'[i]} | 0 <= i < |order'| :: order'[i] in m' && m'[order'[i]].at.pos == i
  {
    var k := m[y].at.pos;
    var order' := order[..k] + order[k + 1..];
    assert Placed(m, order, y);
    forall i {:trigger order'[i]} | 0 <= i < |order'| ensures order'[i] in Without(m, y) && Without(m, y)[order'[i]].at.pos == i {
      assert order'[i] == order[if i < k then i else i + 1];
    }
  }

  lemma WithoutShaped(m: Heap, root: Node?, order: seq<Node>, y: Node)
    requires Shaped(m, root, order) && y in m && (m[y].left == null || m[y].right == null)
    requires 0 <= m[y].at.pos < |order|
    ensures var k := m[y].at.pos;
      Shaped(Without(m, y), if root == y then OnlyChild(m[y]) else root, order[..k] + order[k + 1..])
  {
    var k := m[y].at.pos;
    var m', root', order' := Without(m, y), if root == y then OnlyChild(m[y]) else root, order[..k] + order[k + 1..];
    forall x | x in m' ensures Linked(m', root', x) && Placed(m', order', x) {
      WithoutLinkedPlaced(m, root, order, y, x);
    }
    WithoutOrder(m, root, order, y);
    WithoutRoot(m, root, order, y);
    ShapedByParts(m', root', order');
  }

  lemma ShapedByParts(m: Heap, root: Node?, order: seq<Node>)
    requires forall i {:trigger order[i]} | 0 <= i < |order| :: order[i] in m && m[order[i]].at.pos == i
    requires forall x | x in m :: Linked(m, root, x) && Placed(m, order, x)
    requires root == null <==> |order| == 0
    requires root != null ==> root in m && m[root].parent == null && m[root].at.lo == 0 && m[root].at.hi == |order|
    ensures Shaped(m, root, order)
  {
  }

  lemma WithoutColours(m: Heap, root: Node?, order: seq<Node>, y: Node, x: Node)
    requires RedBlack(m, root, order) && y in m && (m[y].left == null || m[y].right == null)
    requires x in m && x != y
    ensures x != m[y].parent || !m[y].black ==> Balanced(Without(m, y), x)
    ensures x != OnlyChild(m[y]) ==> NoRedRed(Without(m, y), x, OnlyChild(m[y]))
    ensures !m[y].black ==> OnlyChild(m[y]) == null
  {
    assert Balanced(m, x) && NoRedRed(m, x, null) && Linked(m, root, x);
    assert Balanced(m, y) && NoRedRed(m, y, null) && Linked(m, root, y);
    var c := OnlyChild(m[y]);
    if c != null {
      assert Balanced(m, c) && Linked(m, root, c);
    }
  }

  /** Unlinking a red node keeps the tree valid; unlinking a black one leaves its place short. */
  lemma Unlink(m: Heap, root: Node?, order: seq<Node>, y: Node)
    requires RedBlack(m, root, order) && y in m && (m[y].left == null || m[y].right == null)
    requires 0 <= m[y].at.pos < |order|
    ensures var k := m[y].at.pos; var root' := if root == y then OnlyChild(m[y]) else root;
      && (m[y].black ==> Erasing(Without(m, y), root', order[..k] + order[k + 1..], OnlyChild(m[y]), m[y].parent))
      && (!m[y].black ==> RedBlack(Without(m, y), root', order[..k] + order[k + 1..]))
  {
    var m' := Without(m, y);
    var c := OnlyChild(m[y]);
    var q := m[y].parent;
    WithoutShaped(m, root, order, y);
    forall x | x in m'
      ensures x != q || !m[y].black ==> Balanced(m', x)
      ensures x != c ==> NoRedRed(m', x, c)
    {
      WithoutColours(m, root, order, y, x);
    }
    UnlinkPlace(m, root, order, y);
  }

  /** The place of the unlinked node: who is above it, who takes it, and what the taker lacks. */
  lemma UnlinkPlace(m: Heap, root: Node?, order: seq<Node>, y: Node)
    requires RedBlack(m, root, order) && y in m && (m[y].left == null || m[y].right == null)
    ensures var m' := Without(m, y); var c := OnlyChild(m[y]); var q := m[y].parent;
      && (c != null ==> c in m' && m'[c].parent == q)
      && (q == null ==> root == y)
      && (q != null ==> root != y)
      && (m[y].black && q != null ==> Short(m', q, c, Left) || Short(m', q, c, Right))
      && (!m[y].black ==> c == null && q != null)
      && !IsRed(m', if root == y then null else root)
  {
    var c := OnlyChild(m[y]);
    var q := m[y].parent;
    assert Linked(m, root, y) && Balanced(m, y) && NoRedRed(m, y, null) && Placed(m, order, y);
    if c != null {
      assert Linked(m, root, c) && Balanced(m, c) && Placed(m, order, c);
    }
    if q != null {
      assert Linked(m, root, q) && Balanced(m, q) && Placed(m, order, q);
      var s := if m[q].left == y then Left else Right;
      assert m[y].black ==> Short(Without(m, y), q, c, s);
    }
  }

  // ---------- rb_replace_node ----------

  ghost function Renamed(n: Node?, victim: Node, new_: Node): Node? {
    if n == victim then new_ else n
  }

  /** m with new_ in the place of victim: same links, colour and marks. */
  ghost function Replaced(m: Heap, victim: Node, new_: Node): Heap
    requires victim in m
  {
    map x | x in m.Keys - {victim} + {new_} ::
      var c := if x == new_ then m[victim] else m[x];
      c.(left := Renamed(c.left, victim, new_), right := Renamed(c.right, victim, new_),
         parent := Renamed(c.parent, victim, new_))
  }

  /** The successor y of a node n with a right child hangs below n, as its right child or as the
      left child of another node, clear of the neighbours of n. */
  lemma SuccessorPlace(m: Heap, root: Node?, order: seq<Node>, n: Node, y: Node)
    requires Shaped(m, root, order) && n in m && m[n].left != null && m[n].right != null
    requires y in m && m[y].left == null && m[y].at.pos == m[n].at.pos + 1
    ensures m[n].left in m && m[n].right in m && m[n].left != m[n].right && m[n].left != n && m[n].right != n
    ensures if m[n].parent == null then n == root else n != root && m[n].parent in m && m[n].parent != n
    ensures m[n].parent != null ==> m[n].parent != m[n].left && m[n].parent != m[n].right
    ensures y != n && y != root && y != m[n].parent && y != m[n].left && m[y].parent != y && m[y].right != y
    ensures m[y].right != null ==> m[y].right in m
    ensures m[y].parent != null && m[y].parent in m && m[y].parent != m[n].parent && m[y].parent != m[n].left
    ensures m[y].parent == n <==> y == m[n].right
    ensures m[y].parent != n ==> m[m[y].parent].left == y
    ensures m[y].right != null ==> m[y].right != n && m[y].right != m[n].parent && m[y].right != m[n].left && m[y].right != m[n].right
  {
    assert Linked(m, root, n) && Placed(m, order, n) && Linked(m, root, y) && Placed(m, order, y);
    assert Placed(m, order, m[n].left) && Placed(m, order, m[n].right) && Linked(m, root, root);
    if m[n].parent != null {
      assert Linked(m, root, m[n].parent) && Placed(m, order, m[n].parent);
    }
    if m[y].parent != null {
      assert Linked(m, root, m[y].parent) && Placed(m, order, m[y].parent);
    }
    if m[y].right != null {
      assert Placed(m, order, m[y].right);
    }
  }

  /** What x holds once y, a node without left child, has been moved into the place of n. */
  ghost function Swapped(m: Heap, n: Node, y: Node, x: Node): Cell
    requires {n, y, x} <= m.Keys
  {
    var c := Bypass(if x == y then m[n] else m[x], y, m[y].right, m[y].parent);
    c.(left := Renamed(c.left, n, y), right := Renamed(c.right, n, y), parent := Renamed(c.parent, n, y))
  }

  /** The stores of rb_erase for a node n with two children and its successor y. */
  ghost predicate SuccessorStored(m: Heap, m': Heap, n: Node, y: Node) {
    && n in m && y in m && m'.Keys == m.Keys
    && var p := m[n].parent; var q := m[y].parent;
    && m'[y] == m[y].(left := m[n].left, right := if q == n then m[y].right else m[n].right,
                      parent := p, black := m[n].black)
    && (forall x {:trigger m'[x]} | x in m && x != n && x != y ::
          m'[x] == m[x].(
            left := if x == p && m[x].left == n then y else if x == q then m[y].right else m[x].left,
            right := if x == p && m[x].left != n then y else m[x].right,
            parent := if x == m[y].right && q != n then q
                      else if x == m[n].left || (x == m[n].right && q != n) then y else m[x].parent))
  }

  /** Those stores amount to taking y out of its place and putting it in the place of n. */
  lemma StoredIsSwapped(m: Heap, m': Heap, root: Node?, order: seq<Node>, n: Node, y: Node)
    requires Shaped(m, root, order) && n in m && m[n].left != null && m[n].right != null
    requires y in m && m[y].left == null && m[y].at.pos == m[n].at.pos + 1
    requires SuccessorStored(m, m', n, y)
    ensures forall x | x in m && x != n :: m'[x] == Swapped(m, n, y, x).(at := m[x].at)
  {
    SuccessorPlace(m, root, order, n, y);
    LinksLead(m, root, order, n);
    LinksLead(m, root, order, y);
    forall x | x in m && x != n ensures m'[x] == Swapped(m, n, y, x).(at := m[x].at) {
      assert Linked(m, root, n) && Linked(m, root, y);
    }
  }

  /** n has left, its successor y or nobody has its marks, and the position k is closed. */
  ghost predicate Retired(m: Heap, m': Heap, n: Node, y: Node, k: int) {
    && n in m && m'.Keys == m.Keys - {n}
    && forall x {:trigger m'[x]} | x in m' :: m'[x] == m[x].(at := Shrink(m[if x == y then n else x].at, k))
  }

  lemma StoredIsReplacement(m: Heap, m1: Heap, m': Heap, root: Node?, order: seq<Node>, n: Node, y: Node)
    requires Shaped(m, root, order) && n in m && m[n].left != null && m[n].right != null
    requires y in m && m[y].left == null && m[y].at.pos == m[n].at.pos + 1
    requires SuccessorStored(m, m1, n, y) && (forall x {:trigger m1[x]} | x in m :: m1[x].at == m[x].at)
    requires Retired(m1, m', n, y, m[n].at.pos + 1)
    ensures m' == Replaced(Without(m, y), n, y)
  {
    StoredIsSwapped(m, m1, root, order, n, y);
    forall x | x in m' ensures m'[x] == Swapped(m, n, y, x).(at := Shrink(m[if x == y then n else x].at, m[n].at.pos + 1)) {
      assert m1[x] == Swapped(m, n, y, x).(at := m[x].at);
    }
    SwappedIsReplaced(m, m', root, order, n, y);
  }

  lemma SwappedIsReplaced(m: Heap, m': Heap, root: Node?, order: seq<Node>, n: Node, y: Node)
    requires Shaped(m, root, order) && n in m && y in m && n != y && m[y].left == null
    requires m[y].at.pos == m[n].at.pos + 1
    requires m'.Keys == m.Keys - {n}
    requires forall x | x in m' ::
      m'[x] == Swapped(m, n, y, x).(at := Shrink(m[if x == y then n else x].at, m[n].at.pos + 1))
    ensures m' == Replaced(Without(m, y), n, y)
  {
  }

  /** The stores of rb_replace_node give the map with new_ in the place of victim. */
  lemma StoredIsReplaced(m: Heap, m': Heap, root: Node?, order: seq<Node>, victim: Node, new_: Node)
    requires Shaped(m, root, order) && victim in m && new_ !in m
    requires m'.Keys == m.Keys - {victim} + {new_} && m'[new_] == m[victim]
    requires forall x {:trigger m'[x]} | x in m && x != victim ::
      m'[x] == m[x].(
        left := if x == m[victim].parent && m[x].left == victim then new_ else m[x].left,
        right := if x == m[victim].parent && m[x].left != victim then new_ else m[x].right,
        parent := if x == m[victim].left || x == m[victim].right then new_ else m[x].parent)
    ensures m' == Replaced(m, victim, new_)
  {
    LinksLead(m, root, order, victim);
    forall x | x in m' ensures m'[x] == Replaced(m, victim, new_)[x] {
      assert x != new_ ==> m[x] == m[x];
    }
  }

  lemma ReplacedLinked(m: Heap, root: Node?, order: seq<Node>, victim: Node, new_: Node, x: Node)
    requires Shaped(m, root, order) && victim in m && new_ !in m && x in m
    ensures Linked(Replaced(m, victim, new_), Renamed(root, victim, new_), if x == victim then new_ else x)
  {
    assert Linked(m, root, x);
  }

  lemma ReplacedShaped(m: Heap, root: Node?, order: seq<Node>, victim: Node, new_: Node)
    requires Shaped(m, root, order) && victim in m && new_ !in m
    requires 0 <= m[victim].at.pos < |order|
    ensures Shaped(Replaced(m, victim, new_), Renamed(root, victim, new_), order[m[victim].at.pos := new_])
  {
    var m' := Replaced(m, victim, new_);
    var order' := order[m[victim].at.pos := new_];
    forall x | x in m' ensures Linked(m', Renamed(root, victim, new_), x) && Placed(m', order', x) {
      var x0 := if x == new_ then victim else x;
      ReplacedLinked(m, root, order, victim, new_, x0);
      assert Placed(m, order, x0) && Placed(m, order, victim);
    }
    forall i | 0 <= i < |order'| ensures order'[i] in m' && m'[order'[i]].at.pos == i {
      assert Placed(m, order, order[i]) && Placed(m, order, victim);
    }
  }

  lemma ReplacedColours(m: Heap, root: Node?, order: seq<Node>, victim: Node, new_: Node, z: Node?, x: Node)
    requires Shaped(m, root, order) && victim in m && new_ !in m && x in m
    requires z != null ==> z in m
    ensures var x' := if x == victim then new_ else x; var m' := Replaced(m, victim, new_);
      && (Balanced(m, x) ==> Balanced(m', x'))
      && (NoRedRed(m, x, z) ==> NoRedRed(m', x', Renamed(z, victim, new_)))
  {
    assert Linked(m, root, x);
  }

  /** Replacing a node keeps a valid tree valid. */
  lemma Replace(m: Heap, root: Node?, order: seq<Node>, victim: Node, new_: Node)
    requires RedBlack(m, root, order) && victim in m && new_ !in m
    requires 0 <= m[victim].at.pos < |order|
    ensures RedBlack(Replaced(m, victim, new_), Renamed(root, victim, new_), order[m[victim].at.pos := new_])
  {
    var m' := Replaced(m, victim, new_);
    ReplacedShaped(m, root, order, victim, new_);
    forall x | x in m' ensures Balanced(m', x) && NoRedRed(m', x, null) {
      var x0 := if x == new_ then victim else x;
      assert Balanced(m, x0) && NoRedRed(m, x0, null);
      ReplacedColours(m, root, order, victim, new_, null, x0);
    }
  }

  lemma StoredReplacementValid(m: Heap, m': Heap, root: Node?, order: seq<Node>, victim: Node, new_: Node)
    requires RedBlack(m, root, order) && victim in m && new_ !in m && m' == Replaced(m, victim, new_)
    requires 0 <= m[victim].at.pos < |order|
    ensures RedBlack(m', Renamed(root, victim, new_), order[m[victim].at.pos := new_])
  {
    Replace(m, root, order, victim, new_);
  }

  /** Replacing a node commutes with a pending repair. */
  lemma ReplaceErasing(m: Heap, root: Node?, order: seq<Node>, z: Node?, q: Node?, victim: Node, new_: Node)
    requires Erasing(m, root, order, z, q) && victim in m && new_ !in m
    requires 0 <= m[victim].at.pos < |order|
    ensures Erasing(Replaced(m, victim, new_), Renamed(root, victim, new_), order[m[victim].at.pos := new_],
                    Renamed(z, victim, new_), Renamed(q, victim, new_))
  {
    var m' := Replaced(m, victim, new_);
    var z', q' := Renamed(z, victim, new_), Renamed(q, victim, new_);
    ReplacedShaped(m, root, order, victim, new_);
    forall x | x in m' ensures (x != q' ==> Balanced(m', x)) && (x != z' ==> NoRedRed(m', x, z')) {
      var x0 := if x == new_ then victim else x;
      if x0 != q {
        assert Balanced(m, x0);
      }
      if x0 != z {
        assert NoRedRed(m, x0, z);
      }
      ReplacedColours(m, root, order, victim, new_, z, x0);
    }
    if q != null {
      assert Linked(m, root, q);
      var s := if Short(m, q, z, Left) then Left else Right;
      assert Short(m', q', z', s);
    }
  }

  /** Taking the successor y of n out of its place and putting it in the place of n. */
  lemma UnlinkSuccessor(m: Heap, root: Node?, order: seq<Node>, n: Node, y: Node)
    requires RedBlack(m, root, order) && n in m && m[n].left != null && m[n].right != null
    requires y in m && y != n && m[y].left == null && m[y].at.pos == m[n].at.pos + 1
    requires 0 <= m[n].at.pos < |order|
    ensures var k := m[n].at.pos;
      var m' := Replaced(Without(m, y), n, y);
      var root' := Renamed(root, n, y);
      var order' := order[..k] + order[k + 1..];
      && (m[y].black ==> Erasing(m', root', order', OnlyChild(m[y]), Renamed(m[y].parent, n, y)))
      && (!m[y].black ==> RedBlack(m', root', order'))
  {
    SuccessorPlace(m, root, order, n, y);
    SuccessorOrder(m, root, order, n, y);
    Unlink(m, root, order, y);
    var m1, k := Without(m, y), m[n].at.pos;
    var order1 := order[..k + 1] + order[k + 2..];
    if m[y].black {
      ReplaceErasing(m1, root, order1, OnlyChild(m[y]), m[y].parent, n, y);
    } else {
      Replace(m1, root, order1, n, y);
    }
  }

  lemma SuccessorOrder(m: Heap, root: Node?, order: seq<Node>, n: Node, y: Node)
    requires Shaped(m, root, order) && n in m && y in m && y != n && m[y].at.pos == m[n].at.pos + 1
    requires 0 <= m[n].at.pos < |order|
    ensures var k := m[n].at.pos;
      && k + 1 < |order| && Without(m, y)[n].at.pos == k
      && (order[..k + 1] + order[k + 2..])[k := y] == order[..k] + order[k + 1..]
  {
    assert Placed(m, order, y) && Placed(m, order, n);
  }

  // ---------- where the relinking leaves new children ----------

  /** The deepest node that rebalancing after the relinking can start from. */
  ghost function Deepest(child: Node?, parent: Node?): Node? { if child != null then child else parent }

  /** Every node with new children lies on the path from the position of d to the root. */
  ghost predicate OnPathFrom(m: Heap, m': Heap, d: Node) {
    && d in m' && m'.Keys <= m.Keys
    && forall x {:trigger m'[x]} | x in m' :: SameKids(m, m', x) || Covers(m', x, m'[d].at.pos)
  }

  lemma UnlinkTouches(m: Heap, root: Node?, order: seq<Node>, y: Node, m': Heap, root': Node?, order': seq<Node>)
    requires Shaped(m, root, order) && y in m && (m[y].left == null || m[y].right == null)
    requires m' == Without(m, y) && Shaped(m', root', order')
    ensures var d := Deepest(OnlyChild(m[y]), m[y].parent);
      d != null ==> OnPathFrom(m, m', d) && (m[y].parent != null ==> FromHere(m', OnlyChild(m[y]), m[y].parent, m'[d].at.pos))
  {
    var c, q := OnlyChild(m[y]), m[y].parent;
    var d := Deepest(c, q);
    LinksLead(m, root, order, y);
    if d != null {
      assert Placed(m', order', d);
      CoversUp(m', root', order', d, m'[d].at.pos);
      assert Linked(m, root, y);
    }
  }

  lemma SuccessorTouches(m: Heap, root: Node?, order: seq<Node>, n: Node, y: Node, m': Heap, root': Node?, order': seq<Node>)
    requires Shaped(m, root, order) && n in m && m[n].left != null && m[n].right != null
    requires y in m && m[y].left == null && m[y].at.pos == m[n].at.pos + 1 && n != y
    requires m[y].at.hi <= m[n].at.hi
    requires m[y].parent != null && m[y].parent in m && (m[y].parent != n ==> m[m[y].parent].at.hi <= m[n].at.hi)
    requires m' == Replaced(Without(m, y), n, y) && Shaped(m', root', order')
    ensures var q := Renamed(m[y].parent, n, y); var d := Deepest(m[y].right, q);
      d != null && OnPathFrom(m, m', d) && FromHere(m', m[y].right, q, m'[d].at.pos)
  {
    var c, q := m[y].right, Renamed(m[y].parent, n, y);
    var d := Deepest(c, q);
    SuccessorPath(m, root, order, n, y, m', root', order');
    SuccessorKids(m, root, order, n, y, m');
    forall x {:trigger m'[x]} | x in m' ensures SameKids(m, m', x) || Covers(m', x, m'[d].at.pos) {
    }
  }

  /** Only these nodes have new children. */
  lemma SuccessorKids(m: Heap, root: Node?, order: seq<Node>, n: Node, y: Node, m': Heap)
    requires Shaped(m, root, order) && n in m && m[n].left != null && m[n].right != null
    requires y in m && m[y].left == null && m[y].at.pos == m[n].at.pos + 1 && n != y
    requires m' == Replaced(Without(m, y), n, y)
    ensures forall x {:trigger m'[x]} | x in m' :: SameKids(m, m', x) || x == y || x == m[n].parent || x == m[y].parent
  {
    SuccessorPlace(m, root, order, n, y);
    LinksLead(m, root, order, n);
    LinksLead(m, root, order, y);
  }

  /** Where the successor y and the place it leaves end up. */
  lemma SuccessorLinks(m: Heap, root: Node?, order: seq<Node>, n: Node, y: Node, m': Heap)
    requires Shaped(m, root, order) && n in m && m[n].left != null && m[n].right != null
    requires y in m && m[y].left == null && m[y].at.pos == m[n].at.pos + 1 && n != y
    requires m' == Replaced(Without(m, y), n, y)
    ensures var c := m[y].right; var q := Renamed(m[y].parent, n, y);
      && y in m' && q != null && q in m' && m'[y].parent == m[n].parent
      && (c != null ==> c in m' && m'[c].parent == q)
  {
    SuccessorPlace(m, root, order, n, y);
    assert Linked(m, root, y);
    if m[y].right != null {
      assert Linked(m, root, m[y].right);
    }
  }

  lemma SuccessorCovers(m: Heap, root: Node?, order: seq<Node>, n: Node, y: Node, m': Heap)
    requires Shaped(m, root, order) && n in m && m[n].left != null && m[n].right != null
    requires y in m && m[y].left == null && m[y].at.pos == m[n].at.pos + 1 && n != y
    requires m[y].at.hi <= m[n].at.hi
    requires m[y].parent != null && m[y].parent in m && (m[y].parent != n ==> m[m[y].parent].at.hi <= m[n].at.hi)
    requires m' == Replaced(Without(m, y), n, y)
    ensures var d := Deepest(m[y].right, Renamed(m[y].parent, n, y));
      d != null && d in m' && Covers(m', y, m'[d].at.pos)
  {
    SuccessorPlace(m, root, order, n, y);
    assert Placed(m, order, n) && Placed(m, order, y) && Linked(m, root, y);
    assert Linked(m, root, m[y].parent) && Placed(m, order, m[y].parent);
    if m[y].right != null {
      assert Placed(m, order, m[y].right);
    }
  }

  /** They lie on the path from d. */
  lemma SuccessorPath(m: Heap, root: Node?, order: seq<Node>, n: Node, y: Node, m': Heap, root': Node?, order': seq<Node>)
    requires Shaped(m, root, order) && n in m && m[n].left != null && m[n].right != null
    requires y in m && m[y].left == null && m[y].at.pos == m[n].at.pos + 1 && n != y
    requires m[y].at.hi <= m[n].at.hi
    requires m[y].parent != null && m[y].parent in m && (m[y].parent != n ==> m[m[y].parent].at.hi <= m[n].at.hi)
    requires m' == Replaced(Without(m, y), n, y) && Shaped(m', root', order')
    ensures var q := Renamed(m[y].parent, n, y); var d := Deepest(m[y].right, q);
      && d != null && d in m' && FromHere(m', m[y].right, q, m'[d].at.pos)
      && Covers(m', y, m'[d].at.pos) && (m[n].parent != null ==> Covers(m', m[n].parent, m'[d].at.pos))
  {
    var d := Deepest(m[y].right, Renamed(m[y].parent, n, y));
    SuccessorLinks(m, root, order, n, y, m');
    SuccessorCovers(m, root, order, n, y, m');
    PathUp(m', root', order', d, y);
  }

  lemma PathUp(m: Heap, root: Node?, order: seq<Node>, d: Node, y: Node)
    requires Shaped(m, root, order) && d in m && Covers(m, y, m[d].at.pos)
    ensures Covers(m, d, m[d].at.pos)
    ensures m[d].parent != null ==> Covers(m, m[d].parent, m[d].at.pos)
    ensures m[y].parent != null ==> Covers(m, m[y].parent, m[d].at.pos)
  {
    assert Placed(m, order, d);
    CoversUp(m, root, order, d, m[d].at.pos);
    CoversUp(m, root, order, y, m[d].at.pos);
  }

  /** Where repair must start once n is gone, computed before n goes: rb_augment_erase_begin. */
  ghost function DeepestLeft(m: Heap, order: seq<Node>, n: Node): Node?
    requires n in m
  {
    if m[n].left == null || m[n].right == null then Deepest(OnlyChild(m[n]), m[n].parent)
    else if 0 <= m[n].at.pos + 1 < |order| && order[m[n].at.pos + 1] in m then
      var y := order[m[n].at.pos + 1];
      Deepest(m[y].right, Renamed(m[y].parent, n, y))
    else null
  }

  /** What the relinking of rb_erase leaves: a tree without n, right or one black node short below
      parent, and new children only on the path from the node that rb_augment_erase_begin finds. */
  ghost predicate Spliced(m: Heap, order: seq<Node>, m': Heap, root': Node?, order': seq<Node>,
                          n: Node, child: Node?, parent: Node?, black: bool) {
    && n in m && m'.Keys == m.Keys - {n}
    && (var k := m[n].at.pos; 0 <= k < |order| && order' == order[..k] + order[k + 1..])
    && (if black then Erasing(m', root', order', child, parent) else RedBlack(m', root', order'))
    && var d := Deepest(child, parent);
    && d == DeepestLeft(m, order, n) && (d == null ==> m' == map[])
    && (d != null ==> OnPathFrom(m, m', d) && (parent != null ==> FromHere(m', child, parent, m'[d].at.pos)))
  }

  lemma LowSpliced(m: Heap, root: Node?, order: seq<Node>, n: Node, m': Heap, root': Node?, order': seq<Node>)
    requires RedBlack(m, root, order) && n in m && (m[n].left == null || m[n].right == null)
    requires m' == Without(m, n) && root' == if root == n then OnlyChild(m[n]) else root
    requires var k := m[n].at.pos; 0 <= k < |order| && order' == order[..k] + order[k + 1..]
    ensures Spliced(m, order, m', root', order', n, OnlyChild(m[n]), m[n].parent, m[n].black)
  {
    Unlink(m, root, order, n);
    UnlinkTouches(m, root, order, n, m', root', order');
    if OnlyChild(m[n]) == null && m[n].parent == null {
      AloneIfUnlinked(m, root, order, n);
    }
  }

  lemma AloneIfUnlinked(m: Heap, root: Node?, order: seq<Node>, n: Node)
    requires Shaped(m, root, order) && n in m && m[n].left == null && m[n].right == null && m[n].parent == null
    ensures m.Keys == {n}
  {
    assert Linked(m, root, n);
    forall x | x in m ensures x == n {
      assert Placed(m, order, x) && Placed(m, order, n);
    }
  }

  lemma HighSpliced(m: Heap, root: Node?, order: seq<Node>, n: Node, y: Node, m': Heap, root': Node?, order': seq<Node>)
    requires RedBlack(m, root, order) && n in m && m[n].left != null && m[n].right != null
    requires y in m && m[y].left == null && m[y].at.pos == m[n].at.pos + 1 && n != y
    requires m[y].at.hi <= m[n].at.hi
    requires m[y].parent != null && m[y].parent in m && m[m[y].parent].at.hi <= m[n].at.hi
    requires m' == Replaced(Without(m, y), n, y) && root' == Renamed(root, n, y)
    requires var k := m[n].at.pos; 0 <= k < |order| && order' == order[..k] + order[k + 1..]
    ensures Spliced(m, order, m', root', order', n, OnlyChild(m[y]), Renamed(m[y].parent, n, y), m[y].black)
  {
    UnlinkSuccessor(m, root, order, n, y);
    SuccessorTouches(m, root, order, n, y, m', root', order');
    assert Placed(m, order, y);
  }

  /** Nodes with new children after relinking and repair together are near the path from d. */
  lemma ThenSettled(m: Heap, m1: Heap, m2: Heap, d: Node)
    requires OnPathFrom(m, m1, d) && Settled(m1, m2, m1[d].at.pos, true)
    ensures forall x {:trigger m2[x]} | x in m2 :: SameKids(m, m2, x) || Near(m2, x, m1[d].at.pos, true)
  {
  }
}
