/** The search and insert protocol that include/lib/rbtree.h prescribes to its clients: a tree
    ordered by a key, searched by walking down and extended by a leaf plus rb_insert_color. */
module RbIndex {
  import opened RbCells
  import opened RbTree

  ghost predicate Sorted(order: seq<Node>) {
    forall i, j | 0 <= i < j < |order| :: order[i].key < order[j].key
  }

  /** The place at which the walk down for key has arrived: every position of order that could
      still hold the key, or take it, lies in [lo, hi]. */
  ghost predicate Narrowed(order: seq<Node>, key: int, lo: int, hi: int) {
    && 0 <= lo <= hi <= |order|
    && (forall i | 0 <= i < lo :: order[i].key < key)
    && (forall i | hi <= i < |order| :: key < order[i].key)
  }

  lemma SortedInsert(order: seq<Node>, n: Node, k: int)
    requires Sorted(order) && Narrowed(order, n.key, k, k)
    ensures Sorted(order[..k] + [n] + order[k..])
    ensures forall x | x in order :: x.key != n.key
  {
    var order' := order[..k] + [n] + order[k..];
    forall i, j | 0 <= i < j < |order'| ensures order'[i].key < order'[j].key {
      assert i < k ==> order'[i] == order[i];
      assert i > k ==> order'[i] == order[i - 1];
      assert j < k ==> order'[j] == order[j];
      assert j > k ==> order'[j] == order[j - 1];
    }
  }

  class Index {
    const tree: Root

    ghost predicate Valid()
      reads tree, tree.nodes
    {
      tree.Valid() && Sorted(tree.order)
    }

    constructor ()
      ensures Valid() && tree.order == [] && fresh(tree)
    {
      tree := new Root();
    }

    /** rb_search_page_cache. */
    method Search(key: int) returns (found: Node?)
      requires Valid()
      ensures found != null ==> found in tree.order && found.key == key
      ensures found == null ==> forall n | n in tree.order :: n.key != key
    {
      var n := tree.node;
      ghost var lo, hi := 0, |tree.order|;
      while n != null
        invariant Narrowed(tree.order, key, lo, hi)
        invariant if n == null then lo == hi else n in tree.nodes && n.at.lo == lo && n.at.hi == hi
        decreases hi - lo
      {
        tree.KidsLinked(n);
        tree.ParentLinked(n);
        assert Placed(tree.Cells(), tree.order, n);
        if key < n.key {
          hi := n.at.pos;
          n := n.left;
        } else if key > n.key {
          lo := n.at.pos + 1;
          n := n.right;
        } else {
          return n;
        }
      }
      return null;
    }

    /** The walk of the insert protocol: the node that already has the key, or the empty place
        below parent on the given side that is key's place in the order. */
    method Locate(key: int) returns (present: Node?, parent: Node?, side: Side, ghost k: int)
      requires Valid()
      ensures present != null ==> present in tree.nodes && present in tree.order && present.key == key
      ensures present == null ==> Narrowed(tree.order, key, k, k)
      ensures present == null ==>
                if parent == null then tree.node == null && k == 0
                else && parent in tree.nodes
                     && (if side.Left? then parent.left == null && k == parent.at.pos
                         else parent.right == null && k == parent.at.pos + 1)
    {
      var p := tree.node;
      parent, side, present := null, Left, null;
      ghost var lo, hi := 0, |tree.order|;
      k := 0;
      while p != null
        invariant Narrowed(tree.order, key, lo, hi)
        invariant if p == null then lo == hi else p in tree.nodes && p.at.lo == lo && p.at.hi == hi
        invariant if parent == null then p == tree.node
                  else && parent in tree.nodes
                       && p == (if side.Left? then parent.left else parent.right)
                       && (p == null ==> lo == if side.Left? then parent.at.pos else parent.at.pos + 1)
        decreases hi - lo
      {
        parent := p;
        tree.KidsLinked(parent);
        tree.ParentLinked(parent);
        assert Placed(tree.Cells(), tree.order, parent);
        if key < parent.key {
          hi := parent.at.pos;
          side, p := Left, parent.left;
        } else if key > parent.key {
          lo := parent.at.pos + 1;
          side, p := Right, parent.right;
        } else {
          present := parent;
          return;
        }
      }
      k := lo;
    }

    /** rb_insert_page_cache: the node that already has the key of n, or null once n is in. */
    method Insert(n: Node) returns (present: Node?)
      requires Valid() && n !in tree.nodes
      modifies tree, tree.nodes, n
      ensures Valid()
      ensures present == null <==> forall x | x in old(tree.order) :: x.key != n.key
      ensures present != null ==>
                present in tree.order && present.key == n.key && tree.order == old(tree.order) && tree.nodes == old(tree.nodes)
      ensures present == null ==> tree.nodes == old(tree.nodes) + {n}
      ensures present == null ==>
                exists k :: 0 <= k <= |old(tree.order)| && tree.order == old(tree.order)[..k] + [n] + old(tree.order)[k..]
    {
      var parent, side;
      ghost var k;
      present, parent, side, k := Locate(n.key);
      if present != null {
        return;
      }
      SortedInsert(tree.order, n, k);
      tree.LinkNode(n, parent, side);
      tree.InsertColor(n);
    }

    /** Starting at rb_first and repeating rb_next visits every node once, in ascending key order,
        and rb_prev leads back from each node to the one before it. */
    method Walk() returns (visited: seq<Node>)
      requires Valid()
      ensures visited == tree.order
    {
      visited := [];
      var n := tree.First();
      while n != null
        invariant visited <= tree.order
        invariant if n == null then |visited| == |tree.order|
                  else |visited| < |tree.order| && n == tree.order[|visited|] && n in tree.nodes
        decreases |tree.order| - |visited|
      {
        var next := tree.Next(n);
        if next != null {
          var back := tree.Prev(next);
          assert back == n;
        }
        visited := visited + [n];
        n := next;
      }
    }

    /** rb_erase by a client: the node leaves the index. */
    method Remove(n: Node)
      requires Valid() && n in tree.nodes
      modifies tree, tree.nodes
      ensures Valid() && tree.nodes == old(tree.nodes) - {n}
      ensures forall x | x in tree.order :: x.key != n.key
    {
      tree.Erase(n);
    }
  }
}
