/** The slob heap of mm/slob.c: block headers in memory, linked into a circular list. */
module Slob {
  import opened Common
  import opened List
  import opened SlobBlocks

  /** slob_block_t as it lies in memory. */
  datatype Header = Header(used: bool, length: nat, list: ListHead)

  /** The blocks that a ring lists; its last entry is the head and stands for no block. */
  ghost function View(ring: seq<ListHead>, mem: map<nat, Header>): (bs: seq<Block>)
    requires |ring| > 0
  {
    seq(|ring| - 1, i requires 0 <= i < |ring| - 1 => BlockAt(ring[i].owner, mem))
  }

  ghost function BlockAt(a: nat, mem: map<nat, Header>): Block {
    if a in mem then Block(a, mem[a].used, mem[a].length) else Block(a, false, 0)
  }

  /** Each entry is the list field of the header it is embedded in. */
  ghost predicate Embedded(ring: seq<ListHead>, mem: map<nat, Header>)
    requires |ring| > 0
  {
    forall i {:trigger ring[i].owner} | 0 <= i < |ring| - 1 :: ring[i].owner in mem && mem[ring[i].owner].list == ring[i]
  }

  /** Splitting entry i: its header shrinks, and a header with a fresh entry follows. */
  lemma SplitView(ring: seq<ListHead>, mem: map<nat, Header>, mem': map<nat, Header>, i: nat, len: nat, link: ListHead)
    requires Distinct(ring) && i < |ring| - 1 && Embedded(ring, mem)
    requires var a := ring[i].owner; var n := a + HEADER + len;
      && mem[a].length > len && Splits(BlockAt(a, mem), len) && link.owner == n
      && (forall j | 0 <= j < |ring| - 1 :: ring[j].owner != n)
      && mem' == mem[n := Header(false, mem[a].length - len - HEADER, link)][a := Header(true, len, mem[a].list)]
    ensures var ring' := Inserted(ring, i + 1, link);
      Embedded(ring', mem') && View(ring', mem') == SplitAt(View(ring, mem), i, len)
  {
  }

  /** Taking entry i + 1 out while entry i's header absorbs its length. */
  lemma AbsorbView(ring: seq<ListHead>, mem: map<nat, Header>, mem': map<nat, Header>, i: nat)
    requires Distinct(ring) && i + 1 < |ring| - 1 && Embedded(ring, mem)
    requires var a := ring[i].owner;
      mem' == mem[a := mem[a].(length := mem[a].length + mem[ring[i + 1].owner].length + HEADER)]
    ensures var ring' := Removed(ring, i + 1);
      Embedded(ring', mem') && View(ring', mem') == Absorb(View(ring, mem), i)
  {
  }

  lemma FreedView(ring: seq<ListHead>, mem: map<nat, Header>, mem': map<nat, Header>, i: nat)
    requires Distinct(ring) && i < |ring| - 1 && Embedded(ring, mem)
    requires var a := ring[i].owner; mem' == mem[a := mem[a].(used := false)]
    ensures Embedded(ring, mem')
    ensures View(ring, mem') == View(ring, mem)[i := View(ring, mem)[i].(used := false)]
  {
  }

  /** Where split_chunk puts the new header no listed block begins. */
  lemma NewHeaderUnlisted(bs: seq<Block>, base: nat, i: nat, len: nat, j: nat)
    requires HeapOk(bs, base) && i < |bs| && j < |bs| && len < bs[i].len
    ensures bs[j].addr != bs[i].addr + HEADER + len
  {
    TilesOrder(bs, base, base + ARENA, if i < j then i else j, if i < j then j else i);
  }

  class Heap {
    var mem: map<nat, Header>      // the headers, by address
    const head: ListHead           // slob_head
    ghost const base: nat          // where the arena begins
    ghost var ring: seq<ListHead>  // the entries in list order, and then head
    ghost var nodes: set<ListHead> // every list head that was ever in the ring

    ghost function Blocks(): seq<Block>
      reads this
    {
      if |ring| == 0 then [] else View(ring, mem)
    }

    /** The list is a ring of the headers in memory; nothing is said yet of what it lists. */
    ghost predicate Linked()
      reads this, ring
    {
      && IsRing(ring) && ring[|ring| - 1] == head && Embedded(ring, mem)
      && forall i | 0 <= i < |ring| :: ring[i] in nodes
    }

    ghost predicate Valid()
      reads this, ring
    {
      Linked() && HeapOk(Blocks(), base)
    }

    /** slob_init on an arena at address b. */
    constructor (b: nat)
      ensures Valid() && base == b && Blocks() == [Block(b, false, 4194292)]
      ensures fresh(nodes)
    {
      var h, l := OneEntry(b);
      head := h;
      base := b;
      mem := map[b := Header(false, ARENA - HEADER, l)];
      ring := [l, h];
      nodes := {l, h};
      new;
      assert Blocks()[1..] == [];
    }

    /** split_chunk on entry i of the list. */
    method SplitChunk(a: nat, len: nat, ghost i: nat)
      requires Linked() && i < |ring| - 1 && ring[i].owner == a && mem[a].length > len
      requires forall j | 0 <= j < |ring| - 1 :: ring[j].owner != a + HEADER + len
      modifies this`mem, this`ring, this`nodes, nodes`next, nodes`prev
      ensures Linked() && Blocks() == SplitAt(old(Blocks()), i, len)
      ensures nodes >= old(nodes) && fresh(nodes - old(nodes))
    {
      if mem[a].length - len > HEADER + MIN_PART {
        ghost var ring0, mem0 := ring, mem;
        AddHeader(a + HEADER + len, mem[a].length - len - HEADER, a, i);
        mem := mem[a := mem[a].(length := len)];
        mem := mem[a := mem[a].(used := true)];
        SplitView(ring0, mem0, mem, i, len, ring[i + 1]);
      }
    }

    /** A new free header at n, listed right behind entry i. */
    method AddHeader(n: nat, length: nat, a: nat, ghost i: nat)
      requires Linked() && i < |ring| - 1 && ring[i].owner == a && n != a
      modifies this`mem, this`ring, this`nodes, nodes`next, nodes`prev
      ensures |ring| == old(|ring|) + 1 && ring == Inserted(old(ring), i + 1, ring[i + 1]) && IsRing(ring)
      ensures ring[i + 1].owner == n && nodes == old(nodes) + {ring[i + 1]} && fresh(ring[i + 1])
      ensures mem == old(mem)[n := Header(false, length, ring[i + 1])]
    {
      var link := new ListHead(n);
      mem := mem[n := Header(false, length, link)];
      Add(link, mem[a].list, ring, i);
      ring := Inserted(ring, i + 1, link);
      nodes := nodes + {link};
    }

    /** The two lines that glue_chunk repeats: the block at a, entry i, takes over the block at b
        behind it, and b leaves the list. The entry of b keeps its own links. */
    method Swallow(a: nat, b: nat, ghost i: nat)
      requires Linked() && i + 1 < |ring| - 1 && ring[i].owner == a && ring[i + 1].owner == b
      modifies this`mem, this`ring, this`nodes, nodes`next, nodes`prev
      ensures Linked() && ring == Removed(old(ring), i + 1) && Blocks() == Absorb(old(Blocks()), i)
      ensures nodes == old(nodes)
      ensures b in mem && mem[b] == old(mem[b]) && mem[b].list.next == After(old(ring), i + 1)
      ensures a in mem && mem[a] == old(mem[a]).(length := old(mem[a].length) + old(mem[b].length) + HEADER)
    {
      ghost var ring0, mem0 := ring, mem;
      assert ring[i] != ring[i + 1];
      mem := mem[a := mem[a].(length := mem[a].length + (mem[b].length + HEADER))];
      Del(mem[b].list, ring, i + 1);
      ring := Removed(ring, i + 1);
      AbsorbView(ring0, mem0, mem, i);
    }

    /** glue_chunk on the free block at address a, entry i. The second test reads the next link of
        an entry that the first step may already have taken out. */
    method GlueChunk(a: nat, ghost i: nat)
      requires Linked() && i < |ring| - 1 && ring[i].owner == a
      modifies this`mem, this`ring, this`nodes, nodes`next, nodes`prev
      ensures Linked() && Blocks() == Glue(old(Blocks()), i)
      ensures nodes == old(nodes)
    {
      var le := mem[a].list;
      var chunk, j := GluePrevious(a, le, i);
      if le.next != head {
        var next := le.next.owner;
        if !mem[next].used {
          Swallow(chunk, next, j);
        }
      }
    }

    method GluePrevious(a: nat, le: ListHead, ghost i: nat) returns (chunk: nat, ghost j: nat)
      requires Linked() && i < |ring| - 1 && ring[i].owner == a && le == ring[i]
      modifies this`mem, this`ring, this`nodes, nodes`next, nodes`prev
      ensures Linked() && j == if i > 0 && !old(Blocks())[i - 1].used then i - 1 else i
      ensures Blocks() == if j < i then Absorb(old(Blocks()), j) else old(Blocks())
      ensures j + 1 < |ring| && ring[j].owner == chunk && le.next == ring[j + 1]
      ensures nodes == old(nodes)
    {
      chunk, j := a, i;
      if le.prev != head {
        var prev := le.prev.owner;
        if !mem[prev].used {
          Swallow(prev, a, i - 1);
          chunk, j := prev, i - 1;
        }
      }
    }

    /** The search of kmalloc: the first listed block that fits. */
    method FindFit(len: nat) returns (found: bool, block: nat, ghost k: nat)
      requires Linked()
      ensures k == FirstFit(Blocks(), len) && (found <==> k < |Blocks()|)
      ensures found ==> ring[k].owner == block
    {
      var le := head.next;
      k := 0;
      while le != head
        invariant k <= |ring| - 1 && le == ring[k]
        invariant forall j | 0 <= j < k :: !Fits(Blocks()[j], len)
        decreases |ring| - k
      {
        block := le.owner;
        if !mem[block].used && mem[block].length > len {
          FirstFitIs(Blocks(), len, k);
          return true, block, k;
        }
        le := le.next;
        k := k + 1;
      }
      FirstFitIs(Blocks(), len, k);
      return false, 0, k;
    }

    lemma Unlisted(i: nat, len: nat)
      requires Valid() && i < |ring| - 1 && len < Blocks()[i].len
      ensures forall j | 0 <= j < |ring| - 1 :: ring[j].owner != ring[i].owner + HEADER + len
    {
      forall j | 0 <= j < |ring| - 1 ensures ring[j].owner != ring[i].owner + HEADER + len {
        NewHeaderUnlisted(Blocks(), base, i, len, j);
      }
    }

    /** kmalloc. */
    method Kmalloc(size: nat) returns (r: Option<nat>)
      requires Valid() && size < WORD
      modifies this`mem, this`ring, this`nodes, nodes`next, nodes`prev
      ensures Valid() && (Blocks(), r) == SlobBlocks.Kmalloc(old(Blocks()), size)
      ensures nodes >= old(nodes) && fresh(nodes - old(nodes))
    {
      KmallocKeepsHeap(Blocks(), base, size);
      r := Allocate(size);
    }

    method Allocate(size: nat) returns (r: Option<nat>)
      requires Valid() && size < WORD
      modifies this`mem, this`ring, this`nodes, nodes`next, nodes`prev
      ensures Linked() && Blocks() == SlobBlocks.Kmalloc(old(Blocks()), size).0
      ensures r == SlobBlocks.Kmalloc(old(Blocks()), size).1
      ensures nodes >= old(nodes) && fresh(nodes - old(nodes))
    {
      var len := ((if size > MIN_PART then size else MIN_PART) + HEADER) % WORD;
      var found, block, k := FindFit(len);
      KmallocIs(Blocks(), size, k);
      if found {
        Serve(block, len, k);
        r := Some(block + HEADER);
      } else {
        r := None;
      }
    }

    method Serve(block: nat, len: nat, ghost k: nat)
      requires Valid() && k < |Blocks()| && Blocks()[k].len > len && ring[k].owner == block
      modifies this`mem, this`ring, this`nodes, nodes`next, nodes`prev
      ensures Linked() && Blocks() == SplitAt(old(Blocks()), k, len)
      ensures nodes >= old(nodes) && fresh(nodes - old(nodes))
    {
      Unlisted(k, len);
      SplitChunk(block, len, k);
    }

    /** kfree of the payload of the listed block i. */
    method Kfree(addr: nat, ghost i: nat)
      requires Valid() && i < |Blocks()| && addr == Blocks()[i].Payload()
      modifies this`mem, this`ring, this`nodes, nodes`next, nodes`prev
      ensures Valid() && Blocks() == SlobBlocks.Kfree(old(Blocks()), i)
      ensures nodes == old(nodes)
    {
      KfreeKeepsHeap(Blocks(), base, i);
      var block := addr - HEADER;
      if !mem[block].used {
        return;
      }
      FreedView(ring, mem, mem[block := mem[block].(used := false)], i);
      mem := mem[block := mem[block].(used := false)];
      GlueChunk(block, i);
    }
  }
}
