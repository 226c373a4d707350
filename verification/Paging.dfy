/** The two-level page tables of arch/i386/mm/vmm.c as one flat map from pages to entries. Words are
    numbers, so masks and shifts by whole fields are division and remainder. */
module Paging {
  import opened Common
  import opened Powers

  const PAGE: nat := 0x1000
  const SPAN: nat := 0x40_0000       // what one page table maps
  const KERNBASE: nat := 0xC000_0000
  const PTE_COUNT: nat := 224        // KMEMSIZE / PAGE_MAP_SIZE
  const PRESENT_WRITE: nat := 3      // PAGE_PRESENT | PAGE_WRITE

  /** x & PAGE_MASK. */
  function Frame(x: nat): nat { x - x % PAGE }

  function PgdIndex(va: nat): nat { va / SPAN }

  function PteIndex(va: nat): nat { va / PAGE % 1024 }

  function Page(va: nat): nat { va / PAGE }

  /** Physical frames by address, each of 1024 words. */
  type Memory = map<nat, seq<nat>>

  /** Memory with one word of one frame replaced. */
  function Poke(mem: Memory, t: nat, k: nat, e: nat): Memory
    requires t in mem && k < |mem[t]|
  {
    var words: seq<nat> := mem[t][k := e];
    mem[t := words]
  }

  /** Every directory entry that is not empty points to a table of its own. */
  ghost predicate TablesOk(pgd: seq<nat>, mem: Memory) {
    && |pgd| == 1024
    && (forall i | 0 <= i < 1024 && Frame(pgd[i]) != 0 :: Frame(pgd[i]) in mem && |mem[Frame(pgd[i])]| == 1024)
    && (forall i, j | 0 <= i < j < 1024 && Frame(pgd[i]) != 0 :: Frame(pgd[i]) != Frame(pgd[j]))
  }

  /** The entry for a page, or 0 if it has no table. */
  ghost function EntryAt(pgd: seq<nat>, mem: Memory, page: nat): nat
    requires TablesOk(pgd, mem) && page < 1024 * 1024
  {
    var t := Frame(pgd[page / 1024]);
    if t == 0 then 0 else mem[t][page % 1024]
  }

  /** The pages that are mapped, with their entries. */
  ghost function Flat(pgd: seq<nat>, mem: Memory): map<nat, nat>
    requires TablesOk(pgd, mem)
  {
    map page: nat | page < 1024 * 1024 && EntryAt(pgd, mem, page) != 0 :: EntryAt(pgd, mem, page)
  }

  lemma PageSplits(va: nat)
    requires va < WORD
    ensures PgdIndex(va) < 1024 && Page(va) < 1024 * 1024
    ensures Page(va) / 1024 == PgdIndex(va) && Page(va) % 1024 == PteIndex(va)
  {
  }

  lemma FrameOfEntry(frame: nat, flags: nat)
    requires frame % PAGE == 0 && flags < PAGE
    ensures Frame(frame + flags) == frame
  {
  }

  // ---------- the entry that map writes ----------

  lemma PageIsPow2()
    ensures Pow2(12) == PAGE
  {
    assert Pow2(4) == 16;
    Pow2Sum(4, 4);
    Pow2Sum(8, 4);
  }

  /** Flags inside the page offset leave the frame alone. */
  lemma SmallFlags(frame: nat, flags: nat)
    requires frame % PAGE == 0 && flags < PAGE
    ensures Or(frame, flags) == frame + flags && Frame(Or(frame, flags)) == frame
  {
    PageIsPow2();
    DividesIs(12, frame);
    OrIsSum(frame, flags, 12);
    FrameOfEntry(frame, flags);
  }

  /** Every bit of flags above the page offset is a bit of pa. */
  ghost predicate FlagsWithin(flags: nat, pa: nat) {
    forall k: nat | k >= 12 && BitSet(flags, k) :: BitSet(pa, k)
  }

  /** What map stores for pa reads back as the frame of pa exactly if the flags, which map does not
      mask, add no bit to it. */
  lemma FrameReadBack(pa: nat, flags: nat)
    ensures Frame(Or(Frame(pa), flags)) == Frame(pa) <==> FlagsWithin(flags, pa)
  {
    var e := Or(Frame(pa), flags);
    var f, g := Shifted(pa, 12), Shifted(flags, 12);
    PageIsPow2();
    ShiftedIs(pa, 12);
    ShiftedIs(Frame(pa), 12);
    ShiftedIs(e, 12);
    OrShifted(Frame(pa), flags, 12);
    assert Shifted(e, 12) == Or(f, g);
    OrAbsorbs(f, g);
    FlagsShifted(pa, flags);
  }

  lemma FlagsShifted(pa: nat, flags: nat)
    ensures BitsWithin(Shifted(flags, 12), Shifted(pa, 12)) <==> FlagsWithin(flags, pa)
  {
    var f, g := Shifted(pa, 12), Shifted(flags, 12);
    forall k: nat ensures (BitSet(g, k) <==> BitSet(flags, 12 + k)) && (BitSet(f, k) <==> BitSet(pa, 12 + k)) {
      ShiftedBit(flags, 12, k);
      ShiftedBit(pa, 12, k);
    }
    if BitsWithin(g, f) {
      forall k: nat | k >= 12 && BitSet(flags, k) ensures BitSet(pa, k) {
        assert k == 12 + (k - 12) && BitSet(g, k - 12);
      }
    }
  }

  // ---------- changing the tables ----------

  /** Writing one word of an existing table changes that page's entry and no other. */
  lemma WriteEntry(pgd: seq<nat>, mem: Memory, page: nat, e: nat)
    requires TablesOk(pgd, mem) && page < 1024 * 1024 && Frame(pgd[page / 1024]) != 0
    ensures var t := Frame(pgd[page / 1024]); var mem' := Poke(mem, t, page % 1024, e);
      && TablesOk(pgd, mem')
      && Flat(pgd, mem') == if e != 0 then Flat(pgd, mem)[page := e] else Flat(pgd, mem) - {page}
  {
    var t := Frame(pgd[page / 1024]);
    var mem' := Poke(mem, t, page % 1024, e);
    forall p: nat | p < 1024 * 1024 ensures EntryAt(pgd, mem', p) == if p == page then e else EntryAt(pgd, mem, p) {
      var i, j := p / 1024, page / 1024;
      assert i < j ==> Frame(pgd[i]) != 0 ==> Frame(pgd[i]) != Frame(pgd[j]);
    }
  }

  /** The pages of directory entry i that a table with these words maps. */
  ghost function Span(i: nat, table: seq<nat>): map<nat, nat>
    requires |table| == 1024
  {
    map page: nat | page < 1024 * 1024 && page / 1024 == i && WordFor(table, page) != 0 :: WordFor(table, page)
  }

  ghost function WordFor(table: seq<nat>, page: nat): nat
    requires |table| == 1024
  {
    table[page % 1024]
  }

  /** A new table brings in whatever its frame holds. */
  lemma AddTable(pgd: seq<nat>, mem: Memory, i: nat, entry: nat)
    requires TablesOk(pgd, mem) && i < 1024 && Frame(pgd[i]) == 0
    requires Frame(entry) != 0 && Frame(entry) in mem && |mem[Frame(entry)]| == 1024
    requires forall j | 0 <= j < 1024 :: Frame(pgd[j]) != Frame(entry)
    ensures TablesOk(pgd[i := entry], mem)
    ensures Flat(pgd[i := entry], mem) == Flat(pgd, mem) + Span(i, mem[Frame(entry)])
  {
    var pgd' := pgd[i := entry];
    AddedTablesOk(pgd, mem, i, entry);
    forall p: nat | p < 1024 * 1024
      ensures EntryAt(pgd', mem, p) == if p / 1024 == i then mem[Frame(entry)][p % 1024] else EntryAt(pgd, mem, p)
    {
    }
  }

  lemma AddedTablesOk(pgd: seq<nat>, mem: Memory, i: nat, entry: nat)
    requires TablesOk(pgd, mem) && i < 1024
    requires Frame(entry) != 0 && Frame(entry) in mem && |mem[Frame(entry)]| == 1024
    requires forall j | 0 <= j < 1024 :: Frame(pgd[j]) != Frame(entry)
    ensures TablesOk(pgd[i := entry], mem)
  {
  }

  lemma AddNoTable(pgd: seq<nat>, mem: Memory, i: nat, entry: nat)
    requires TablesOk(pgd, mem) && i < 1024 && Frame(pgd[i]) == 0 && Frame(entry) == 0
    ensures TablesOk(pgd[i := entry], mem) && Flat(pgd[i := entry], mem) == Flat(pgd, mem)
  {
    forall p: nat | p < 1024 * 1024 ensures EntryAt(pgd[i := entry], mem, p) == EntryAt(pgd, mem, p) {
    }
  }

  /** No table lies in frame 0, so that writing there maps nothing. */
  lemma WriteFrameZero(pgd: seq<nat>, mem: Memory, k: nat, e: nat)
    requires TablesOk(pgd, mem) && 0 in mem && |mem[0]| == 1024 && k < 1024
    ensures TablesOk(pgd, Poke(mem, 0, k, e)) && Flat(pgd, Poke(mem, 0, k, e)) == Flat(pgd, mem)
  {
    forall p: nat | p < 1024 * 1024 ensures EntryAt(pgd, Poke(mem, 0, k, e), p) == EntryAt(pgd, mem, p) {
    }
  }

  /** The walk that the processor makes (Intel SDM Vol. 3A, sections 4.3 and 4.6): both entries
      present, and both must allow writing, and access from user mode. */
  datatype Address = Fault | Physical(pa: nat, writable: bool, user: bool)

  ghost function Walk(pgd: seq<nat>, mem: Memory, va: nat): Address
    requires |pgd| == 1024 && va < WORD
  {
    var pde := pgd[PgdIndex(va)];
    if !BitSet(pde, 0) || Frame(pde) !in mem || |mem[Frame(pde)]| != 1024 then Fault
    else
      var pte := mem[Frame(pde)][PteIndex(va)];
      if !BitSet(pte, 0) then Fault
      else Physical(Frame(pte) + va % PAGE, BitSet(pde, 1) && BitSet(pte, 1), BitSet(pde, 2) && BitSet(pte, 2))
  }

  lemma FirstBits(x: nat)
    ensures BitSet(x, 0) <==> x % 2 == 1
    ensures BitSet(x, 1) <==> x / 2 % 2 == 1
    ensures BitSet(x, 2) <==> x / 4 % 2 == 1
  {
    assert x / 2 / 2 == x / 4;
    Halved(x, 1);
    Halved(x / 2, 1);
    Halved(x, 2);
  }

  lemma Halved(x: nat, k: nat)
    requires k > 0
    ensures BitSet(x, k) <==> BitSet(x / 2, k - 1)
  {
  }

  lemma AlignedBits(frame: nat)
    requires frame % PAGE == 0
    ensures frame % 2 == 0 && frame / 2 % 2 == 0 && frame / 4 % 2 == 0
  {
    var q := frame / 4096;
    assert frame == 4096 * q;
    assert frame / 2 == 2048 * q;
    assert frame / 4 == 1024 * q;
  }

  /** The low bits of an entry are those of its flags. */
  lemma LowBits(frame: nat, flags: nat, k: nat)
    requires frame % PAGE == 0 && k < 3
    ensures BitSet(Or(frame, flags), k) <==> BitSet(flags, k)
    ensures flags < PAGE ==> (BitSet(frame + flags, k) <==> BitSet(flags, k))
  {
    OrBits(frame, flags, k);
    FirstBits(frame);
    AlignedBits(frame);
    if flags < PAGE {
      SmallFlags(frame, flags);
    }
  }

  /** Present, writable, and closed to user mode. */
  lemma KernelEntry(frame: nat)
    requires frame % PAGE == 0
    ensures BitSet(frame + 3, 0) && BitSet(frame + 3, 1) && !BitSet(frame + 3, 2) && Frame(frame + 3) == frame
  {
    LowBits(frame, 3, 0);
    LowBits(frame, 3, 1);
    LowBits(frame, 3, 2);
    SmallFlags(frame, 3);
  }

  /** The walk to a page whose word holds the entry that map makes of pa and flags. */
  lemma WalkOfEntry(pgd: seq<nat>, mem: Memory, va: nat, pa: nat, flags: nat)
    requires |pgd| == 1024 && va < WORD
    requires var t := Frame(pgd[PgdIndex(va)]);
      t in mem && |mem[t]| == 1024 && mem[t][PteIndex(va)] == Or(Frame(pa), flags)
    ensures var pde := pgd[PgdIndex(va)];
      Walk(pgd, mem, va) == if BitSet(pde, 0) && BitSet(flags, 0)
        then Physical(Frame(Or(Frame(pa), flags)) + va % 0x1000, BitSet(pde, 1) && BitSet(flags, 1), BitSet(pde, 2) && BitSet(flags, 2))
        else Fault
  {
    LowBits(Frame(pa), flags, 0);
    LowBits(Frame(pa), flags, 1);
    LowBits(Frame(pa), flags, 2);
  }

  class Directory {
    const pgd: array<nat>
    var mem: Memory

    ghost predicate Valid()
      reads this, pgd
    {
      TablesOk(pgd[..], mem)
    }

    ghost function Mapped(): map<nat, nat>
      requires Valid()
      reads this, pgd
    {
      Flat(pgd[..], mem)
    }

    /** An empty directory over physical memory. */
    constructor (m: Memory)
      ensures Valid() && Mapped() == map[] && mem == m && fresh(pgd)
      ensures forall i | 0 <= i < 1024 :: pgd[i] == 0
    {
      mem := m;
      pgd := new nat[1024](_ => 0);
    }

    /** A frame that alloc_pages may hand out for a table: real memory, no table yet, and not 0. */
    ghost predicate FreshFrame(frame: nat)
      reads this, pgd
    {
      && frame != 0 && frame % PAGE == 0 && frame in mem && |mem[frame]| == 1024
      && forall j | 0 <= j < pgd.Length :: Frame(pgd[j]) != frame
    }

    /** map. The frame is what alloc_pages gives if the directory has no table there yet: one whose
        words are not cleared, so that it brings along whatever is in it, or 0 when no page is left,
        which is not tested, so that the entry goes to physical frame 0. */
    method Map(va: nat, pa: nat, flags: nat, frame: nat)
      requires Valid() && va < WORD && pa < WORD && flags < WORD
      requires Frame(pgd[PgdIndex(va)]) == 0 ==>
        if frame == 0 then 0 in mem && |mem[0]| == 1024 else FreshFrame(frame)
      modifies this`mem, pgd
      ensures Valid()
      ensures
        var i, k, e := PgdIndex(va), PteIndex(va), Or(Frame(pa), flags);
        var t := if Frame(old(pgd[i])) != 0 then Frame(old(pgd[i])) else frame;
        && pgd[..] == (if Frame(old(pgd[i])) != 0 then old(pgd[..]) else old(pgd[..])[i := frame + 3])
        && t in old(mem) && |old(mem[t])| == 1024 && mem == Poke(old(mem), t, k, e)
        && (t == 0 ==> Mapped() == old(Mapped()))
        && (t != 0 ==>
              var before := if Frame(old(pgd[i])) != 0 then old(Mapped()) else old(Mapped()) + Span(i, old(mem[frame]));
              Mapped() == if e != 0 then before[Page(va) := e] else before - {Page(va)})
      // what the processor makes of it: a table that map itself has made gives user mode no access
      ensures Frame(old(pgd[PgdIndex(va)])) == 0 ==>
        var pde := pgd[PgdIndex(va)]; BitSet(pde, 0) && BitSet(pde, 1) && !BitSet(pde, 2) && Frame(pde) == frame
      ensures var pde := pgd[PgdIndex(va)];
        Walk(pgd[..], mem, va) == if BitSet(pde, 0) && BitSet(flags, 0)
          then Physical(Frame(Or(Frame(pa), flags)) + va % 0x1000, BitSet(pde, 1) && BitSet(flags, 1), BitSet(pde, 2) && BitSet(flags, 2))
          else Fault
    {
      PageSplits(va);
      var pgdIdx, pteIdx := PgdIndex(va), PteIndex(va);
      var pte, e := Frame(pgd[pgdIdx]), Or(Frame(pa), flags);
      if pte == 0 {
        pte := frame;
        SmallFlags(frame, PRESENT_WRITE);
        KernelEntry(frame);
        EnterTable(pgdIdx, pte);
      }
      if pte != 0 {
        WriteEntry(pgd[..], mem, Page(va), e);
      } else {
        WriteFrameZero(pgd[..], mem, pteIdx, e);
      }
      mem := Poke(mem, pte, pteIdx, e);
      WalkOfEntry(pgd[..], mem, va, pa, flags);
    }

    /** The store of a new directory entry. */
    method EnterTable(i: nat, frame: nat)
      requires Valid() && i < 1024 && Frame(pgd[i]) == 0 && (frame == 0 || FreshFrame(frame))
      modifies pgd
      ensures Valid() && pgd[..] == old(pgd[..])[i := frame + PRESENT_WRITE]
      ensures Mapped() == if frame == 0 then old(Mapped()) else old(Mapped()) + Span(i, mem[frame])
    {
      ghost var was := pgd[..];
      var entry := Or(frame, PRESENT_WRITE);
      SmallFlags(frame, PRESENT_WRITE);
      if frame == 0 {
        AddNoTable(was, mem, i, entry);
      } else {
        AddTable(was, mem, i, entry);
      }
      pgd[i] := entry;
      assert pgd[..] == was[i := entry];
    }

    /** unmap. */
    method Unmap(va: nat)
      requires Valid() && va < WORD
      modifies this`mem
      ensures Valid() && Mapped() == old(Mapped()) - {Page(va)}
      ensures var t := Frame(pgd[PgdIndex(va)]);
        if t == 0 then mem == old(mem)
        else t in old(mem) && |old(mem[t])| == 1024 && mem == Poke(old(mem), t, PteIndex(va), 0)
    {
      PageSplits(va);
      var pte := Frame(pgd[PgdIndex(va)]);
      if pte == 0 {
        return;
      }
      WriteEntry(pgd[..], mem, Page(va), 0);
      mem := Poke(mem, pte, PteIndex(va), 0);
    }

    /** vmm_init on an empty directory, with the page tables at the physical address tables. */
    method Init(tables: nat)
      requires forall i | 0 <= i < pgd.Length :: pgd[i] == 0
      requires pgd.Length == 1024 && Filled(mem, tables, 0) && tables % PAGE == 0 && TableAt(tables, 1024) <= WORD
      modifies this`mem, pgd
      ensures Directed(pgd[..], tables, 992) && Filled(mem, tables, 1024 * PTE_COUNT) && Valid()
      ensures Elsewhere(old(mem), mem, tables)
      ensures forall va: nat | 0xC000_0000 <= va < 0xF800_0000 :: Walk(pgd[..], mem, va) == Physical(va - 0xC000_0000, true, false)
      ensures forall va: nat | va < 0xC000_0000 || 0xF800_0000 <= va < 0x1_0000_0000 :: Walk(pgd[..], mem, va) == Fault
    {
      var pgdIdx := PgdIndex(KERNBASE);
      var i := pgdIdx;
      while i < pgdIdx + PTE_COUNT
        invariant 768 <= i <= 992 && Directed(pgd[..], tables, i) && mem == old(mem)
      {
        pgd[i] := TableAt(tables, i) + PRESENT_WRITE;
        i := i + 1;
      }
      i := 0;
      while i < 1024 * PTE_COUNT
        invariant 0 <= i <= 1024 * PTE_COUNT && Filled(mem, tables, i) && Directed(pgd[..], tables, 992)
        invariant Elsewhere(old(mem), mem, tables)
      {
        FillStep(mem, tables, i);
        mem := Poke(mem, TableAt(tables, pgdIdx + i / 1024), i % 1024, i * PAGE + PRESENT_WRITE);
        i := i + 1;
      }
      DirectedTables(pgd[..], mem, tables);
      forall va: nat | va < 0x1_0000_0000
        ensures Walk(pgd[..], mem, va)
          == if 0xC000_0000 <= va < 0xF800_0000 then Physical(va - 0xC000_0000, true, false) else Fault
      {
        KernelWalk(pgd[..], mem, tables, va);
      }
    }

    /** get_mapping with a non-null pa. */
    method GetMapping(va: nat) returns (found: bool, pa: nat)
      requires Valid() && va < WORD
      ensures found <==> Page(va) in Mapped()
      ensures found ==> pa == Frame(Mapped()[Page(va)])
    {
      PageSplits(va);
      var pte := Frame(pgd[PgdIndex(va)]);
      if pte == 0 {
        return false, 0;
      }
      var e := mem[pte][PteIndex(va)];
      if e != 0 {
        return true, Frame(e);
      }
      return false, 0;
    }
  }

  // ---------- vmm_init ----------

  /** Where the table for directory entry i lies. */
  function TableAt(tables: nat, i: nat): nat { tables + PAGE * i }

  /** Memory holds the kernel's tables, and their first n words map the frames 0, 1, 2, ... in order. */
  ghost predicate Filled(mem: Memory, tables: nat, n: nat) {
    && (forall i {:trigger TableAt(tables, i)} | 768 <= i < 992 :: TableAt(tables, i) in mem && |mem[TableAt(tables, i)]| == 1024)
    && (forall k: nat | k < n && k < 1024 * PTE_COUNT :: FilledWord(mem, tables, k))
  }

  /** Frames other than those of the kernel's tables are the same. */
  ghost predicate Elsewhere(mem: Memory, mem': Memory, tables: nat) {
    && mem'.Keys == mem.Keys
    && forall t {:trigger mem'[t]} | t in mem && !(exists i {:trigger TableAt(tables, i)} :: 768 <= i < 992 && t == TableAt(tables, i)) :: mem'[t] == mem[t]
  }

  ghost predicate FilledWord(mem: Memory, tables: nat, k: nat) {
    var t := TableAt(tables, 768 + k / 1024);
    t in mem && |mem[t]| == 1024 && mem[t][k % 1024] == k * PAGE + PRESENT_WRITE
  }

  lemma FillStep(mem: Memory, tables: nat, n: nat)
    requires Filled(mem, tables, n) && n < 1024 * PTE_COUNT
    ensures var t := TableAt(tables, 768 + n / 1024);
      && t in mem && |mem[t]| == 1024
      && Filled(Poke(mem, t, n % 1024, n * PAGE + PRESENT_WRITE), tables, n + 1)
  {
    var t := TableAt(tables, 768 + n / 1024);
    var mem' := Poke(mem, t, n % 1024, n * PAGE + PRESENT_WRITE);
    forall k: nat | k < n + 1 ensures FilledWord(mem', tables, k) {
      if k < n {
        assert FilledWord(mem, tables, k);
      }
    }
  }

  /** The directory that vmm_init leaves: entries 768 to 991 point to their tables. */
  ghost predicate Directed(pgd: seq<nat>, tables: nat, n: nat) {
    && |pgd| == 1024
    && (forall i | 0 <= i < 1024 :: pgd[i] == if 768 <= i < n then TableAt(tables, i) + PRESENT_WRITE else 0)
  }

  lemma DirectedTables(pgd: seq<nat>, mem: Memory, tables: nat)
    requires Directed(pgd, tables, 992) && Filled(mem, tables, 1024 * PTE_COUNT) && tables % PAGE == 0
    ensures TablesOk(pgd, mem)
    ensures forall i | 768 <= i < 992 :: Frame(pgd[i]) == TableAt(tables, i)
  {
    forall i | 768 <= i < 992 ensures Frame(pgd[i]) == TableAt(tables, i) {
      FrameOfEntry(TableAt(tables, i), PRESENT_WRITE);
    }
  }

  /** With that, the processor sends every kernel address below the top to the physical address
      0xC0000000 below it, writable and closed to user mode, and get_mapping knows just those pages. */
  lemma KernelWalk(pgd: seq<nat>, mem: Memory, tables: nat, va: nat)
    requires Directed(pgd, tables, 992) && Filled(mem, tables, 1024 * PTE_COUNT) && tables % PAGE == 0
    requires va < WORD
    ensures Walk(pgd, mem, va)
      == if 0xC000_0000 <= va < 0xF800_0000 then Physical(va - 0xC000_0000, true, false) else Fault
    ensures TablesOk(pgd, mem) && (Page(va) in Flat(pgd, mem) <==> 0xC000_0000 <= va < 0xF800_0000)
  {
    DirectedTables(pgd, mem, tables);
    PageSplits(va);
    if 0xC000_0000 <= va < 0xF800_0000 {
      var k: nat := Page(va) - 768 * 1024;
      assert k / 1024 == PgdIndex(va) - 768 && k % 1024 == PteIndex(va);
      assert FilledWord(mem, tables, k);
      KernelEntry(k * PAGE);
      KernelEntry(TableAt(tables, PgdIndex(va)));
      assert pgd[PgdIndex(va)] == TableAt(tables, PgdIndex(va)) + PRESENT_WRITE;
    }
  }

  /** map changes its own page only, exactly if the frame it takes for a new table is clear
      everywhere else. */
  lemma MapIsLocalIffFrameClear(before: map<nat, nat>, i: nat, table: seq<nat>, page: nat, e: nat)
    requires i < 1024 && |table| == 1024 && page / 1024 == i && e != 0
    requires forall p | p in before :: p / 1024 != i
    ensures (before + Span(i, table))[page := e] == before[page := e]
      <==> forall k | 0 <= k < 1024 && k != page % 1024 :: table[k] == 0
  {
    var after := (before + Span(i, table))[page := e];
    if k :| 0 <= k < 1024 && k != page % 1024 && table[k] != 0 {
      var p: nat := 1024 * i + k;
      assert p / 1024 == i && p % 1024 == k;
      assert WordFor(table, p) != 0 && p in Span(i, table);
      assert p in after && p !in before[page := e];
    } else {
      forall p | p in Span(i, table) ensures p == page {
        assert WordFor(table, p) != 0;
      }
    }
  }

  /** A frame with a leftover word: mapping page 0 through it maps page 1 as well. */
  lemma LeftoverWordIsMapped(table: seq<nat>)
    requires |table| == 1024 && forall k | 0 <= k < 1024 :: table[k] == if k == 1 then 0x5003 else 0
    ensures var pgd: seq<nat> := seq(1024, _ => 0); var mem: Memory := map[0x1000 := table];
      var pgd', mem' := pgd[0 := 0x1003], Poke(mem, 0x1000, 0, 0x4003);
      && TablesOk(pgd, mem) && Flat(pgd, mem) == map[]
      && TablesOk(pgd', mem') && Flat(pgd', mem') == map[0 := 0x4003, 1 := 0x5003]
  {
    var pgd: seq<nat> := seq(1024, _ => 0);
    var mem: Memory := map[0x1000 := table];
    EmptyDirectory(pgd, mem);
    LeftoverSpan(table);
    AddTable(pgd, mem, 0, 0x1003);
    WriteEntry(pgd[0 := 0x1003], mem, 0, 0x4003);
  }

  lemma EmptyDirectory(pgd: seq<nat>, mem: Memory)
    requires |pgd| == 1024 && forall i | 0 <= i < 1024 :: pgd[i] == 0
    ensures TablesOk(pgd, mem) && Flat(pgd, mem) == map[]
  {
  }

  lemma LeftoverSpan(table: seq<nat>)
    requires |table| == 1024 && forall k | 0 <= k < 1024 :: table[k] == if k == 1 then 0x5003 else 0
    ensures Span(0, table) == map[1 := 0x5003]
  {
    assert WordFor(table, 1) == 0x5003;
  }

  /** After a map for which no page was left the processor does find the page, in frame 0, while
      get_mapping and unmap take the directory entry for an empty one. */
  lemma FailedMapIsWalked(pgd: seq<nat>, mem: Memory, va: nat, e: nat)
    requires TablesOk(pgd, mem) && va < WORD && Frame(pgd[PgdIndex(va)]) == 0 && 0 in mem && |mem[0]| == 1024
    ensures PgdIndex(va) < 1024 && PteIndex(va) < 1024
    ensures var pgd', mem' := pgd[PgdIndex(va) := 3], Poke(mem, 0, PteIndex(va), e);
      && TablesOk(pgd', mem') && Page(va) !in Flat(pgd', mem')
      && Walk(pgd', mem', va) == if e % 2 == 1 then Physical(Frame(e) + va % 0x1000, e / 2 % 2 == 1, false) else Fault
  {
    PageSplits(va);
    AddNoTable(pgd, mem, PgdIndex(va), 3);
    WriteFrameZero(pgd[PgdIndex(va) := 3], mem, PteIndex(va), e);
    KernelEntry(0);
    FirstBits(e);
  }
}
