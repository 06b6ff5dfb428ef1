/** The kernel's page tables: mk_mmap, get_pt_entry, mm_map, mm_physical and the order of setup_paging. */
module Paging {
  import opened Arithmetic
  import opened PageWalk
  import opened Wrappers

  const PG_SUPV: nat := 0

  /** The entry for a page address and flags in the low 12 bits. */
  function EntryFor(page: nat, flags: nat): nat {
    page + flags / 2 * 2 + PG_PRESENT
  }

  /** The directory entry for a table's address. */
  function DirectoryEntryFor(page: nat): nat {
    page + PG_PRESENT + PG_USER + PG_RDWR
  }

  /** It is the OR that the code takes. */
  lemma EntryIsOr(page: nat, flags: nat)
    requires page % PAGE_SIZE == 0 && flags < PAGE_SIZE
    ensures BitOr(BitOr(page, PG_PRESENT), flags) == EntryFor(page, flags)
  {
    LowFlags(page, 0, PG_PRESENT);
    LowFlags(page, PG_PRESENT, flags);
    BitOrZero(PG_PRESENT);
    BitOrZero(flags / 2);
    BitOrStep(PG_PRESENT, flags);
  }

  lemma DirectoryEntryIsOr(page: nat)
    requires page % PAGE_SIZE == 0
    ensures BitOr(BitOr(BitOr(page, PG_PRESENT), PG_USER), PG_RDWR) == DirectoryEntryFor(page)
  {
    LowFlags(page, 0, PG_PRESENT);
    LowFlags(page, PG_PRESENT, PG_USER);
    LowFlags(page, PG_PRESENT + PG_USER, PG_RDWR);
    BitOrZero(PG_PRESENT);
    BitOrZero(2);
    BitOrZero(1);
    BitOrStep(PG_PRESENT, PG_USER);
    BitOrStep(5, PG_RDWR);
    BitOrStep(2, 1);
  }

  lemma LowFlags(page: nat, f: nat, g: nat)
    requires page % PAGE_SIZE == 0 && f < PAGE_SIZE && g < PAGE_SIZE
    ensures BitOr(page + f, g) == page + BitOr(f, g)
  {
    assert TwoTo(12) == PAGE_SIZE by {
      assert TwoTo(4) == 16 && TwoTo(8) == 256;
    }
    BitOrLow(page / PAGE_SIZE, 12, f, g);
  }

  /** How many of the directory's slots first .. last - 1 have no table yet. */
  function Missing(shadow: Table, first: nat, last: nat): nat
    requires first <= last <= |shadow|
    decreases last - first
  {
    if first == last then 0 else (if shadow[first] == 0 then 1 else 0) + Missing(shadow, first + 1, last)
  }

  lemma {:induction false} MissingSame(s: Table, t: Table, first: nat, last: nat)
    requires first <= last <= |s| == |t|
    requires forall i :: first <= i < last ==> s[i] == t[i]
    ensures Missing(s, first, last) == Missing(t, first, last)
    decreases last - first
  {
    if first < last {
      MissingSame(s, t, first + 1, last);
    }
  }

  /** The pages kmalloc will hand out next: page aligned, distinct, and not in use as tables. */
  predicate PoolFresh(pool: seq<nat>, ram: Tables) {
    && (forall i :: 0 <= i < |pool| ==> IsPage(pool[i]) && pool[i] !in ram)
    && (forall i, j :: 0 <= i < j < |pool| ==> pool[i] != pool[j])
  }

  /** Where the table lies in physical memory behind each of the kernel's pointers, and nothing behind NULL. */
  function Framed(frame: nat -> nat, table: Table): (t: Table)
    ensures |t| == |table| && forall i :: 0 <= i < |t| ==> t[i] == if table[i] == 0 then 0 else frame(table[i])
  {
    seq(|table|, i requires 0 <= i < |table| => if table[i] == 0 then 0 else frame(table[i]))
  }

  lemma FramedUpdate(frame: nat -> nat, table: Table, i: nat, page: nat)
    requires i < |table| && page != 0
    ensures Framed(frame, table[i := page]) == Framed(frame, table)[i := frame(page)]
  {
  }

  /** The frames of the given pages. */
  function Frames(frame: nat -> nat, pages: seq<nat>): (f: seq<nat>)
    ensures |f| == |pages| && forall i :: 0 <= i < |f| ==> f[i] == frame(pages[i])
  {
    seq(|pages|, i requires 0 <= i < |pages| => frame(pages[i]))
  }

  predicate PagePointers(pages: seq<nat>) {
    forall i :: 0 <= i < |pages| ==> pages[i] != 0 && pages[i] % PAGE_SIZE == 0
  }

  /** No pointer but NULL leads to frame zero. */
  predicate NoNullFrame(frame: nat -> nat, table: Table) {
    forall i :: 0 <= i < |table| && table[i] != 0 ==> frame(table[i]) != 0
  }

  /** A table after bzero. */
  function Zeroed(): (t: Table)
    ensures |t| == ENTRIES && forall i :: 0 <= i < ENTRIES ==> t[i] == 0
  {
    seq(ENTRIES, i => 0)
  }

  function SetAt(t: Table, i: nat, v: nat): Table
    requires i < |t|
  {
    t[i := v]
  }

  /** An empty table in memory. */
  function WithPage(ram: Tables, page: nat): Tables {
    ram[page := Zeroed()]
  }

  /** Hanging it into a free directory slot, under what is taken for its physical address. */
  function WithTable(ram: Tables, directory: nat, i: nat, page: nat, physical: nat): Tables
    requires directory in ram && i < |ram[directory]|
  {
    WithPage(ram, page)[directory := SetAt(ram[directory], i, DirectoryEntryFor(physical))]
  }

  /** Directory and shadow go on agreeing exactly when that is the page's address. */
  lemma NewTableAgreesIff(ram: Tables, pointers: Table, directory: nat, shadow: Table, i: nat, page: nat, physical: nat)
    requires ShadowAgrees(ram, pointers, directory, shadow)
    requires i < ENTRIES && shadow[i] == 0 && IsPage(page) && page !in ram && physical % PAGE_SIZE == 0
    ensures ShadowAgrees(WithTable(ram, directory, i, page, physical), pointers, directory, shadow[i := page])
            <==> physical == page
  {
    var ram' := WithTable(ram, directory, i, page, physical);
    forall j | 0 <= j < ENTRIES
      ensures j != i ==> SlotAgrees(ram', directory, shadow[i := page], j) && shadow[j] != page
      ensures j == i ==> (SlotAgrees(ram', directory, shadow[i := page], j) <==> physical == page)
    {
      assert SlotAgrees(ram, directory, shadow, j);
    }
  }

  /** Creating a table changes no entry. */
  lemma NewTableKeepsSlots(ram: Tables, pointers: Table, directory: nat, shadow: Table, i: nat, page: nat,
                           physical: nat, q: nat)
    requires ShadowAgrees(ram, pointers, directory, shadow)
    requires i < ENTRIES && shadow[i] == 0 && IsPage(page) && page !in ram && q < ENTRIES * ENTRIES
    ensures SlotOf(WithTable(ram, directory, i, page, physical), shadow[i := page], q) == SlotOf(ram, shadow, q)
  {
    assert SlotAgrees(ram, directory, shadow, q / ENTRIES);
  }

  /** Writing one entry of a table. */
  function WithEntry(ram: Tables, table: nat, pt: nat, entry: nat): Tables
    requires table in ram && pt < |ram[table]|
  {
    ram[table := SetAt(ram[table], pt, entry)]
  }

  lemma EntryKeepsAgreement(ram: Tables, pointers: Table, directory: nat, shadow: Table, pd: nat, pt: nat, entry: nat)
    requires ShadowAgrees(ram, pointers, directory, shadow) && pd < ENTRIES && pt < ENTRIES && shadow[pd] != 0
    ensures SlotAgrees(ram, directory, shadow, pd)
    ensures ShadowAgrees(WithEntry(ram, shadow[pd], pt, entry), pointers, directory, shadow)
  {
    assert SlotAgrees(ram, directory, shadow, pd);
    forall j | 0 <= j < ENTRIES
      ensures SlotAgrees(WithEntry(ram, shadow[pd], pt, entry), directory, shadow, j)
    {
      assert SlotAgrees(ram, directory, shadow, j);
    }
  }

  /** It changes the slot of that page number and no other. */
  lemma EntrySetsSlot(ram: Tables, pointers: Table, directory: nat, shadow: Table, pd: nat, pt: nat, entry: nat, q: nat)
    requires ShadowAgrees(ram, pointers, directory, shadow) && pd < ENTRIES && pt < ENTRIES && shadow[pd] != 0
    requires q < ENTRIES * ENTRIES
    ensures SlotAgrees(ram, directory, shadow, pd)
    ensures SlotOf(WithEntry(ram, shadow[pd], pt, entry), shadow, q)
            == if q == pd * ENTRIES + pt then entry else SlotOf(ram, shadow, q)
  {
    assert SlotAgrees(ram, directory, shadow, pd) && SlotAgrees(ram, directory, shadow, q / ENTRIES);
    assert q == q / ENTRIES * ENTRIES + q % ENTRIES;
  }

  /** The i-th frame from start, on 32 bits. */
  function FrameAt(start: nat, i: nat): (f: nat)
    ensures f < ADDRESS_LIMIT
  {
    (start + i * PAGE_SIZE) % ADDRESS_LIMIT
  }

  /** The entry map_pages writes for the i-th page of a mapping. */
  function MappedEntry(phys: nat, i: nat, flags: nat): nat {
    EntryFor(FrameAt(phys, i), flags)
  }

  // --- mm_physical ---

  /** mm_physical finds a table and an entry within it for this address. It selects the table by bits 31-22
      and the entry by bits 21-12, as if tables had 1024 entries. */
  predicate InReach(ram: Tables, shadow: Table, addr: nat)
    requires |shadow| == ENTRIES
  {
    && addr / 0x40_0000 < ENTRIES
    && shadow[addr / 0x40_0000] != 0 && shadow[addr / 0x40_0000] in ram
    && addr / PAGE_SIZE % 0x400 < |ram[shadow[addr / 0x40_0000]]|
  }

  /** What mm_physical makes of an address. Out of reach it takes for an entry whatever word lies beyond. */
  function PhysicalOf(ram: Tables, shadow: Table, addr: nat, beyond: nat): nat
    requires |shadow| == ENTRIES
  {
    var entry :=
      if InReach(ram, shadow, addr) then ram[shadow[addr / 0x40_0000]][addr / PAGE_SIZE % 0x400] else beyond;
    entry / PAGE_SIZE * PAGE_SIZE % ADDRESS_LIMIT + addr % PAGE_SIZE
  }

  /** mm_physical finds the address, and there. */
  predicate Finds(ram: Tables, shadow: Table, addr: nat, physical: nat)
    requires |shadow| == ENTRIES
  {
    InReach(ram, shadow, addr) && PhysicalOf(ram, shadow, addr, 0) == physical
  }

  /** It finds every one of the pages at its frame. */
  predicate FindsAll(ram: Tables, shadow: Table, pages: seq<nat>, frame: nat -> nat)
    requires |shadow| == ENTRIES
  {
    forall p :: p in pages ==> Finds(ram, shadow, p, frame(p))
  }

  /** mm_physical: the identity while no map is live. */
  method MmPhysical(current: AddressSpace?, addr: nat, beyond: nat) returns (physical: nat)
    requires current != null ==> current.pageTables.Length == ENTRIES
    ensures current == null ==> physical == addr
    ensures current != null ==> physical == PhysicalOf(current.ram, current.Shadow(), addr, beyond)
    ensures physical % PAGE_SIZE == addr % PAGE_SIZE
  {
    if current == null {
      return addr;
    }
    SameIndex(addr);
    var entry := beyond;
    if addr / 0x40_0000 < ENTRIES {
      var ptable := current.pageTables[addr / 0x40_0000];
      var table := current.frame(ptable);
      if ptable != 0 && table != 0 && table in current.ram && addr % 0x40_0000 / PAGE_SIZE < |current.ram[table]| {
        entry := current.ram[table][addr % 0x40_0000 / PAGE_SIZE];
      }
    }
    physical := entry / PAGE_SIZE * PAGE_SIZE % ADDRESS_LIMIT + addr % PAGE_SIZE;
    OffsetKept(entry / PAGE_SIZE, addr);
  }

  lemma SameIndex(addr: nat)
    ensures addr % 0x40_0000 / PAGE_SIZE == addr / PAGE_SIZE % 0x400
  {
    var q, low := addr / 0x40_0000, addr % 0x40_0000;
    assert addr / PAGE_SIZE == q * 0x400 + low / PAGE_SIZE;
    DivModUnique(q, 0x400, low / PAGE_SIZE);
  }

  lemma OffsetKept(f: nat, addr: nat)
    ensures (f * PAGE_SIZE % ADDRESS_LIMIT + addr % PAGE_SIZE) % PAGE_SIZE == addr % PAGE_SIZE
  {
    LowPart(f, 0);
    DivModUnique(f % 0x10_0000, PAGE_SIZE, addr % PAGE_SIZE);
  }

  /** What the creation of a table does to directory, shadow and pool. */
  lemma TableCreated(ram: Tables, pointers: Table, directory: nat, shadow: Table, pages: seq<nat>, i: nat,
                     physical: nat)
    requires ShadowAgrees(ram, pointers, directory, shadow) && PoolFresh(pages, ram) && pages != []
    requires i < ENTRIES && shadow[i] == 0 && physical % PAGE_SIZE == 0
    ensures var ram', shadow' := WithTable(ram, directory, i, pages[0], physical), shadow[i := pages[0]];
            && (ShadowAgrees(ram', pointers, directory, shadow') <==> physical == pages[0])
            && PoolFresh(pages[1..], ram') && pages[0] in ram' && pages[0] != 0
            && forall q :: 0 <= q < ENTRIES * ENTRIES ==> SlotOf(ram', shadow', q) == SlotOf(ram, shadow, q)
  {
    NewTableAgreesIff(ram, pointers, directory, shadow, i, pages[0], physical);
    forall q | 0 <= q < ENTRIES * ENTRIES
      ensures SlotOf(WithTable(ram, directory, i, pages[0], physical), shadow[i := pages[0]], q)
              == SlotOf(ram, shadow, q)
    {
      NewTableKeepsSlots(ram, pointers, directory, shadow, i, pages[0], physical, q);
    }
  }

  lemma TakenAsFound(ram: Tables, shadow: Table, pages: seq<nat>, frame: nat -> nat, i: nat, beyond: nat)
    requires |shadow| == ENTRIES && FindsAll(ram, shadow, pages, frame) && i < |pages|
    ensures PhysicalOf(ram, shadow, pages[i], beyond) == frame(pages[i])
  {
    assert Finds(ram, shadow, pages[i], frame(pages[i]));
  }

  /** A new table takes no page out of mm_physical's sight, whatever goes into the directory. */
  lemma FoundAfterTable(ram: Tables, pointers: Table, directory: nat, shadow: Table, i: nat, page: nat, physical: nat,
                        pages: seq<nat>, frame: nat -> nat)
    requires ShadowAgrees(ram, pointers, directory, shadow)
    requires i < ENTRIES && shadow[i] == 0 && page !in ram && FindsAll(ram, shadow, pages, frame)
    ensures FindsAll(WithPage(ram, page), shadow[i := page], pages, frame)
    ensures FindsAll(WithTable(ram, directory, i, page, physical), shadow[i := page], pages, frame)
  {
    forall p | p in pages
      ensures Finds(WithPage(ram, page), shadow[i := page], p, frame(p))
      ensures Finds(WithTable(ram, directory, i, page, physical), shadow[i := page], p, frame(p))
    {
      assert Finds(ram, shadow, p, frame(p)) && SlotAgrees(ram, directory, shadow, p / 0x40_0000);
    }
  }

  /** If the entry written is the one that mm_physical reads for address p, it leads to the given place. */
  predicate Spares(p: nat, physical: nat, pd: nat, pt: nat, entry: nat) {
    p / 0x40_0000 == pd && p / PAGE_SIZE % 0x400 == pt ==>
      entry / PAGE_SIZE * PAGE_SIZE % ADDRESS_LIMIT + p % PAGE_SIZE == physical
  }

  predicate SparesAll(pages: seq<nat>, frame: nat -> nat, pd: nat, pt: nat, entry: nat) {
    forall p :: p in pages ==> Spares(p, frame(p), pd, pt, entry)
  }

  lemma FoundAfterEntry(ram: Tables, pointers: Table, directory: nat, shadow: Table, pd: nat, pt: nat, entry: nat,
                        pages: seq<nat>, frame: nat -> nat)
    requires ShadowAgrees(ram, pointers, directory, shadow) && pd < ENTRIES && pt < ENTRIES && shadow[pd] != 0
    requires FindsAll(ram, shadow, pages, frame) && SparesAll(pages, frame, pd, pt, entry)
    ensures SlotAgrees(ram, directory, shadow, pd)
    ensures FindsAll(WithEntry(ram, shadow[pd], pt, entry), shadow, pages, frame)
  {
    assert SlotAgrees(ram, directory, shadow, pd);
    forall p | p in pages
      ensures Finds(WithEntry(ram, shadow[pd], pt, entry), shadow, p, frame(p))
    {
      assert Finds(ram, shadow, p, frame(p)) && Spares(p, frame(p), pd, pt, entry);
    }
  }

  /** Mapping the range changes none of the entries by which mm_physical finds the pages. */
  predicate RangeSpares(p: nat, physical: nat, startPage: nat, pages: nat, phys: nat, flags: nat) {
    var q := p / 0x40_0000 * ENTRIES + p / PAGE_SIZE % 0x400;
    startPage <= q < startPage + pages ==>
      Spares(p, physical, p / 0x40_0000, p / PAGE_SIZE % 0x400, MappedEntry(phys, q - startPage, flags))
  }

  predicate RangeSparesAll(pool: seq<nat>, frame: nat -> nat, startPage: nat, pages: nat, phys: nat, flags: nat) {
    forall p :: p in pool ==> RangeSpares(p, frame(p), startPage, pages, phys, flags)
  }

  lemma RangeSparesPage(pool0: seq<nat>, pool: seq<nat>, frame: nat -> nat, startPage: nat, pages: nat, phys: nat,
                        flags: nat, i: nat, pd: nat, pt: nat)
    requires RangeSparesAll(pool0, frame, startPage, pages, phys, flags)
    requires i < pages && pd * ENTRIES + pt == startPage + i
    requires forall p :: p in pool ==> p in pool0
    ensures SparesAll(pool, frame, pd, pt, MappedEntry(phys, i, flags))
  {
    forall p | p in pool
      ensures Spares(p, frame(p), pd, pt, MappedEntry(phys, i, flags))
    {
      assert RangeSpares(p, frame(p), startPage, pages, phys, flags);
    }
  }

  lemma NextFrame(start: nat, i: nat)
    ensures (FrameAt(start, i) + PAGE_SIZE) % ADDRESS_LIMIT == FrameAt(start, i + 1)
  {
    NextWrapped(start + i * PAGE_SIZE);
  }

  lemma NextWrapped(x: nat)
    ensures (x % ADDRESS_LIMIT + PAGE_SIZE) % ADDRESS_LIMIT == (x + PAGE_SIZE) % ADDRESS_LIMIT
  {
  }

  /** A map as it was before pages were mapped. */
  datatype Before = Before(ram: Tables, shadow: Table, pool: seq<nat>, directory: nat, pointers: Table)

  /** A map. The kernel's pointers are addresses it can use; frame says where in physical memory the
      processor finds the page behind one. While no map is live that is the pointer itself. */
  class AddressSpace {
    const frame: nat -> nat
    var ram: Tables
    var pointers: Table
    var directory: nat
    const pageTables: array<nat>
    var pool: seq<nat>

    /** Where the page tables lie in physical memory. */
    ghost function Shadow(): (t: Table)
      reads this, pageTables
      ensures |t| == pageTables.Length
    {
      Framed(frame, pageTables[..])
    }

    /** The directory that the processor reads holds the tables' physical addresses, and the pages kmalloc
        will hand out lie in memory of their own. */
    ghost predicate Valid()
      reads this, pageTables
    {
      && pageTables.Length == ENTRIES
      && ShadowAgrees(ram, pointers, frame(directory), Shadow())
      && InOrder()
    }

    /** (The conjunctions here have names so that the verifier proves them as a whole where they are goals.) */
    ghost predicate InOrder()
      reads this, pageTables
    {
      var ordered := NoNullFrame(frame, pageTables[..]) && PoolFresh(Frames(frame, pool), ram) && PagePointers(pool);
      ordered
    }

    /** The processor's translation of address a. */
    ghost function TranslationOf(a: nat): Option<Translation>
      requires Valid() && a < ADDRESS_LIMIT
      reads this, pageTables
    {
      Walk(ram, pointers, a)
    }

    /** mk_mmap: a zeroed directory and a pointer table with one entry, for which the kernel's pointer to the
        directory is taken as it is. The table of page tables is left as kmalloc returned it. So the new map
        is in order exactly when the directory lies at its own address and those 512 words happen to be
        zero. */
    constructor (frame: nat -> nat, directoryPage: nat, uninitialised: array<nat>, pages: seq<nat>)
      requires uninitialised.Length == ENTRIES
      requires IsPage(frame(directoryPage)) && PagePointers(pages)
      requires PoolFresh([frame(directoryPage)] + Frames(frame, pages), map[])
      ensures this.frame == frame
      ensures pageTables == uninitialised && pool == pages && directory == directoryPage
      ensures ram == map[frame(directoryPage) := Zeroed()] && pointers == [directoryPage + PG_PRESENT, 0, 0, 0]
      ensures Valid() <==>
                frame(directoryPage) == directoryPage && forall i :: 0 <= i < ENTRIES ==> uninitialised[i] == 0
      ensures Valid() ==> forall a :: 0 <= a < ADDRESS_LIMIT ==> TranslationOf(a) == None
    {
      this.frame := frame;
      ram := map[frame(directoryPage) := Zeroed()];
      pointers := [directoryPage + PG_PRESENT, 0, 0, 0];
      directory := directoryPage;
      pageTables := uninitialised;
      pool := pages;
      new;
      FreshPool(frame(directoryPage), Frames(frame, pages));
      FreshMap(ram, pointers, frame(directoryPage), directoryPage, Framed(frame, pageTables[..]));
      assert forall i :: 0 <= i < ENTRIES ==> pageTables[..][i] == uninitialised[i];
    }

    /** The live map, if there is one, is this one, or takes the kernel's pointers to the same frames and
        shares no table of page tables with this one. */
    ghost predicate Beside(current: AddressSpace?)
      reads this
    {
      || current == null
      || current == this
      || (current.pageTables.Length == ENTRIES && current.pageTables != pageTables && current.frame == frame)
    }

    /** mm_physical takes every page of the pool to its frame. */
    ghost predicate Sees(current: AddressSpace?)
      requires pageTables.Length == ENTRIES && Beside(current)
      reads this, pageTables
      reads if current == null then {} else {current, current.pageTables}
    {
      var sees :=
        if current == null then forall p :: p in pool ==> frame(p) == p
        else FindsAll(current.ram, current.Shadow(), pool, frame);
      sees
    }

    /** What mm_physical returns for a page that has just become table pd of this map. */
    ghost function TakenFor(current: AddressSpace?, before: Tables, page: nat, beyond: nat): nat
      requires pageTables.Length == ENTRIES && Beside(current)
      reads this, pageTables
      reads if current == null then {} else {current, current.pageTables}
    {
      if current == null then page
      else if current == this then PhysicalOf(WithPage(before, frame(page)), Shadow(), page, beyond)
      else PhysicalOf(current.ram, current.Shadow(), page, beyond)
    }

    /** get_pt_entry: the table for the slot, created on demand. Creating it changes no entry, and keeps
        directory and page_tables in step exactly when mm_physical takes the new page to its frame; so it
        does where it takes all pages of the pool to theirs. */
    method GetPtEntry(current: AddressSpace?, pd: nat, pt: nat, beyond: nat) returns (table: nat)
      requires Valid() && Beside(current)
      requires pd < ENTRIES && pt < ENTRIES
      requires pageTables[pd] == 0 ==> pool != []
      modifies this, pageTables
      ensures table == pageTables[pd] != 0 && frame(table) in ram
      ensures Valid() <==> old(pageTables[pd]) != 0 || TakenFor(current, old(ram), table, beyond) == frame(table)
      ensures old(Sees(current)) ==> Valid() && Sees(current)
      ensures directory == old(directory) && pointers == old(pointers)
      ensures if old(pageTables[pd]) == 0 then
                pageTables[..] == old(pageTables[..])[pd := table] && [table] + pool == old(pool)
              else
                pageTables[..] == old(pageTables[..]) && pool == old(pool) && ram == old(ram)
      ensures forall q :: 0 <= q < ENTRIES * ENTRIES ==>
                SlotOf(ram, Shadow(), q) == SlotOf(old(ram), old(Shadow()), q)
    {
      table := pageTables[pd];
      assert SlotAgrees(ram, frame(directory), Shadow(), pd);
      if table == 0 {
        ghost var ram0, shadow, pages := ram, Shadow(), pool;
        ghost var found := Sees(current);
        table := CreateTable(current, pd, beyond);
        ghost var physical := TakenFor(current, ram0, table, beyond);
        TableCreated(ram0, pointers, frame(directory), shadow, Frames(frame, pages), pd, physical);
        assert Frames(frame, pages)[1..] == Frames(frame, pool);
        if found && current == this {
          FoundAfterTable(ram0, pointers, frame(directory), shadow, pd, frame(table), physical, pages, frame);
          TakenAsFound(WithPage(ram0, frame(table)), Shadow(), pages, frame, 0, beyond);
        } else if found && current != null {
          TakenAsFound(current.ram, current.Shadow(), pages, frame, 0, beyond);
        }
      }
    }

    /** The assignments that create a table, in their order. */
    method CreateTable(current: AddressSpace?, pd: nat, beyond: nat) returns (table: nat)
      requires Valid() && Beside(current) && pd < ENTRIES && pageTables[pd] == 0 && pool != []
      modifies this, pageTables
      ensures pageTables.Length == ENTRIES && Beside(current)
      ensures directory == old(directory) && pointers == old(pointers)
      ensures table == old(pool)[0] && pool == old(pool)[1..]
      ensures pageTables[..] == old(pageTables[..])[pd := table] && Shadow() == old(Shadow())[pd := frame(table)]
      ensures ram == WithTable(old(ram), frame(directory), pd, frame(table), TakenFor(current, old(ram), table, beyond))
      ensures TakenFor(current, old(ram), table, beyond) % PAGE_SIZE == 0
    {
      ghost var ram0, was := ram, pageTables[..];
      table := pool[0];
      pool := pool[1..];
      ram := WithPage(ram, frame(table));
      pageTables[pd] := table;
      assert pageTables[..] == was[pd := table];
      FramedUpdate(frame, was, pd, table);
      var physical := MmPhysical(current, table, beyond);
      DirectoryEntryIsOr(physical);
      assert physical == TakenFor(current, ram0, table, beyond);
      var pageDir := frame(directory);
      ghost var tables := ram[pageDir := SetAt(ram[pageDir], pd, DirectoryEntryFor(physical))];
      ram := ram[pageDir := SetAt(ram[pageDir], pd, BitOr(BitOr(BitOr(physical, PG_PRESENT), PG_USER), PG_RDWR))];
      assert ram == tables;
      assert ram == WithTable(ram0, pageDir, pd, frame(table), physical);
      assert TakenFor(current, ram0, table, beyond) == physical;
    }

    /** map_pages: consecutive pages from startPage on are mapped to consecutive frames; every other page
        keeps its entry. A live map must show mm_physical the pages of the pool, and go on doing so. */
    method MapPages(current: AddressSpace?, startPage: nat, pages: nat, startAddr: nat, flags: nat)
      requires Valid() && Beside(current) && Sees(current)
      requires startPage + pages <= ENTRIES * ENTRIES && startAddr < ADDRESS_LIMIT && flags < PAGE_SIZE
      requires Missing(pageTables[..], startPage / ENTRIES, DirectoryEnd(startPage, pages)) <= |pool|
      requires current == this ==> RangeSparesAll(pool, frame, startPage, pages, FrameStart(startAddr), flags)
      modifies this, pageTables
      ensures Valid() && Sees(current) && directory == old(directory) && pointers == old(pointers)
      ensures SlotsAfter(ram, Shadow(), old(ram), old(Shadow()), startPage, pages, FrameStart(startAddr), flags)
    {
      ghost var before := Before(ram, Shadow(), pool, directory, pointers);
      FirstSlot(startPage, startAddr);
      Begin(current, before, startPage, FrameStart(startAddr), flags);
      MapFrom(current, startPage / ENTRIES, startPage % ENTRIES, FrameStart(startAddr), pages, flags,
              before, startPage, DirectoryEnd(startPage, pages));
      End(current, before, startPage, pages, FrameStart(startAddr), flags);
    }

    /** The loop of map_pages, with its first slot and its first frame. */
    method MapFrom(current: AddressSpace?, firstPd: nat, firstPt: nat, first: nat, pages: nat, flags: nat,
                   ghost before: Before, ghost startPage: nat, ghost last: nat)
      requires pageTables.Length == ENTRIES == |before.shadow| && Beside(current)
      requires firstPt < ENTRIES && firstPd * ENTRIES + firstPt == startPage && startPage + pages <= ENTRIES * ENTRIES
      requires first % PAGE_SIZE == 0 && first == FrameAt(first, 0) && flags < PAGE_SIZE
      requires firstPd <= last == DirectoryEnd(startPage, pages)
      requires Missing(pageTables[..], firstPd, last) <= |pool|
      requires current == this ==> RangeSparesAll(before.pool, frame, startPage, pages, first, flags)
      requires Underway(current, before, startPage, 0, first, flags)
      modifies this, pageTables
      ensures Underway(current, before, startPage, pages, first, flags)
    {
      var pt: nat, pd: nat, phys: nat, i: nat := firstPt, firstPd, first, 0;
      while i < pages
        invariant i <= pages && pt < ENTRIES && pd * ENTRIES + pt == startPage + i
        invariant phys == FrameAt(first, i)
        invariant Underway(current, before, startPage, i, first, flags)
        invariant pd <= last && Missing(pageTables[..], pd, last) <= |pool|
      {
        MapRound(current, pd, pt, phys, flags, last, before, startPage, pages, first, i);
        phys := (phys + PAGE_SIZE) % ADDRESS_LIMIT;
        pt := pt + 1;
        if pt == ENTRIES {
          pt := 0;
          pd := pd + 1;
        }
        i := i + 1;
      }
    }

    /** map_pages has mapped the first i pages, and the rest is as it was before. */
    ghost predicate Underway(current: AddressSpace?, before: Before, startPage: nat, i: nat, first: nat, flags: nat)
      requires pageTables.Length == ENTRIES == |before.shadow| && Beside(current)
      reads this, pageTables
      reads if current == null then {} else {current, current.pageTables}
    {
      var underway :=
        && Valid() && Sees(current) && directory == before.directory && pointers == before.pointers
        && (forall p :: p in pool ==> p in before.pool)
        && SlotsAfter(ram, Shadow(), before.ram, before.shadow, startPage, i, first, flags);
      underway
    }

    lemma Begin(current: AddressSpace?, before: Before, startPage: nat, first: nat, flags: nat)
      requires Valid() && Beside(current) && Sees(current)
      requires before == Before(ram, Shadow(), pool, directory, pointers)
      ensures Underway(current, before, startPage, 0, first, flags)
    {
      NothingMapped(ram, Shadow(), startPage, first, flags);
    }

    lemma End(current: AddressSpace?, before: Before, startPage: nat, pages: nat, first: nat, flags: nat)
      requires pageTables.Length == ENTRIES == |before.shadow| && Beside(current)
      requires Underway(current, before, startPage, pages, first, flags)
      ensures Valid() && Sees(current) && directory == before.directory && pointers == before.pointers
      ensures SlotsAfter(ram, Shadow(), before.ram, before.shadow, startPage, pages, first, flags)
    {
    }

    /** One round of map_pages. */
    method MapRound(current: AddressSpace?, pd: nat, pt: nat, phys: nat, flags: nat, ghost last: nat,
                    ghost before: Before, ghost startPage: nat, ghost pages: nat, ghost first: nat, ghost i: nat)
      requires pageTables.Length == ENTRIES == |before.shadow| && Beside(current)
      requires i < pages && pd * ENTRIES + pt == startPage + i && startPage + pages <= ENTRIES * ENTRIES
      requires pt < ENTRIES && pd <= last == DirectoryEnd(startPage, pages)
      requires phys == FrameAt(first, i) && first % PAGE_SIZE == 0 && flags < PAGE_SIZE
      requires Missing(pageTables[..], pd, last) <= |pool|
      requires current == this ==> RangeSparesAll(before.pool, frame, startPage, pages, first, flags)
      requires Underway(current, before, startPage, i, first, flags)
      modifies this, pageTables
      ensures pd < last && (phys + PAGE_SIZE) % ADDRESS_LIMIT == FrameAt(first, i + 1)
      ensures Missing(pageTables[..], pd, last) <= |pool| && Missing(pageTables[..], pd + 1, last) <= |pool|
      ensures Underway(current, before, startPage, i + 1, first, flags)
    {
      RoundSteps(startPage, pages, i, pd, pt, first, phys, flags);
      if current == this {
        RangeSparesPage(before.pool, pool, frame, startPage, pages, first, flags, i, pd, pt);
      }
      ghost var ram0, shadow0 := ram, Shadow();
      MapPage(current, pd, pt, BitOr(BitOr(phys, PG_PRESENT), flags), last);
      OneMoreMapped(before.ram, before.shadow, ram0, shadow0, ram, Shadow(), startPage, i, first, flags);
    }

    /** The page table entry of one page. */
    method MapPage(current: AddressSpace?, pd: nat, pt: nat, entry: nat, ghost last: nat)
      requires Valid() && Beside(current) && Sees(current) && pd < last <= ENTRIES && pt < ENTRIES
      requires Missing(pageTables[..], pd, last) <= |pool|
      requires current == this ==> SparesAll(pool, frame, pd, pt, entry)
      modifies this, pageTables
      ensures Valid() && Sees(current) && directory == old(directory) && pointers == old(pointers)
      ensures forall p :: p in pool ==> p in old(pool)
      ensures Missing(pageTables[..], pd, last) <= |pool| && Missing(pageTables[..], pd + 1, last) <= |pool|
      ensures forall q :: 0 <= q < ENTRIES * ENTRIES ==>
                SlotOf(ram, Shadow(), q)
                == if q == pd * ENTRIES + pt then entry else SlotOf(old(ram), old(Shadow()), q)
    {
      var table := GetPtEntry(current, pd, pt, 0);
      MissingSame(old(pageTables[..]), pageTables[..], pd + 1, last);
      WriteEntry(current, table, pd, pt, entry);
    }

    /** The assignment to the entry that get_pt_entry points to. */
    method WriteEntry(current: AddressSpace?, table: nat, pd: nat, pt: nat, entry: nat)
      requires Valid() && Beside(current) && Sees(current) && pd < ENTRIES && pt < ENTRIES
      requires table == pageTables[pd] != 0
      requires current == this ==> SparesAll(pool, frame, pd, pt, entry)
      modifies this`ram
      ensures Valid() && Sees(current)
      ensures forall q :: 0 <= q < ENTRIES * ENTRIES ==>
                SlotOf(ram, Shadow(), q)
                == if q == pd * ENTRIES + pt then entry else SlotOf(old(ram), Shadow(), q)
    {
      ghost var shadow, page := Shadow(), frame(table);
      EntryKeepsAgreement(ram, pointers, frame(directory), shadow, pd, pt, entry);
      forall q | 0 <= q < ENTRIES * ENTRIES
        ensures SlotOf(WithEntry(ram, page, pt, entry), shadow, q)
                == if q == pd * ENTRIES + pt then entry else SlotOf(ram, shadow, q)
      {
        EntrySetsSlot(ram, pointers, frame(directory), shadow, pd, pt, entry, q);
      }
      if current == this {
        FoundAfterEntry(ram, pointers, frame(directory), shadow, pd, pt, entry, pool, frame);
      }
      ram := WithEntry(ram, frame(table), pt, entry);
    }

    /** mm_map: afterwards the processor's translations are as Remapped says. */
    method MmMap(current: AddressSpace?, startVirt: nat, startPhys: nat, n: nat, flags: nat)
      requires Valid() && Beside(current) && Sees(current)
      requires startVirt + RoundedUp(n) <= DIRECTORY_REACH && startPhys < ADDRESS_LIMIT && flags < PAGE_SIZE
      requires Missing(pageTables[..], startVirt / PAGE_SIZE / ENTRIES,
                       DirectoryEnd(startVirt / PAGE_SIZE, RoundedUp(n) / PAGE_SIZE)) <= |pool|
      requires current == this ==>
                 RangeSparesAll(pool, frame, startVirt / PAGE_SIZE, RoundedUp(n) / PAGE_SIZE, FrameStart(startPhys),
                                flags)
      modifies this, pageTables
      ensures Valid() && Sees(current)
      ensures Remapped(old(ram), old(pointers), ram, pointers, startVirt, startPhys, n, flags)
    {
      if startVirt % PAGE_SIZE != 0 || startPhys % PAGE_SIZE != 0 {
        return;
      }
      if n < 1 {
        return;
      }
      WholePages(n);
      var pageCount := n / PAGE_SIZE;
      if n % PAGE_SIZE != 0 {
        pageCount := pageCount + 1;
      }
      ghost var ram0, shadow0 := ram, Shadow();
      MapPages(current, startVirt / PAGE_SIZE, pageCount, startPhys, flags);
      MappedRange(ram0, shadow0, ram, Shadow(), pointers, frame(directory), startVirt, startPhys, n, flags);
    }
  }

  /** One past the last directory slot that a range of pages touches. */
  function DirectoryEnd(startPage: nat, pages: nat): nat
    requires startPage + pages <= ENTRIES * ENTRIES
    ensures startPage / ENTRIES <= DirectoryEnd(startPage, pages) <= ENTRIES
  {
    (startPage + pages + (ENTRIES - 1)) / ENTRIES
  }

  lemma BeforeEnd(startPage: nat, pages: nat, i: nat, pd: nat, pt: nat)
    requires startPage + pages <= ENTRIES * ENTRIES && i < pages
    requires pt < ENTRIES && pd * ENTRIES + pt == startPage + i
    ensures pd < DirectoryEnd(startPage, pages)
  {
  }

  /** The arithmetic of one round of map_pages. */
  lemma RoundSteps(startPage: nat, pages: nat, i: nat, pd: nat, pt: nat, first: nat, phys: nat, flags: nat)
    requires startPage + pages <= ENTRIES * ENTRIES && i < pages
    requires pt < ENTRIES && pd * ENTRIES + pt == startPage + i
    requires first % PAGE_SIZE == 0 && phys == FrameAt(first, i) && flags < PAGE_SIZE
    ensures pd < DirectoryEnd(startPage, pages)
    ensures (phys + PAGE_SIZE) % ADDRESS_LIMIT == FrameAt(first, i + 1)
    ensures BitOr(BitOr(phys, PG_PRESENT), flags) == MappedEntry(first, i, flags)
  {
    BeforeEnd(startPage, pages, i, pd, pt);
    NextFrame(first, i);
    FrameAddress(first, i, 0);
    EntryIsOr(phys, flags);
  }

  lemma WholePages(n: nat)
    ensures RoundedUp(n) == (n / PAGE_SIZE + if n % PAGE_SIZE != 0 then 1 else 0) * PAGE_SIZE
    ensures RoundedUp(n) / PAGE_SIZE == n / PAGE_SIZE + if n % PAGE_SIZE != 0 then 1 else 0
  {
  }

  function RoundedUp(n: nat): nat {
    (n + (PAGE_SIZE - 1)) / PAGE_SIZE * PAGE_SIZE
  }

  function FrameStart(a: nat): nat {
    a / PAGE_SIZE * PAGE_SIZE
  }

  /** The entry of page q after count pages from startPage on have been mapped. */
  function SlotAfter(ram: Tables, shadow: Table, startPage: nat, count: nat, phys: nat, flags: nat, q: nat): nat
    requires |shadow| == ENTRIES && q < ENTRIES * ENTRIES
  {
    if startPage <= q < startPage + count then MappedEntry(phys, q - startPage, flags) else SlotOf(ram, shadow, q)
  }

  /** So is every page's. */
  predicate SlotsAfter(ram: Tables, shadow: Table, ram0: Tables, shadow0: Table, startPage: nat, count: nat,
                       phys: nat, flags: nat)
    requires |shadow| == |shadow0| == ENTRIES
  {
    var after := forall q :: 0 <= q < ENTRIES * ENTRIES ==>
                   SlotOf(ram, shadow, q) == SlotAfter(ram0, shadow0, startPage, count, phys, flags, q);
    after
  }

  lemma NothingMapped(ram: Tables, shadow: Table, startPage: nat, phys: nat, flags: nat)
    requires |shadow| == ENTRIES
    ensures SlotsAfter(ram, shadow, ram, shadow, startPage, 0, phys, flags)
  {
  }

  lemma FirstSlot(startPage: nat, startAddr: nat)
    requires startAddr < ADDRESS_LIMIT
    ensures startPage / ENTRIES * ENTRIES + startPage % ENTRIES == startPage
    ensures FrameAt(FrameStart(startAddr), 0) == FrameStart(startAddr) && FrameStart(startAddr) % PAGE_SIZE == 0
  {
  }

  lemma OneMoreMapped(ram0: Tables, shadow0: Table, ram: Tables, shadow: Table, ram': Tables, shadow': Table,
                      startPage: nat, i: nat, phys: nat, flags: nat)
    requires |shadow0| == |shadow| == |shadow'| == ENTRIES
    requires SlotsAfter(ram, shadow, ram0, shadow0, startPage, i, phys, flags)
    requires forall q :: 0 <= q < ENTRIES * ENTRIES ==>
               SlotOf(ram', shadow', q)
               == if q == startPage + i then MappedEntry(phys, i, flags) else SlotOf(ram, shadow, q)
    ensures SlotsAfter(ram', shadow', ram0, shadow0, startPage, i + 1, phys, flags)
  {
  }

  lemma MappedWalk(ram0: Tables, shadow0: Table, ram: Tables, shadow: Table, pointers: Table, directory: nat,
                   startPage: nat, pages: nat, phys: nat, flags: nat, a: nat)
    requires ShadowAgrees(ram0, pointers, directory, shadow0) && ShadowAgrees(ram, pointers, directory, shadow)
    requires startPage + pages <= ENTRIES * ENTRIES && flags < PAGE_SIZE && a < ADDRESS_LIMIT
    requires phys % PAGE_SIZE == 0
    requires SlotsAfter(ram, shadow, ram0, shadow0, startPage, pages, phys, flags)
    ensures Walk(ram, pointers, a) ==
              if startPage * PAGE_SIZE <= a < (startPage + pages) * PAGE_SIZE then
                Some(Translation((phys + (a - startPage * PAGE_SIZE)) % ADDRESS_LIMIT, Writable(flags), User(flags)))
              else Walk(ram0, pointers, a)
  {
    WalkIsLookup(ram, pointers, directory, shadow, a);
    WalkIsLookup(ram0, pointers, directory, shadow0, a);
    var q := a / PAGE_SIZE;
    if startPage <= q < startPage + pages {
      MappedEntryTranslates(phys, q - startPage, flags, a);
    }
  }

  lemma MappedWalks(ram0: Tables, shadow0: Table, ram: Tables, shadow: Table, pointers: Table, directory: nat,
                    startPage: nat, pages: nat, phys: nat, flags: nat)
    requires ShadowAgrees(ram0, pointers, directory, shadow0) && ShadowAgrees(ram, pointers, directory, shadow)
    requires startPage + pages <= ENTRIES * ENTRIES && flags < PAGE_SIZE && phys % PAGE_SIZE == 0
    requires SlotsAfter(ram, shadow, ram0, shadow0, startPage, pages, phys, flags)
    ensures forall a :: 0 <= a < ADDRESS_LIMIT ==>
              Walk(ram, pointers, a) ==
                if startPage * PAGE_SIZE <= a < (startPage + pages) * PAGE_SIZE then
                  Some(Translation((phys + (a - startPage * PAGE_SIZE)) % ADDRESS_LIMIT, Writable(flags), User(flags)))
                else Walk(ram0, pointers, a)
  {
    forall a | 0 <= a < ADDRESS_LIMIT
      ensures Walk(ram, pointers, a) ==
                if startPage * PAGE_SIZE <= a < (startPage + pages) * PAGE_SIZE then
                  Some(Translation((phys + (a - startPage * PAGE_SIZE)) % ADDRESS_LIMIT, Writable(flags), User(flags)))
                else Walk(ram0, pointers, a)
    {
      MappedWalk(ram0, shadow0, ram, shadow, pointers, directory, startPage, pages, phys, flags, a);
    }
  }

  predicate Walkable(ram: Tables, pointers: Table) {
    |pointers| == 4 && forall p :: p in ram ==> |ram[p]| == ENTRIES
  }

  /** What mm_map does to the processor's translations. An address that is not page aligned, or an empty
      range, changes nothing. Otherwise the processor takes every address of the range, rounded up to whole
      pages, to the same offset from startPhys with the rights in flags, and every other address as before. */
  ghost predicate Remapped(ram: Tables, pointers: Table, ram': Tables, pointers': Table,
                           startVirt: nat, startPhys: nat, n: nat, flags: nat)
    requires Walkable(ram, pointers) && Walkable(ram', pointers')
  {
    var remapped :=
      forall a :: 0 <= a < ADDRESS_LIMIT ==>
        Walk(ram', pointers', a) ==
          if startVirt % PAGE_SIZE == 0 && startPhys % PAGE_SIZE == 0 && startVirt <= a < startVirt + RoundedUp(n) then
            Some(Translation((startPhys + (a - startVirt)) % ADDRESS_LIMIT, Writable(flags), User(flags)))
          else Walk(ram, pointers, a);
    remapped
  }

  lemma RangeInPages(startVirt: nat, startPhys: nat, n: nat)
    requires startVirt % PAGE_SIZE == 0 && startPhys % PAGE_SIZE == 0
    ensures startVirt / PAGE_SIZE * PAGE_SIZE == startVirt && FrameStart(startPhys) == startPhys
    ensures (startVirt / PAGE_SIZE + RoundedUp(n) / PAGE_SIZE) * PAGE_SIZE == startVirt + RoundedUp(n)
  {
  }

  /** In the terms of mm_map. */
  lemma MappedRange(ram0: Tables, shadow0: Table, ram: Tables, shadow: Table, pointers: Table, directory: nat,
                    startVirt: nat, startPhys: nat, n: nat, flags: nat)
    requires ShadowAgrees(ram0, pointers, directory, shadow0) && ShadowAgrees(ram, pointers, directory, shadow)
    requires startVirt % PAGE_SIZE == 0 && startPhys % PAGE_SIZE == 0 && flags < PAGE_SIZE
    requires startVirt + RoundedUp(n) <= DIRECTORY_REACH
    requires SlotsAfter(ram, shadow, ram0, shadow0, startVirt / PAGE_SIZE, RoundedUp(n) / PAGE_SIZE,
                        FrameStart(startPhys), flags)
    ensures Remapped(ram0, pointers, ram, pointers, startVirt, startPhys, n, flags)
  {
    var startPage, pages := startVirt / PAGE_SIZE, RoundedUp(n) / PAGE_SIZE;
    RangeInPages(startVirt, startPhys, n);
    MappedWalks(ram0, shadow0, ram, shadow, pointers, directory, startPage, pages, startPhys, flags);
  }

  lemma MappedEntryTranslates(phys: nat, i: nat, flags: nat, a: nat)
    requires phys % PAGE_SIZE == 0 && flags < PAGE_SIZE
    ensures Translate(MappedEntry(phys, i, flags), a)
            == Some(Translation((phys + i * PAGE_SIZE + a % PAGE_SIZE) % ADDRESS_LIMIT, Writable(flags), User(flags)))
  {
    FrameAddress(phys, i, a % PAGE_SIZE);
    FlaggedTranslates((phys + i * PAGE_SIZE) % ADDRESS_LIMIT, flags, a);
  }

  lemma FrameAddress(phys: nat, i: nat, offset: nat)
    requires phys % PAGE_SIZE == 0 && offset < PAGE_SIZE
    ensures (phys + i * PAGE_SIZE) % ADDRESS_LIMIT % PAGE_SIZE == 0
    ensures (phys + i * PAGE_SIZE + offset) % ADDRESS_LIMIT == (phys + i * PAGE_SIZE) % ADDRESS_LIMIT + offset
  {
    var f := phys / PAGE_SIZE + i;
    assert f * PAGE_SIZE == phys + i * PAGE_SIZE;
    LowPart(f, 0);
    LowPart(f, offset);
  }

  lemma FlaggedTranslates(page: nat, flags: nat, a: nat)
    requires page % PAGE_SIZE == 0 && page < ADDRESS_LIMIT && flags < PAGE_SIZE
    ensures Translate(EntryFor(page, flags), a)
            == Some(Translation(page + a % PAGE_SIZE, Writable(flags), User(flags)))
  {
    PresentFlags(flags);
    FrameOfFlagged(page, flags / 2 * 2 + PG_PRESENT);
  }

  lemma PresentFlags(flags: nat)
    requires flags < PAGE_SIZE
    ensures var f := flags / 2 * 2 + PG_PRESENT;
            f < PAGE_SIZE && Present(f) && Writable(f) == Writable(flags) && User(f) == User(flags)
  {
    var h := flags / 2;
    assert (h * 2 + 1) / 2 == h && (h * 2 + 1) / 4 == h / 2 && flags / 4 == h / 2;
  }

  // --- mm_physical on the kernel's own map ---

  /** The address whose table entry mm_physical actually reads for addr. */
  function Squashed(addr: nat): nat {
    addr / 0x40_0000 * 0x20_0000 + addr % 0x20_0000
  }

  /** The entry mm_physical selects lies in the 512-entry table exactly in the lower half of every 4 MB. */
  lemma ReachIff(ram: Tables, shadow: Table, addr: nat)
    requires |shadow| == ENTRIES && addr / 0x40_0000 < ENTRIES
    requires shadow[addr / 0x40_0000] != 0 && shadow[addr / 0x40_0000] in ram
    requires |ram[shadow[addr / 0x40_0000]]| == ENTRIES
    ensures InReach(ram, shadow, addr) <==> addr % 0x40_0000 < 0x20_0000
  {
  }

  /** Within reach mm_physical returns, on 32 bits, what the processor makes of the squashed address. */
  lemma PhysicalIsSquashedWalk(ram: Tables, pointers: Table, directory: nat, shadow: Table, addr: nat, beyond: nat)
    requires ShadowAgrees(ram, pointers, directory, shadow) && InReach(ram, shadow, addr) && addr < ADDRESS_LIMIT
    requires Walk(ram, pointers, Squashed(addr)).Some?
    ensures PhysicalOf(ram, shadow, addr, beyond)
            == Walk(ram, pointers, Squashed(addr)).value.physical % ADDRESS_LIMIT
  {
    ReachIff(ram, shadow, addr);
    var pd := addr / 0x40_0000;
    SquashedIndices(addr);
    WalkIsLookup(ram, pointers, directory, shadow, Squashed(addr));
    FrameLow(ram[shadow[pd]][addr / PAGE_SIZE % 0x400], addr % PAGE_SIZE);
  }

  /** Where the processor translates the squashed address, mm_physical finds a table for this one. */
  lemma SquashedMapped(ram: Tables, pointers: Table, directory: nat, shadow: Table, addr: nat)
    requires ShadowAgrees(ram, pointers, directory, shadow)
    requires addr < 0x8000_0000 && addr % 0x40_0000 < 0x20_0000
    requires Squashed(addr) < ADDRESS_LIMIT && Walk(ram, pointers, Squashed(addr)).Some?
    ensures InReach(ram, shadow, addr)
  {
    SquashedIndices(addr);
    WalkIsLookup(ram, pointers, directory, shadow, Squashed(addr));
    assert SlotAgrees(ram, directory, shadow, addr / 0x40_0000);
  }

  /** Below 2 MB mm_physical is the processor's translation, in every map and for every address mapped. */
  lemma PhysicalIsWalk(ram: Tables, pointers: Table, directory: nat, shadow: Table, addr: nat, beyond: nat)
    requires ShadowAgrees(ram, pointers, directory, shadow) && addr < 0x20_0000
    requires Walk(ram, pointers, addr).Some?
    ensures InReach(ram, shadow, addr)
    ensures PhysicalOf(ram, shadow, addr, beyond) == Walk(ram, pointers, addr).value.physical % ADDRESS_LIMIT
  {
    assert Squashed(addr) == addr;
    SquashedMapped(ram, pointers, directory, shadow, addr);
    PhysicalIsSquashedWalk(ram, pointers, directory, shadow, addr, beyond);
  }

  /** The map that setup_paging makes: the addresses below end one to one, and no others. */
  ghost predicate MapsImage(ram: Tables, pointers: Table, end: nat)
    requires Walkable(ram, pointers)
  {
    forall a :: 0 <= a < ADDRESS_LIMIT ==>
      Walk(ram, pointers, a) == if a < end then Some(Translation(a, true, false)) else None
  }

  lemma ImageAt(ram: Tables, pointers: Table, end: nat, a: nat)
    requires Walkable(ram, pointers)
    requires MapsImage(ram, pointers, end) && a < end <= DIRECTORY_REACH
    ensures Walk(ram, pointers, a) == Some(Translation(a, true, false))
  {
  }

  /** In that map mm_physical takes every address in its reach to the squashed one. */
  lemma ImageSquashed(ram: Tables, pointers: Table, directory: nat, shadow: Table, end: nat, addr: nat, beyond: nat)
    requires ShadowAgrees(ram, pointers, directory, shadow) && MapsImage(ram, pointers, end)
    requires addr < end <= DIRECTORY_REACH && addr % 0x40_0000 < 0x20_0000
    ensures InReach(ram, shadow, addr) && PhysicalOf(ram, shadow, addr, beyond) == Squashed(addr)
  {
    SquashedIndices(addr);
    ImageAt(ram, pointers, end, Squashed(addr));
    OneToOneSquashed(ram, pointers, directory, shadow, addr, beyond);
  }

  lemma OneToOneSquashed(ram: Tables, pointers: Table, directory: nat, shadow: Table, addr: nat, beyond: nat)
    requires ShadowAgrees(ram, pointers, directory, shadow)
    requires addr < DIRECTORY_REACH && addr % 0x40_0000 < 0x20_0000 && Squashed(addr) < DIRECTORY_REACH
    requires Walk(ram, pointers, Squashed(addr)) == Some(Translation(Squashed(addr), true, false))
    ensures InReach(ram, shadow, addr) && PhysicalOf(ram, shadow, addr, beyond) == Squashed(addr)
  {
    SquashedMapped(ram, pointers, directory, shadow, addr);
    PhysicalIsSquashedWalk(ram, pointers, directory, shadow, addr, beyond);
  }

  /** So there it agrees with the processor about a mapped address, whatever word lies beyond the tables,
      exactly below 2 MB. */
  lemma FoundInImageIff(ram: Tables, pointers: Table, directory: nat, shadow: Table, end: nat, addr: nat)
    requires ShadowAgrees(ram, pointers, directory, shadow) && MapsImage(ram, pointers, end)
    requires addr < end <= DIRECTORY_REACH
    ensures Finds(ram, shadow, addr, addr) <==> addr < 0x20_0000
    ensures (forall beyond: nat :: PhysicalOf(ram, shadow, addr, beyond) == addr) <==> addr < 0x20_0000
  {
    if addr % 0x40_0000 < 0x20_0000 {
      ImageSquashed(ram, pointers, directory, shadow, end, addr, 0);
      SquashedIndices(addr);
      assert PhysicalOf(ram, shadow, addr, 0) == Squashed(addr);
    } else {
      OutOfReach(ram, pointers, directory, shadow, addr);
      assert PhysicalOf(ram, shadow, addr, 0) == addr % PAGE_SIZE;
    }
  }

  lemma OutOfReach(ram: Tables, pointers: Table, directory: nat, shadow: Table, addr: nat)
    requires ShadowAgrees(ram, pointers, directory, shadow)
    requires addr < DIRECTORY_REACH && addr % 0x40_0000 >= 0x20_0000
    ensures !InReach(ram, shadow, addr)
  {
    if shadow[addr / 0x40_0000] != 0 && shadow[addr / 0x40_0000] in ram {
      ReachIff(ram, shadow, addr);
    }
  }

  lemma FoundThroughoutImage(ram: Tables, pointers: Table, directory: nat, shadow: Table, end: nat)
    requires ShadowAgrees(ram, pointers, directory, shadow) && MapsImage(ram, pointers, end) && end <= DIRECTORY_REACH
    ensures forall a :: 0 <= a < end ==> (Finds(ram, shadow, a, a) <==> a < 0x20_0000)
  {
    forall a | 0 <= a < end
      ensures Finds(ram, shadow, a, a) <==> a < 0x20_0000
    {
      FoundInImageIff(ram, pointers, directory, shadow, end, a);
    }
  }

  /** Four megabytes into the image it answers with two. */
  lemma FourMegabytes(ram: Tables, pointers: Table, directory: nat, shadow: Table, end: nat, beyond: nat)
    requires ShadowAgrees(ram, pointers, directory, shadow) && MapsImage(ram, pointers, end)
    requires 0x40_0000 < end <= DIRECTORY_REACH
    ensures PhysicalOf(ram, shadow, 0x40_0000, beyond) == 0x20_0000
    ensures Walk(ram, pointers, 0x40_0000) == Some(Translation(0x40_0000, true, false))
  {
    ImageSquashed(ram, pointers, directory, shadow, end, 0x40_0000, beyond);
  }

  /** With that map live, a page of the image becomes a table that directory and shadow agree about,
      whatever lies beyond the tables, exactly below 2 MB. */
  lemma LiveTableAgreesIff(ram: Tables, pointers: Table, directory: nat, shadow: Table, i: nat, page: nat,
                           live: Tables, livePointers: Table, liveDirectory: nat, liveShadow: Table, end: nat)
    requires ShadowAgrees(ram, pointers, directory, shadow)
    requires i < ENTRIES && shadow[i] == 0 && IsPage(page) && page !in ram
    requires ShadowAgrees(live, livePointers, liveDirectory, liveShadow) && MapsImage(live, livePointers, end)
    requires page < end <= DIRECTORY_REACH
    ensures (forall beyond: nat ::
               ShadowAgrees(WithTable(ram, directory, i, page, PhysicalOf(live, liveShadow, page, beyond)),
                            pointers, directory, shadow[i := page]))
            <==> page < 0x20_0000
  {
    FoundInImageIff(live, livePointers, liveDirectory, liveShadow, end, page);
    if page < 0x20_0000 {
      forall beyond: nat
        ensures ShadowAgrees(WithTable(ram, directory, i, page, PhysicalOf(live, liveShadow, page, beyond)),
                             pointers, directory, shadow[i := page])
      {
        assert PhysicalOf(live, liveShadow, page, beyond) == page;
        NewTableAgreesIff(ram, pointers, directory, shadow, i, page, page);
      }
    } else {
      var physical := PhysicalOf(live, liveShadow, page, 0);
      NotAtItself(live, liveShadow, page);
      NewTableAgreesIff(ram, pointers, directory, shadow, i, page, physical);
    }
  }

  /** With any map live, a mapped page below 2 MB becomes a table that directory and page_tables agree about:
      mm_physical takes it to where the processor does. */
  lemma LiveTableAgrees(ram: Tables, pointers: Table, directory: nat, shadow: Table, i: nat, page: nat, frame: nat,
                        live: Tables, livePointers: Table, liveDirectory: nat, liveShadow: Table, beyond: nat)
    requires ShadowAgrees(ram, pointers, directory, shadow)
    requires i < ENTRIES && shadow[i] == 0 && IsPage(frame) && frame !in ram
    requires ShadowAgrees(live, livePointers, liveDirectory, liveShadow)
    requires page < 0x20_0000 && Walk(live, livePointers, page).Some?
    requires frame == Walk(live, livePointers, page).value.physical % ADDRESS_LIMIT
    ensures ShadowAgrees(WithTable(ram, directory, i, frame, PhysicalOf(live, liveShadow, page, beyond)),
                         pointers, directory, shadow[i := frame])
  {
    PhysicalIsWalk(live, livePointers, liveDirectory, liveShadow, page, beyond);
    NewTableAgreesIff(ram, pointers, directory, shadow, i, frame, frame);
  }

  lemma NotAtItself(ram: Tables, shadow: Table, page: nat)
    requires |shadow| == ENTRIES && IsPage(page) && !Finds(ram, shadow, page, page)
    ensures PhysicalOf(ram, shadow, page, 0) != page && PhysicalOf(ram, shadow, page, 0) % PAGE_SIZE == 0
  {
    if InReach(ram, shadow, page) {
      LowPart(ram[shadow[page / 0x40_0000]][page / PAGE_SIZE % 0x400] / PAGE_SIZE, 0);
    }
  }

  lemma SquashedIndices(addr: nat)
    requires addr < 0x8000_0000 && addr % 0x40_0000 < 0x20_0000
    ensures Squashed(addr) < DIRECTORY_REACH && Squashed(addr) <= addr
    ensures Squashed(addr) / PAGE_SIZE / ENTRIES == addr / 0x40_0000
    ensures Squashed(addr) / PAGE_SIZE % ENTRIES == addr / PAGE_SIZE % 0x400
    ensures Squashed(addr) % PAGE_SIZE == addr % PAGE_SIZE
    ensures Squashed(addr) == addr <==> addr < 0x20_0000
  {
    var q, low := addr / 0x40_0000, addr % 0x40_0000;
    assert addr == q * 0x40_0000 + low && Squashed(addr) == q * 0x20_0000 + low;
    assert Squashed(addr) / PAGE_SIZE == q * ENTRIES + low / PAGE_SIZE;
    DivModUnique(q, ENTRIES, low / PAGE_SIZE);
    assert addr / PAGE_SIZE == q * 0x400 + low / PAGE_SIZE;
    DivModUnique(q, 0x400, low / PAGE_SIZE);
  }

  /** Truncating an entry to 32 bits and clearing its low 12 leaves its frame, on 32 bits. */
  lemma FrameLow(entry: nat, offset: nat)
    requires offset < PAGE_SIZE
    ensures (FrameOf(entry) + offset) % ADDRESS_LIMIT == entry / PAGE_SIZE * PAGE_SIZE % ADDRESS_LIMIT + offset
  {
    var f := entry / PAGE_SIZE;
    LowPart(f, 0);
    LowPart(f % 0x100_0000_0000, offset);
    ModOfMod(f);
  }

  lemma LowPart(f: nat, offset: nat)
    requires offset < PAGE_SIZE
    ensures (f * PAGE_SIZE + offset) % ADDRESS_LIMIT == f % 0x10_0000 * PAGE_SIZE + offset
  {
    DivModUnique(f / 0x10_0000, ADDRESS_LIMIT, f % 0x10_0000 * PAGE_SIZE + offset);
  }

  lemma ModOfMod(f: nat)
    ensures f % 0x100_0000_0000 % 0x10_0000 == f % 0x10_0000
  {
    var q := f / 0x100_0000_0000;
    var r := f % 0x100_0000_0000;
    DivModUnique(q * 0x10_0000 + r / 0x10_0000, 0x10_0000, r % 0x10_0000);
  }

  lemma FreshPool(directory: nat, pages: seq<nat>)
    requires PoolFresh([directory] + pages, map[])
    ensures PoolFresh(pages, map[directory := Zeroed()])
  {
    var all := [directory] + pages;
    forall i | 0 <= i < |pages|
      ensures IsPage(pages[i]) && pages[i] != directory
    {
      assert all[i + 1] == pages[i] && all[0] == directory;
    }
    forall i, j | 0 <= i < j < |pages|
      ensures pages[i] != pages[j]
    {
      assert all[i + 1] == pages[i] && all[j + 1] == pages[j];
    }
  }

  /** A zeroed directory agrees with a table of page tables exactly when that holds only NULLs and the pointer
      table holds the directory's address. */
  lemma FreshMap(ram: Tables, pointers: Table, directory: nat, pointer: nat, shadow: Table)
    requires IsPage(directory) && ram == map[directory := Zeroed()] && |shadow| == ENTRIES
    requires pointers == [pointer + PG_PRESENT, 0, 0, 0]
    ensures ShadowAgrees(ram, pointers, directory, shadow)
            <==> pointer == directory && forall i :: 0 <= i < ENTRIES ==> shadow[i] == 0
    ensures ShadowAgrees(ram, pointers, directory, shadow) ==>
              forall a :: 0 <= a < ADDRESS_LIMIT ==> Walk(ram, pointers, a) == None
  {
    forall i | 0 <= i < ENTRIES
      ensures SlotAgrees(ram, directory, shadow, i) <==> shadow[i] == 0
    {
    }
    if ShadowAgrees(ram, pointers, directory, shadow) {
      forall a | 0 <= a < ADDRESS_LIMIT
        ensures Walk(ram, pointers, a) == None
      {
        WalkIsLookup(ram, pointers, directory, shadow, a);
      }
    }
  }

  lemma OwnFrames(frame: nat -> nat, directory: nat, pages: seq<nat>)
    requires forall a :: frame(a) == a
    requires PoolFresh([directory] + pages, map[])
    ensures Frames(frame, pages) == pages && PagePointers(pages)
  {
    var all := [directory] + pages;
    forall i | 0 <= i < |pages|
      ensures IsPage(pages[i])
    {
      assert all[i + 1] == pages[i];
    }
  }

  /** A new map with the kernel image in it one to one. No map is live, so the kernel's pointers are physical
      addresses, and in the image they stay that. */
  method MapImage(current: AddressSpace?, directoryPage: nat, uninitialised: array<nat>, pages: seq<nat>, bssEnd: nat)
    returns (mm: AddressSpace)
    requires current == null
    requires uninitialised.Length == ENTRIES && forall i :: 0 <= i < ENTRIES ==> uninitialised[i] == 0
    requires IsPage(directoryPage) && PoolFresh([directoryPage] + pages, map[])
    requires RoundedUp(bssEnd) <= DIRECTORY_REACH
    requires Missing(uninitialised[..], 0, DirectoryEnd(0, RoundedUp(bssEnd) / PAGE_SIZE)) <= |pages|
    modifies uninitialised
    ensures fresh(mm) && mm.pageTables == uninitialised && mm.Valid() && forall a :: mm.frame(a) == a
    ensures forall a :: 0 <= a < ADDRESS_LIMIT ==>
              mm.TranslationOf(a) == if a < RoundedUp(bssEnd) then Some(Translation(a, true, false)) else None
  {
    var frame := (a: nat) => a;
    OwnFrames(frame, directoryPage, pages);
    mm := new AddressSpace(frame, directoryPage, uninitialised, pages);
    assert forall a :: 0 <= a < ADDRESS_LIMIT ==> mm.TranslationOf(a) == Walk(mm.ram, mm.pointers, a);
    MapOneToOne(current, mm, bssEnd);
    assert forall a :: 0 <= a < ADDRESS_LIMIT ==> mm.TranslationOf(a) == Walk(mm.ram, mm.pointers, a);
  }

  /** In an empty map, mapping the addresses from zero up to themselves maps those and no others. */
  method MapOneToOne(current: AddressSpace?, mm: AddressSpace, size: nat)
    requires current == null && mm.Valid() && RoundedUp(size) <= DIRECTORY_REACH
    requires forall a :: mm.frame(a) == a
    requires MapsImage(mm.ram, mm.pointers, 0)
    requires Missing(mm.pageTables[..], 0, DirectoryEnd(0, RoundedUp(size) / PAGE_SIZE)) <= |mm.pool|
    modifies mm, mm.pageTables
    ensures mm.Valid() && MapsImage(mm.ram, mm.pointers, RoundedUp(size))
  {
    ghost var ram, pointers := mm.ram, mm.pointers;
    mm.MmMap(current, 0, 0, size, PG_SUPV + PG_RDWR);
    ImageMapped(ram, pointers, mm.ram, mm.pointers, size);
  }

  lemma RemappedAt(ram: Tables, pointers: Table, ram': Tables, pointers': Table, size: nat, a: nat)
    requires Walkable(ram, pointers) && Walkable(ram', pointers') && a < ADDRESS_LIMIT
    requires Remapped(ram, pointers, ram', pointers', 0, 0, size, PG_SUPV + PG_RDWR)
    ensures Walk(ram', pointers', a)
            == if a < RoundedUp(size) then Some(Translation(a, true, false)) else Walk(ram, pointers, a)
  {
  }

  lemma ImageMapped(ram: Tables, pointers: Table, ram': Tables, pointers': Table, size: nat)
    requires Walkable(ram, pointers) && Walkable(ram', pointers') && MapsImage(ram, pointers, 0)
    requires Remapped(ram, pointers, ram', pointers', 0, 0, size, PG_SUPV + PG_RDWR)
    ensures MapsImage(ram', pointers', RoundedUp(size))
  {
    forall a | 0 <= a < ADDRESS_LIMIT
      ensures Walk(ram', pointers', a) == if a < RoundedUp(size) then Some(Translation(a, true, false)) else None
    {
      RemappedAt(ram, pointers, ram', pointers', size, a);
      assert Walk(ram, pointers, a) == None;
    }
  }

  /** The globals of the memory manager. */
  class MemoryManager {
    var current: AddressSpace?
    var cr3: nat

    constructor ()
      ensures current == null
    {
      current := null;
      cr3 := 0;
    }

    /** setup_paging: make a map, enter the kernel image into it one to one, and only then make it live.
        CR3 gets the pointer table's own address because apply_mmap translates it while no map is live;
        afterwards the processor takes every address of the image to itself, writable and for the
        supervisor only, and every other address faults. Of the image mm_physical then finds at themselves
        exactly the addresses below 2 MB. */
    method Setup(directoryPage: nat, uninitialised: array<nat>, pages: seq<nat>, pointerTable: nat, bssEnd: nat)
      requires current == null
      requires uninitialised.Length == ENTRIES && forall i :: 0 <= i < ENTRIES ==> uninitialised[i] == 0
      requires IsPage(directoryPage) && PoolFresh([directoryPage] + pages, map[])
      requires RoundedUp(bssEnd) <= DIRECTORY_REACH
      requires Missing(uninitialised[..], 0, DirectoryEnd(0, RoundedUp(bssEnd) / PAGE_SIZE)) <= |pages|
      modifies this, uninitialised
      ensures current != null && fresh(current) && current.pageTables == uninitialised && current.Valid()
      ensures forall a :: current.frame(a) == a
      ensures cr3 == pointerTable
      ensures forall a :: 0 <= a < ADDRESS_LIMIT ==>
                current.TranslationOf(a) == if a < RoundedUp(bssEnd) then Some(Translation(a, true, false)) else None
      ensures forall a :: 0 <= a < RoundedUp(bssEnd) ==>
                (Finds(current.ram, current.Shadow(), a, a) <==> a < 0x20_0000)
    {
      var mm := MapImage(current, directoryPage, uninitialised, pages, bssEnd);
      assert forall a :: 0 <= a < ADDRESS_LIMIT ==> mm.TranslationOf(a) == Walk(mm.ram, mm.pointers, a);
      FoundThroughoutImage(mm.ram, mm.pointers, mm.frame(mm.directory), mm.Shadow(), RoundedUp(bssEnd));
      var pagedir := MmPhysical(current, pointerTable, 0);
      current := mm;
      cr3 := pagedir;
    }
  }
}
