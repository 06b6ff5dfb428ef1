/** PAE address translation as the processor does it (Intel SDM volume 3A, section 4.4), and the same
    translation read off the kernel's own table of page tables. */
module PageWalk {
  import opened Wrappers

  const PAGE_SIZE: nat := 0x1000
  const ENTRIES: nat := 512
  const DIRECTORY_REACH: nat := 0x4000_0000   // one page directory: 512 * 512 pages, 1 GB
  const ADDRESS_LIMIT: nat := 0x1_0000_0000

  const PG_PRESENT: nat := 0x01
  const PG_RDWR: nat := 0x02
  const PG_USER: nat := 0x04

  type Table = seq<nat>

  /** The tables in physical memory, each under the address of the page that holds it. */
  type Tables = map<nat, Table>

  datatype Translation = Translation(physical: nat, writable: bool, user: bool)

  predicate Present(entry: nat) {
    entry % 2 == 1
  }

  predicate Writable(entry: nat) {
    entry / 2 % 2 == 1
  }

  predicate User(entry: nat) {
    entry / 4 % 2 == 1
  }

  /** Bit 7 of a directory entry: it maps a 2 MB page itself. */
  predicate Large(entry: nat) {
    entry / 0x80 % 2 == 1
  }

  /** Bits 51 to 12 of an entry. */
  function FrameOf(entry: nat): nat {
    entry / PAGE_SIZE % 0x100_0000_0000 * PAGE_SIZE
  }

  /** The three-level walk for linear address a: bits 31-30 select one of the four pointer table entries,
      bits 29-21 a directory entry, bits 20-12 a table entry; access needs the right at both levels. */
  function Walk(ram: Tables, pointers: Table, a: nat): Option<Translation>
    requires |pointers| == 4 && a < ADDRESS_LIMIT
    requires forall p :: p in ram ==> |ram[p]| == ENTRIES
  {
    var pdpte := pointers[a / 0x4000_0000];
    if !Present(pdpte) || FrameOf(pdpte) !in ram then None
    else
      var pde := ram[FrameOf(pdpte)][a / 0x20_0000 % ENTRIES];
      if !Present(pde) then None
      else if Large(pde) then
        Some(Translation(FrameOf(pde) / 0x20_0000 * 0x20_0000 + a % 0x20_0000, Writable(pde), User(pde)))
      else if FrameOf(pde) !in ram then None
      else
        var pte := ram[FrameOf(pde)][a / PAGE_SIZE % ENTRIES];
        if !Present(pte) then None
        else Some(Translation(FrameOf(pte) + a % PAGE_SIZE, Writable(pde) && Writable(pte), User(pde) && User(pte)))
  }

  predicate IsPage(a: nat) {
    0 < a < ADDRESS_LIMIT && a % PAGE_SIZE == 0
  }

  /** The directory the processor reads holds the given addresses of tables, those of the tables that the
      kernel's page_tables[512] leads to: entry i is zero where there is none, and otherwise is present and
      holds the address of table i. Distinct directory entries have distinct tables. */
  ghost predicate ShadowAgrees(ram: Tables, pointers: Table, directory: nat, shadow: Table) {
    var agrees :=
      && (forall p :: p in ram ==> |ram[p]| == ENTRIES)
      && |pointers| == 4 && pointers[0] == directory + PG_PRESENT && pointers[1] == pointers[2] == pointers[3] == 0
      && IsPage(directory) && directory in ram
      && |shadow| == ENTRIES
      && (forall i :: 0 <= i < ENTRIES ==> SlotAgrees(ram, directory, shadow, i))
      && (forall i, j :: 0 <= i < j < ENTRIES && shadow[i] != 0 ==> shadow[i] != shadow[j]);
    agrees
  }

  predicate SlotAgrees(ram: Tables, directory: nat, shadow: Table, i: nat)
    requires directory in ram && i < |shadow| == ENTRIES == |ram[directory]|
  {
    if shadow[i] == 0 then ram[directory][i] == 0
    else
      && ram[directory][i] == shadow[i] + PG_PRESENT + PG_USER + PG_RDWR
      && IsPage(shadow[i]) && shadow[i] != directory && shadow[i] in ram
  }

  /** The page table entry for page number q, by way of page_tables; zero where there is no table. */
  function SlotOf(ram: Tables, shadow: Table, q: nat): nat
    requires |shadow| == ENTRIES && q < ENTRIES * ENTRIES
  {
    var table := shadow[q / ENTRIES];
    if table != 0 && table in ram && |ram[table]| == ENTRIES then ram[table][q % ENTRIES] else 0
  }

  /** What a table entry makes of an address in its page. */
  function Translate(entry: nat, a: nat): Option<Translation> {
    if Present(entry) then Some(Translation(FrameOf(entry) + a % PAGE_SIZE, Writable(entry), User(entry))) else None
  }

  lemma FrameOfFlagged(page: nat, flags: nat)
    requires page < ADDRESS_LIMIT && page % PAGE_SIZE == 0 && flags < PAGE_SIZE
    ensures FrameOf(page + flags) == page
    ensures Present(page + flags) == Present(flags) && Writable(page + flags) == Writable(flags)
    ensures User(page + flags) == User(flags) && Large(page + flags) == Large(flags)
  {
    var q := page / PAGE_SIZE;
    FlaggedFrame(q, flags);
    FlaggedBit(q, flags, 1);
    FlaggedBit(q, flags, 2);
    FlaggedBit(q, flags, 4);
    FlaggedBit(q, flags, 0x80);
  }

  lemma FlaggedFrame(q: nat, flags: nat)
    requires q < 0x10_0000 && flags < PAGE_SIZE
    ensures FrameOf(q * PAGE_SIZE + flags) == q * PAGE_SIZE
  {
    assert (q * PAGE_SIZE + flags) / PAGE_SIZE == q;
  }

  lemma FlaggedBit(q: nat, flags: nat, bit: nat)
    requires bit in {1, 2, 4, 0x80}
    ensures (q * PAGE_SIZE + flags) / bit % 2 == flags / bit % 2
  {
    if bit == 1 {
      EvenPart(q * 0x800, flags);
    } else if bit == 2 {
      assert (q * PAGE_SIZE + flags) / 2 == 2 * (q * 0x400) + flags / 2;
      EvenPart(q * 0x400, flags / 2);
    } else if bit == 4 {
      assert (q * PAGE_SIZE + flags) / 4 == 2 * (q * 0x200) + flags / 4;
      EvenPart(q * 0x200, flags / 4);
    } else {
      assert (q * PAGE_SIZE + flags) / 0x80 == 2 * (q * 0x10) + flags / 0x80;
      EvenPart(q * 0x10, flags / 0x80);
    }
  }

  lemma EvenPart(x: nat, y: nat)
    ensures (2 * x + y) % 2 == y % 2
  {
  }

  /** Where shadow and directory agree, the processor's walk is the lookup by way of page_tables, below
      1 GB, and nothing is mapped above. */
  lemma WalkIsLookup(ram: Tables, pointers: Table, directory: nat, shadow: Table, a: nat)
    requires ShadowAgrees(ram, pointers, directory, shadow) && a < ADDRESS_LIMIT
    ensures Walk(ram, pointers, a) ==
            if a < DIRECTORY_REACH then Translate(SlotOf(ram, shadow, a / PAGE_SIZE), a) else None
  {
    FrameOfFlagged(directory, PG_PRESENT);
    if a < DIRECTORY_REACH {
      var i := a / 0x20_0000;
      assert i == a / PAGE_SIZE / ENTRIES && i % ENTRIES == i;
      assert SlotAgrees(ram, directory, shadow, i);
      if shadow[i] != 0 {
        FrameOfFlagged(shadow[i], 7);
      }
    }
  }
}
