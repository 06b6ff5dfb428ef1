/** alloc_entry over the bytes of memory. */
module HeapAlloc {
  import opened Memory
  import opened HeapHeader
  import opened HeapSpec
  import opened HeapProofs
  import opened HeapList

  // --- the two halves of alloc_entry ---

  /** Bytes of headers of the list, and of the payload of block k, may differ; others may not. */
  predicate OnlyHeadersAndPayload(m: Bytes, m': Bytes, blocks: seq<Block>, k: nat) {
    var kept :=
      && |m| == |m'|
      && (forall x :: 0 <= x < |m| && !InSomeHeader(blocks, x) && !InPayload(blocks, k, x) ==> m[x] == m'[x]);
    kept
  }

  predicate InSomeHeader(blocks: seq<Block>, x: int) {
    exists i :: 0 <= i < |blocks| && InHeader(x, blocks[i].header)
  }

  predicate InPayload(blocks: seq<Block>, k: nat, x: int) {
    k < |blocks| && blocks[k].start <= x < blocks[k].start + blocks[k].size
  }

  /** A write to the header of block k, to the header after it, and to a header carved out of the payload
      of block k stays within headers and that payload. */
  lemma LinkStaysInside(m: Bytes, m': Bytes, blocks: seq<Block>, k: nat, addr: nat)
    requires k < |blocks| && OnlyHeaders(m, m', blocks[k].header, addr, blocks, k)
    requires blocks[k].start <= addr && addr + HEADER_SIZE <= blocks[k].start + blocks[k].size
    ensures OnlyHeadersAndPayload(m, m', blocks, k)
  {
    forall x | 0 <= x < |m| && !InSomeHeader(blocks, x) && !InPayload(blocks, k, x)
      ensures m[x] == m'[x]
    {
      assert !InHeader(x, blocks[k].header);
      assert k + 1 < |blocks| ==> !InHeader(x, blocks[k + 1].header);
    }
  }

  lemma HeaderWriteStaysInside(m: Bytes, m': Bytes, blocks: seq<Block>, k: nat, a: nat)
    requires k < |blocks| && SameOutside(m, m', a, HEADER_SIZE)
    requires a == blocks[k].header || (blocks[k].start <= a && a + HEADER_SIZE <= blocks[k].start + blocks[k].size)
    ensures OnlyHeadersAndPayload(m, m', blocks, k)
  {
  }

  lemma InsideTwice(m: Bytes, m': Bytes, m'': Bytes, blocks: seq<Block>, k: nat)
    requires OnlyHeadersAndPayload(m, m', blocks, k) && OnlyHeadersAndPayload(m', m'', blocks, k)
    ensures OnlyHeadersAndPayload(m, m'', blocks, k)
  {
  }

  lemma InsertThenResize(blocks: seq<Block>, k: nat, b: Block, size: nat)
    requires k < |blocks|
    ensures |Insert(blocks, k, b)| == |blocks| + 1
    ensures Insert(blocks, k, b)[k] == blocks[k]
    ensures Insert(blocks, k, b)[k := blocks[k].(size := size)]
            == Splice(blocks, k, k + 1, [blocks[k].(size := size), b])
  {
    InsertAt(blocks, k, b, k);
  }

  /** The leading split: a header for the new entry inside the block, and what is left becomes its size. */
  method SplitLeading(ram: array<Byte>, newEntry: nat, entry: nat, ghost blocks: seq<Block>, ghost k: nat)
    returns (ghost taken: Block)
    requires Linked(ram[..], blocks) && k < |blocks| && blocks[k].header == entry
    requires entry + HEADER_SIZE <= blocks[k].start <= newEntry < WORD_LIMIT
    requires newEntry + HEADER_SIZE <= blocks[k].start + blocks[k].size <= ram.Length
    requires k + 1 < |blocks| ==> blocks[k].start + blocks[k].size <= blocks[k + 1].header
    modifies ram
    ensures taken.header == newEntry
    ensures HeaderAt(ram[..], entry).start == blocks[k].start
    ensures Linked(ram[..], Splice(blocks, k, k + 1, [blocks[k].(size := newEntry - blocks[k].start), taken]))
    ensures OnlyHeadersAndPayload(old(ram[..]), ram[..], blocks, k)
  {
    ghost var m := ram[..];
    assert Holds(m, blocks, k);
    taken := BlockAt(m, newEntry);
    LinkNewEntry(ram, newEntry, entry, blocks, k);
    ghost var m1 := ram[..];
    InsertAt(blocks, k, taken, k);
    SetLeadingSize(ram, newEntry, entry, Insert(blocks, k, taken), k);
    LeadingSplit(m, m1, ram[..], blocks, k, taken, newEntry - blocks[k].start);
  }

  /** entry->size = (void*)new_entry - entry->start */
  method SetLeadingSize(ram: array<Byte>, newEntry: nat, entry: nat, ghost list: seq<Block>, ghost k: nat)
    requires Linked(ram[..], list) && k < |list| && list[k].header == entry
    requires list[k].start <= newEntry < WORD_LIMIT
    modifies ram
    ensures Linked(ram[..], list[k := list[k].(size := newEntry - list[k].start)])
    ensures SameOutside(old(ram[..]), ram[..], entry, HEADER_SIZE)
  {
    assert Holds(ram[..], list, k);
    var start := LoadField(ram, entry, Start);
    Assign(ram, entry, Size, newEntry - start, list, k);
  }

  lemma LeadingSplit(m: Bytes, m1: Bytes, m2: Bytes, blocks: seq<Block>, k: nat, taken: Block, size: nat)
    requires k < |blocks| && blocks[k].start <= taken.header
    requires taken.header + HEADER_SIZE <= blocks[k].start + blocks[k].size
    requires OnlyHeaders(m, m1, blocks[k].header, taken.header, blocks, k)
    requires SameOutside(m1, m2, blocks[k].header, HEADER_SIZE)
    requires k < |Insert(blocks, k, taken)|
    requires Linked(m2, Insert(blocks, k, taken)[k := blocks[k].(size := size)])
    ensures Linked(m2, Splice(blocks, k, k + 1, [blocks[k].(size := size), taken]))
    ensures blocks[k].header + HEADER_SIZE <= |m2| && HeaderAt(m2, blocks[k].header).start == blocks[k].start
    ensures OnlyHeadersAndPayload(m, m2, blocks, k)
  {
    InsertThenResize(blocks, k, taken, size);
    StartInMemory(m2, Splice(blocks, k, k + 1, [blocks[k].(size := size), taken]), k);
    LinkStaysInside(m, m1, blocks, k, taken.header);
    HeaderWriteStaysInside(m1, m2, blocks, k, blocks[k].header);
    InsideTwice(m, m1, m2, blocks, k);
  }

  lemma StartInMemory(m: Bytes, blocks: seq<Block>, k: nat)
    requires Linked(m, blocks) && k < |blocks|
    ensures blocks[k].header + HEADER_SIZE <= |m| && HeaderAt(m, blocks[k].header).start == blocks[k].start
  {
    assert Holds(m, blocks, k);
  }

  method TakeLeading(ram: array<Byte>, entry: nat, startOffset: nat, ghost blocks: seq<Block>, ghost k: nat)
    returns (newEntry: nat, ghost taken: Block)
    requires Linked(ram[..], blocks) && k < |blocks| && blocks[k].header == entry
    requires entry + HEADER_SIZE == blocks[k].start && blocks[k].start + startOffset < WORD_LIMIT
    requires startOffset <= blocks[k].size && blocks[k].start + blocks[k].size <= ram.Length
    requires k + 1 < |blocks| ==> blocks[k].start + blocks[k].size <= blocks[k + 1].header
    modifies ram
    ensures newEntry == Taken(blocks[k], startOffset, 0, 0).header == taken.header
    ensures HeaderAt(ram[..], entry).start == blocks[k].start
    ensures Linked(ram[..], Splice(blocks, k, k + 1, Leading(blocks[k], startOffset) + [taken]))
    ensures OnlyHeadersAndPayload(old(ram[..]), ram[..], blocks, k)
  {
    assert Holds(ram[..], blocks, k);
    if startOffset >= 4 * HEADER_SIZE {
      var start := LoadField(ram, entry, Start);
      newEntry := start + startOffset - HEADER_SIZE;
      taken := SplitLeading(ram, newEntry, entry, blocks, k);
      assert Leading(blocks[k], startOffset) + [taken] == [blocks[k].(size := newEntry - start), taken];
    } else {
      newEntry := entry;
      taken := blocks[k];
      assert Leading(blocks[k], startOffset) + [taken] == [taken];
      assert Splice(blocks, k, k + 1, [taken]) == blocks;
    }
  }

  // --- the second half of alloc_entry: marking the new entry and splitting off what is left ---

  /** available, description and start of the new entry. */
  method MarkTaken(ram: array<Byte>, a: nat, start: nat, description: nat, ghost blocks: seq<Block>, ghost t: nat)
    requires Linked(ram[..], blocks) && t < |blocks| && blocks[t].header == a
    requires start < WORD_LIMIT && description < WORD_LIMIT
    modifies ram
    ensures Linked(ram[..], blocks[t := blocks[t].(available := 0, description := description, start := start)])
    ensures SameOutside(old(ram[..]), ram[..], a, HEADER_SIZE)
  {
    Assign(ram, a, Available, 0, blocks, t);
    ghost var one := blocks[t := blocks[t].(available := 0)];
    Assign(ram, a, Description, description, one, t);
    ghost var two := one[t := one[t].(description := description)];
    Assign(ram, a, Start, start, two, t);
    assert two[t := two[t].(start := start)]
        == blocks[t := blocks[t].(available := 0, description := description, start := start)];
  }

  /** The fields of the trailing entry, in the order of the C code. */
  method FillTrailing(ram: array<Byte>, a: nat, size: nat)
    requires a + HEADER_SIZE <= ram.Length && size < WORD_LIMIT
    modifies ram
    ensures HeaderAt(ram[..], a) ==
            WithBlock(old(HeaderAt(ram[..], a)), Block(a, 1, size, Add32(a, HEADER_SIZE), NULL))
    ensures SameOutside(old(ram[..]), ram[..], a, HEADER_SIZE)
  {
    StoreField(ram, a, Start, Add32(a, HEADER_SIZE));
    StoreField(ram, a, Available, 1);
    StoreField(ram, a, Description, NULL);
    StoreField(ram, a, Size, size);
  }

  lemma InsertThenFill(blocks: seq<Block>, t: nat, raw: Block, filled: Block, size: nat)
    requires t < |blocks|
    ensures |Insert(blocks, t, raw)| == |blocks| + 1
    ensures Insert(blocks, t, raw)[t + 1] == raw
    ensures Insert(blocks, t, raw)[t + 1 := filled][t] == blocks[t]
    ensures Insert(blocks, t, raw)[t + 1 := filled][t := blocks[t].(size := size)]
            == Splice(blocks, t, t + 1, [blocks[t].(size := size), filled])
  {
    InsertAt(blocks, t, raw, t);
    InsertAt(blocks, t, raw, t + 1);
  }

  /** From m1 to m2 the header of the trailing entry is filled in, from m2 to m3 the size at a is set. */
  predicate Sized(m1: Bytes, m2: Bytes, m3: Bytes, filled: Block, a: nat, size: nat)
    requires filled.header + HEADER_SIZE <= |m1| == |m2| == |m3| && a + HEADER_SIZE <= |m1|
  {
    var sized :=
      && SameOutside(m1, m2, filled.header, HEADER_SIZE)
      && HeaderAt(m2, filled.header) == WithBlock(HeaderAt(m1, filled.header), filled)
      && SameOutside(m2, m3, a, HEADER_SIZE)
      && HeaderAt(m3, a) == HeaderAt(m2, a).(size := size);
    sized
  }

  /** The trailing entry as alloc_entry fills it in. */
  function TrailingBlock(addr: nat, rest: nat): Block {
    Block(addr, 1, rest, Add32(addr, HEADER_SIZE), NULL)
  }

  /** The three stages of the trailing split, as memories, leave the list with both entries set. */
  lemma TrailingLinked(m: Bytes, m1: Bytes, m2: Bytes, m3: Bytes, blocks: seq<Block>, t: nat, filled: Block, size: nat)
    requires t < |blocks| && filled.header + HEADER_SIZE <= |m| == |m1| == |m2| == |m3|
    requires Linked(m1, Insert(blocks, t, BlockAt(m, filled.header)))
    requires blocks[t].header + HEADER_SIZE <= |m1| && Sized(m1, m2, m3, filled, blocks[t].header, size)
    ensures Linked(m3, Splice(blocks, t, t + 1, [blocks[t].(size := size), filled]))
  {
    var raw := BlockAt(m, filled.header);
    InsertThenFill(blocks, t, raw, filled, size);
    var one := Insert(blocks, t, raw);
    BlockRewritten(m1, m2, one, t + 1, filled);
    var two := one[t + 1 := filled];
    assert Holds(m2, two, t);
    BlockRewritten(m2, m3, two, t, blocks[t].(size := size));
  }

  lemma OnlyHeadersStill(m: Bytes, m1: Bytes, m2: Bytes, m3: Bytes, a: nat, filled: Block, size: nat,
                         blocks: seq<Block>, t: nat)
    requires filled.header + HEADER_SIZE <= |m1| == |m2| == |m3| && a + HEADER_SIZE <= |m1|
    requires OnlyHeaders(m, m1, a, filled.header, blocks, t) && Sized(m1, m2, m3, filled, a, size)
    ensures OnlyHeaders(m, m3, a, filled.header, blocks, t)
  {
  }

  /** The trailing entry's fields, then the new entry's size; the two headers lie apart. */
  method SetSizes(ram: array<Byte>, newNext: nat, rest: nat, newEntry: nat, size: nat) returns (ghost m2: Bytes)
    requires newEntry + HEADER_SIZE <= newNext && newNext + HEADER_SIZE <= ram.Length
    requires rest < WORD_LIMIT && size < WORD_LIMIT
    modifies ram
    ensures |m2| == ram.Length
    ensures Sized(old(ram[..]), m2, ram[..], TrailingBlock(newNext, rest), newEntry, size)
    ensures HeaderAt(ram[..], newEntry) == old(HeaderAt(ram[..], newEntry)).(size := size)
    ensures HeaderAt(ram[..], newNext).size == rest
  {
    ghost var m1 := ram[..];
    FillTrailing(ram, newNext, rest);
    m2 := ram[..];
    ElsewhereKept(m1, m2, newNext, HEADER_SIZE, newEntry);
    StoreField(ram, newEntry, Size, size);
    ElsewhereKept(m2, ram[..], newEntry, HEADER_SIZE, newNext);
  }

  /** Where the header after block i begins, or the given end. */
  function NextHeader(blocks: seq<Block>, i: nat, end: nat): nat
    requires i < |blocks|
  {
    if i + 1 < |blocks| then blocks[i + 1].header else end
  }

  /** What the trailing split leaves in memory. */
  predicate SplitLeft(m1: Bytes, m2: Bytes, list: seq<Block>, t: nat, addr: nat, n: nat, rest: nat, next: nat)
    requires t < |list| && |m1| == |m2| && list[t].header + HEADER_SIZE <= |m1| && addr + HEADER_SIZE <= |m1|
  {
    var left :=
      && HeaderAt(m2, list[t].header).next == addr && HeaderAt(m2, addr).size == rest
      && OnlyHeaders(m1, m2, list[t].header, addr, list, t)
      && (addr + HEADER_SIZE <= next ==>
            Linked(m2, Splice(list, t, t + 1, [list[t].(size := n), TrailingBlock(addr, rest)])));
    left
  }

  /** The trailing split. Where the new header does not run into the next one the list gains the trailing
      entry; in any case the new entry's next leads to a header with the size the code computed. */
  method SplitTrailing(ram: array<Byte>, newEntry: nat, size: nat, rest: nat, ghost blocks: seq<Block>, ghost t: nat)
    returns (ghost addr: nat)
    requires Linked(ram[..], blocks) && t < |blocks| && blocks[t].header == newEntry
    requires newEntry + HEADER_SIZE <= blocks[t].start && rest < WORD_LIMIT
    requires blocks[t].start + size < WORD_LIMIT && blocks[t].start + size + HEADER_SIZE <= ram.Length
    requires t + 1 < |blocks| ==> blocks[t].start + size <= blocks[t + 1].header
    modifies ram
    ensures addr == blocks[t].start + size
    ensures SplitLeft(old(ram[..]), ram[..], blocks, t, addr, size, rest, NextHeader(blocks, t, ram.Length))
    ensures HeaderAt(ram[..], newEntry).start == blocks[t].start
  {
    ghost var m := ram[..];
    assert Holds(m, blocks, t);
    var start := LoadField(ram, newEntry, Start);
    assert start == blocks[t].start;
    var newNext := start + size;
    addr := newNext;
    LinkNewEntry(ram, newNext, newEntry, blocks, t);
    ghost var m1 := ram[..];
    ghost var m2 := SetSizes(ram, newNext, rest, newEntry, size);
    TrailingLeft(m, m1, m2, ram[..], blocks, t, newNext, size, rest);
  }

  lemma TrailingLeft(m: Bytes, m1: Bytes, m2: Bytes, m3: Bytes, blocks: seq<Block>, t: nat, addr: nat,
                     size: nat, rest: nat)
    requires t < |blocks| && blocks[t].header + HEADER_SIZE <= blocks[t].start && addr == blocks[t].start + size
    requires addr + HEADER_SIZE <= |m| == |m1| == |m2| == |m3|
    requires OnlyHeaders(m, m1, blocks[t].header, addr, blocks, t)
    requires HeaderAt(m3, blocks[t].header).next == addr
    requires (t + 1 < |blocks| ==> addr + HEADER_SIZE <= blocks[t + 1].header) ==>
               Linked(m1, Insert(blocks, t, BlockAt(m, addr)))
    requires Sized(m1, m2, m3, TrailingBlock(addr, rest), blocks[t].header, size)
    requires HeaderAt(m3, addr).size == rest
    ensures SplitLeft(m, m3, blocks, t, addr, size, rest, NextHeader(blocks, t, |m|))
  {
    OnlyHeadersStill(m, m1, m2, m3, blocks[t].header, TrailingBlock(addr, rest), size, blocks, t);
    if addr + HEADER_SIZE <= NextHeader(blocks, t, |m|) {
      TrailingLinked(m, m1, m2, m3, blocks, t, TrailingBlock(addr, rest), size);
    }
  }

  // --- alloc_entry ---

  /** The list after the leading split and the marking: the new entry's size is still open. */
  function Marked(blocks: seq<Block>, k: nat, o: nat, taken: Block): seq<Block>
    requires k < |blocks|
  {
    Splice(blocks, k, k + 1, Leading(blocks[k], o) + [taken])
  }

  lemma MarkedAt(blocks: seq<Block>, k: nat, o: nat, taken: Block)
    requires k < |blocks|
    ensures var t := TakenIndex(k, o);
            && t < |Marked(blocks, k, o, taken)| == |blocks| + t - k
            && Marked(blocks, k, o, taken)[t] == taken
            && Marked(blocks, k, o, taken)[k].start == (if k < t then blocks[k].start else taken.start)
            && Marked(blocks, k, o, taken)[k].header == (if k < t then blocks[k].header else taken.header)
            && (t + 1 < |Marked(blocks, k, o, taken)| <==> k + 1 < |blocks|)
            && (k + 1 < |blocks| ==> Marked(blocks, k, o, taken)[t + 1] == blocks[k + 1])
  {
  }

  lemma Assembled(blocks: seq<Block>, k: nat, o: nat, taken: Block, parts: seq<Block>)
    requires k < |blocks|
    ensures TakenIndex(k, o) < |Marked(blocks, k, o, taken)|
    ensures Splice(Marked(blocks, k, o, taken), TakenIndex(k, o), TakenIndex(k, o) + 1, parts)
            == Splice(blocks, k, k + 1, Leading(blocks[k], o) + parts)
  {
    var now := Marked(blocks, k, o, taken);
    var t := TakenIndex(k, o);
    assert now[..t] == blocks[..k] + Leading(blocks[k], o);
    assert now[t + 1..] == blocks[k + 1..];
  }

  /** Replacing one element is a splice of one. */
  lemma UpdateIsSplice(blocks: seq<Block>, t: nat, b: Block)
    requires t < |blocks|
    ensures blocks[t := b] == Splice(blocks, t, t + 1, [b])
  {
  }

  /** The leading split and the marking: the list holds the new entry, its size still to be set. */
  method TakeEntry(ram: array<Byte>, entry: nat, startOffset: nat, description: nat, ghost blocks: seq<Block>,
                   ghost k: nat)
    returns (newEntry: nat, ghost taken: Block)
    requires Linked(ram[..], blocks) && k < |blocks| && blocks[k].header == entry
    requires entry + HEADER_SIZE == blocks[k].start && blocks[k].start + startOffset < WORD_LIMIT
    requires startOffset <= blocks[k].size && blocks[k].start + blocks[k].size <= ram.Length
    requires k + 1 < |blocks| ==> blocks[k].start + blocks[k].size <= blocks[k + 1].header
    requires description < WORD_LIMIT
    modifies ram
    ensures newEntry == Taken(blocks[k], startOffset, 0, 0).header
    ensures taken == Block(newEntry, 0, taken.size, blocks[k].start + startOffset, description)
    ensures Linked(ram[..], Marked(blocks, k, startOffset, taken))
    ensures OnlyHeadersAndPayload(old(ram[..]), ram[..], blocks, k)
  {
    ghost var m := ram[..];
    ghost var raw;
    newEntry, raw := TakeLeading(ram, entry, startOffset, blocks, k);
    ghost var m1 := ram[..];
    ghost var list := Marked(blocks, k, startOffset, raw);
    ghost var t := TakenIndex(k, startOffset);
    MarkedAt(blocks, k, startOffset, raw);
    var start := LoadField(ram, entry, Start);
    MarkTaken(ram, newEntry, start + startOffset, description, list, t);
    taken := raw.(available := 0, description := description, start := start + startOffset);
    UpdateIsSplice(list, t, taken);
    Assembled(blocks, k, startOffset, raw, [taken]);
    HeaderWriteStaysInside(m1, ram[..], blocks, k, newEntry);
    InsideTwice(m, m1, ram[..], blocks, k);
  }

  /** Some list of blocks that starts at the given header is in memory and tiles [lo, hi). */
  ghost predicate HeapTiled(m: Bytes, start: nat, lo: nat, hi: nat) {
    exists blocks :: TiledBy(m, start, lo, hi, blocks)
  }

  predicate TiledBy(m: Bytes, start: nat, lo: nat, hi: nat, blocks: seq<Block>) {
    Linked(m, blocks) && Tiles(blocks, lo, hi) && blocks[0].header == start
  }

  /** The list in memory is determined by where it starts: following next from equal headers leads to
      equal headers. */
  lemma {:induction false} ListUnique(m: Bytes, a: seq<Block>, b: seq<Block>, i: nat)
    requires Linked(m, a) && Linked(m, b) && i < |a| && i < |b| && a[0].header == b[0].header
    ensures a[i] == b[i]
    ensures i + 1 < |a| <==> i + 1 < |b|
    ensures i + 1 < |a| ==> a[i + 1].header == b[i + 1].header
  {
    if i > 0 {
      ListUnique(m, a, b, i - 1);
    }
    assert Holds(m, a, i) && Holds(m, b, i);
  }

  lemma {:induction false} ListsAgree(m: Bytes, a: seq<Block>, b: seq<Block>, n: nat)
    requires Linked(m, a) && Linked(m, b) && a != [] && b != [] && a[0].header == b[0].header
    requires n <= |a|
    ensures n <= |b| && a[..n] == b[..n]
  {
    if n > 0 {
      ListsAgree(m, a, b, n - 1);
      if n >= 2 {
        ListUnique(m, a, b, n - 2);
      }
      ListUnique(m, a, b, n - 1);
      assert a[..n] == a[..n - 1] + [a[n - 1]] && b[..n] == b[..n - 1] + [b[n - 1]];
    }
  }

  lemma ListIsTheOne(m: Bytes, a: seq<Block>, b: seq<Block>)
    requires Linked(m, a) && Linked(m, b) && a != [] && b != [] && a[0].header == b[0].header
    ensures a == b
  {
    ListsAgree(m, a, b, |a|);
    ListsAgree(m, b, a, |b|);
    assert a == a[..|a|] && b == b[..|b|];
  }

  /** When the trailing header has run into the next one, the walk from the start still reaches it, and
      finds a size that no tiling allows. */
  lemma {:induction false} WalkReaches(m: Bytes, m': Bytes, list: seq<Block>, t: nat, addr: nat, other: seq<Block>,
                                       i: nat)
    requires Linked(m, list) && t < |list| && Linked(m', other) && other != [] && other[0].header == list[0].header
    requires OnlyHeaders(m, m', list[t].header, addr, list, t) && list[t].header + HEADER_SIZE <= addr
    requires i <= t
    ensures i < |other| && other[i].header == list[i].header
  {
    if i > 0 {
      WalkReaches(m, m', list, t, addr, other, i - 1);
      assert Holds(m, list, i - 1) && Holds(m', other, i - 1);
      assert Before(list, i - 1, t) && (t + 1 < |list| ==> Before(list, i - 1, t + 1));
      HeaderKept(m, m', list[i - 1].header);
      assert list[i].header > 0;
    }
  }

  lemma RunIntoNextNotTiled(m: Bytes, m': Bytes, list: seq<Block>, t: nat, addr: nat, lo: nat, hi: nat)
    requires Linked(m, list) && t < |list|
    requires OnlyHeaders(m, m', list[t].header, addr, list, t) && list[t].header + HEADER_SIZE <= addr
    requires addr + HEADER_SIZE <= |m'|
    requires HeaderAt(m', list[t].header).next == addr && addr + HEADER_SIZE + HeaderAt(m', addr).size > hi
    ensures !HeapTiled(m', list[0].header, lo, hi)
  {
    if HeapTiled(m', list[0].header, lo, hi) {
      var other: seq<Block> :| TiledBy(m', list[0].header, lo, hi, other);
      WalkReaches(m, m', list, t, addr, other, t);
      assert Holds(m', other, t);
      assert t + 1 < |other| && other[t + 1].header == addr;
      assert Holds(m', other, t + 1);
      HeadersAscendFrom(other, lo, hi, 0, t + 1);
      assert false;
    }
  }

  /** The trailing header would overlap the header that follows. */
  predicate RunsIntoNext(blocks: seq<Block>, k: nat, o: nat, n: nat)
    requires k < |blocks|
  {
    && k + 1 < |blocks|
    && Sub32(blocks[k].size, n) > SPLIT_LIMIT
    && blocks[k].start + o + n + HEADER_SIZE > blocks[k + 1].header
  }

  /** alloc_entry changes bytes of existing headers and of the payload it splits, and otherwise at most
      the room of one header past the end of the heap. */
  predicate AllocFrame(m: Bytes, m': Bytes, blocks: seq<Block>, k: nat, hi: nat) {
    && |m| == |m'|
    && forall x ::
         0 <= x < |m| && !InSomeHeader(blocks, x) && !InPayload(blocks, k, x) && !(hi <= x < hi + HEADER_SIZE)
         ==> m[x] == m'[x]
  }

  lemma TrailingStaysInside(m: Bytes, m1: Bytes, m2: Bytes, blocks: seq<Block>, k: nat, o: nat, n: nat, taken: Block,
                            addr: nat, hi: nat)
    requires k < |blocks| && blocks[k].start + blocks[k].size == Follower(blocks, hi, k) && o + n <= blocks[k].size
    requires taken.header == Taken(blocks[k], o, 0, 0).header && blocks[k].header + HEADER_SIZE == blocks[k].start
    requires OnlyHeadersAndPayload(m, m1, blocks, k)
    requires addr == blocks[k].start + o + n
    requires OnlyHeaders(m1, m2, taken.header, addr, Marked(blocks, k, o, taken), TakenIndex(k, o))
    ensures AllocFrame(m, m2, blocks, k, hi)
  {
    MarkedAt(blocks, k, o, taken);
    forall x | 0 <= x < |m| && !InSomeHeader(blocks, x) && !InPayload(blocks, k, x) && !(hi <= x < hi + HEADER_SIZE)
      ensures m[x] == m2[x]
    {
      assert m[x] == m1[x];
      assert !InHeader(x, blocks[k].header);
      assert k + 1 < |blocks| ==> !InHeader(x, blocks[k + 1].header);
    }
  }

  /** A sound split stays inside the heap; any other needs the room of one header after it. */
  predicate RoomToSplit(size: nat, o: nat, n: nat, hi: nat, length: nat) {
    hi <= length && (hi + HEADER_SIZE <= length || SplitIsSound(size, o, n))
  }

  /** The state between the two halves: block k of the list has been taken, its size not yet set. */
  predicate HalfDone(m: Bytes, m1: Bytes, blocks: seq<Block>, k: nat, o: nat, n: nat, taken: Block, hi: nat) {
    && k < |blocks| && blocks[k].start + blocks[k].size == Follower(blocks, hi, k) <= hi < WORD_LIMIT
    && blocks[k].header + HEADER_SIZE == blocks[k].start
    && n + o <= blocks[k].size && RoomToSplit(blocks[k].size, o, n, hi, |m1|)
    && taken.header == Taken(blocks[k], o, 0, 0).header
    && taken == Block(taken.header, 0, taken.size, blocks[k].start + o, taken.description)
    && Linked(m1, Marked(blocks, k, o, taken))
    && OnlyHeadersAndPayload(m, m1, blocks, k)
  }

  /** What the second half of alloc_entry leaves behind. */
  ghost predicate Finished(m: Bytes, m2: Bytes, blocks: seq<Block>, k: nat, o: nat, n: nat, description: nat,
                           lo: nat, hi: nat)
    requires k < |blocks|
  {
    var finished :=
      && AllocFrame(m, m2, blocks, k, hi)
      && (if RunsIntoNext(blocks, k, o, n) then !HeapTiled(m2, blocks[0].header, lo, hi)
          else Linked(m2, AllocAt(blocks, k, o, n, description)));
    finished
  }

  /** The size test passed: split off a trailing entry. */
  method FinishSplit(ram: array<Byte>, newEntry: nat, startOffset: nat, size: nat, prevSize: nat, ghost m: Bytes,
                     ghost blocks: seq<Block>, ghost k: nat, ghost taken: Block, ghost lo: nat, ghost hi: nat)
    requires HalfDone(m, ram[..], blocks, k, startOffset, size, taken, hi)
    requires newEntry == taken.header && prevSize == blocks[k].size
    requires Sub32(prevSize, size) > SPLIT_LIMIT
    modifies ram
    ensures Finished(m, ram[..], blocks, k, startOffset, size, taken.description, lo, hi)
    ensures HeaderAt(ram[..], newEntry).start == taken.start
  {
    ghost var m1 := ram[..];
    MarkedAt(blocks, k, startOffset, taken);
    var rest := Sub32(prevSize, startOffset + size + HEADER_SIZE);
    ghost var list := Marked(blocks, k, startOffset, taken);
    ghost var addr := SplitTrailing(ram, newEntry, size, rest, list, TakenIndex(k, startOffset));
    SplitFinished(m, m1, ram[..], blocks, k, startOffset, size, taken, addr, rest, lo, hi);
  }

  lemma SplitFinished(m: Bytes, m1: Bytes, m2: Bytes, blocks: seq<Block>, k: nat, o: nat, n: nat, taken: Block,
                      addr: nat, rest: nat, lo: nat, hi: nat)
    requires HalfDone(m, m1, blocks, k, o, n, taken, hi) && |m1| == |m2|
    requires Sub32(blocks[k].size, n) > SPLIT_LIMIT && rest == Sub32(blocks[k].size, o + n + HEADER_SIZE)
    requires TakenIndex(k, o) < |Marked(blocks, k, o, taken)| && Marked(blocks, k, o, taken)[TakenIndex(k, o)] == taken
    requires addr == blocks[k].start + o + n && taken.header + HEADER_SIZE <= |m1| && addr + HEADER_SIZE <= |m1|
    requires SplitLeft(m1, m2, Marked(blocks, k, o, taken), TakenIndex(k, o), addr, n, rest,
                       NextHeader(blocks, k, |m1|))
    ensures Finished(m, m2, blocks, k, o, n, taken.description, lo, hi)
  {
    RunsIntoNextAt(blocks, k, o, n, addr, |m1|);
    if RunsIntoNext(blocks, k, o, n) {
      SplitRan(m, m1, m2, blocks, k, o, n, taken, addr, lo, hi);
    } else {
      SplitClean(blocks, k, o, n, taken, addr, rest);
    }
    TrailingStaysInside(m, m1, m2, blocks, k, o, n, taken, addr, hi);
  }

  lemma SplitClean(blocks: seq<Block>, k: nat, o: nat, n: nat, taken: Block, addr: nat, rest: nat)
    requires k < |blocks| && addr == blocks[k].start + o + n
    requires Sub32(blocks[k].size, n) > SPLIT_LIMIT && rest == Sub32(blocks[k].size, o + n + HEADER_SIZE)
    requires taken == Block(Taken(blocks[k], o, 0, 0).header, 0, taken.size, blocks[k].start + o, taken.description)
    ensures TakenIndex(k, o) < |Marked(blocks, k, o, taken)|
    ensures Splice(Marked(blocks, k, o, taken), TakenIndex(k, o), TakenIndex(k, o) + 1,
                   [taken.(size := n), TrailingBlock(addr, rest)])
            == AllocAt(blocks, k, o, n, taken.description)
  {
    Assembled(blocks, k, o, taken, [taken.(size := n), TrailingBlock(addr, rest)]);
    CarveSplit(blocks[k], o, n, taken, rest);
  }

  lemma RunsIntoNextAt(blocks: seq<Block>, k: nat, o: nat, n: nat, addr: nat, end: nat)
    requires k < |blocks| && addr == blocks[k].start + o + n && Sub32(blocks[k].size, n) > SPLIT_LIMIT
    requires addr + HEADER_SIZE <= end
    ensures RunsIntoNext(blocks, k, o, n) <==> addr + HEADER_SIZE > NextHeader(blocks, k, end)
  {
  }

  lemma SplitRan(m: Bytes, m1: Bytes, m2: Bytes, blocks: seq<Block>, k: nat, o: nat, n: nat, taken: Block, addr: nat,
                 lo: nat, hi: nat)
    requires HalfDone(m, m1, blocks, k, o, n, taken, hi)
    requires RunsIntoNext(blocks, k, o, n) && addr == blocks[k].start + o + n
    requires |m1| == |m2| && taken.header + HEADER_SIZE <= |m1| && addr + HEADER_SIZE <= |m1|
    requires HeaderAt(m2, taken.header).next == addr
    requires HeaderAt(m2, addr).size == Sub32(blocks[k].size, o + n + HEADER_SIZE)
    requires OnlyHeaders(m1, m2, taken.header, addr, Marked(blocks, k, o, taken), TakenIndex(k, o))
    ensures !HeapTiled(m2, blocks[0].header, lo, hi)
  {
    MarkedAt(blocks, k, o, taken);
    MarkedStart(blocks, k, o, taken);
    RestPastEnd(blocks[k], o, n, Follower(blocks, hi, k), hi);
    RunIntoNextNotTiled(m1, m2, Marked(blocks, k, o, taken), TakenIndex(k, o), addr, lo, hi);
  }

  lemma MarkedStart(blocks: seq<Block>, k: nat, o: nat, taken: Block)
    requires k < |blocks| && taken.header == Taken(blocks[k], o, 0, 0).header
    ensures |Marked(blocks, k, o, taken)| > 0 && Marked(blocks, k, o, taken)[0].header == blocks[0].header
  {
  }

  /** A trailing header that does not fit gets a size that wraps, past the end of any heap. */
  lemma RestPastEnd(b: Block, o: nat, n: nat, end: nat, hi: nat)
    requires b.start + b.size == end <= hi < WORD_LIMIT && n + o <= b.size && b.start + o + n + HEADER_SIZE > end
    ensures b.start + o + n + HEADER_SIZE + Sub32(b.size, o + n + HEADER_SIZE) > hi
  {
  }

  lemma CarveSplit(b: Block, o: nat, n: nat, taken: Block, rest: nat)
    requires Sub32(b.size, n) > SPLIT_LIMIT && rest == Sub32(b.size, o + n + HEADER_SIZE)
    requires taken == Block(Taken(b, o, 0, 0).header, 0, taken.size, b.start + o, taken.description)
    ensures Leading(b, o) + [taken.(size := n), TrailingBlock(b.start + o + n, rest)]
            == Carve(b, o, n, taken.description)
  {
  }

  /** The size test failed: the new entry gets the whole size. */
  method FinishWhole(ram: array<Byte>, newEntry: nat, startOffset: nat, size: nat, prevSize: nat,
                     ghost m: Bytes, ghost blocks: seq<Block>, ghost k: nat, ghost taken: Block,
                     ghost lo: nat, ghost hi: nat)
    requires HalfDone(m, ram[..], blocks, k, startOffset, size, taken, hi)
    requires newEntry == taken.header && prevSize == blocks[k].size
    requires Sub32(prevSize, size) <= SPLIT_LIMIT
    modifies ram
    ensures Finished(m, ram[..], blocks, k, startOffset, size, taken.description, lo, hi)
    ensures HeaderAt(ram[..], newEntry).start == taken.start
  {
    ghost var m1 := ram[..];
    ghost var t := TakenIndex(k, startOffset);
    ghost var list := Marked(blocks, k, startOffset, taken);
    MarkedAt(blocks, k, startOffset, taken);
    assert Holds(m1, list, t);
    Assign(ram, newEntry, Size, prevSize, list, t);
    WholeTaken(blocks, k, startOffset, size, taken);
    HeaderWriteStaysInside(m1, ram[..], blocks, k, newEntry);
    InsideTwice(m, m1, ram[..], blocks, k);
  }

  lemma WholeTaken(blocks: seq<Block>, k: nat, o: nat, n: nat, taken: Block)
    requires k < |blocks| && Sub32(blocks[k].size, n) <= SPLIT_LIMIT
    requires taken == Block(Taken(blocks[k], o, 0, 0).header, 0, taken.size, blocks[k].start + o, taken.description)
    ensures TakenIndex(k, o) < |Marked(blocks, k, o, taken)|
    ensures Marked(blocks, k, o, taken)[TakenIndex(k, o) := taken.(size := blocks[k].size)]
            == AllocAt(blocks, k, o, n, taken.description)
  {
    var whole := taken.(size := blocks[k].size);
    Assembled(blocks, k, o, taken, [whole]);
    UpdateIsSplice(Marked(blocks, k, o, taken), TakenIndex(k, o), whole);
    assert Leading(blocks[k], o) + [whole] == Carve(blocks[k], o, n, taken.description);
  }

  lemma BlockInHeap(m: Bytes, blocks: seq<Block>, k: nat, lo: nat, hi: nat)
    requires Linked(m, blocks) && Tiles(blocks, lo, hi) && k < |blocks| && blocks[k].Free()
    ensures blocks[k].header + HEADER_SIZE == blocks[k].start
    ensures blocks[k].start + blocks[k].size == Follower(blocks, hi, k) <= hi
    ensures HeaderAt(m, blocks[k].header) == ListHeader(blocks, k)
  {
    HeadersAscendFrom(blocks, lo, hi, k, k);
    assert BlockFits(blocks[k], Follower(blocks, hi, k));
    assert Holds(m, blocks, k);
  }

  /** Where the headers stayed apart the memory holds one list, which tiles iff the split was sound; where
      they did not, no list tiles. */
  lemma FinishedTiledIff(m: Bytes, m2: Bytes, blocks: seq<Block>, k: nat, o: nat, n: nat, description: nat, lo: nat,
                         hi: nat)
    requires Tiles(blocks, lo, hi) && hi < WORD_LIMIT
    requires k < |blocks| && blocks[k].Free() && n + o <= blocks[k].size
    requires Finished(m, m2, blocks, k, o, n, description, lo, hi)
    ensures HeapTiled(m2, lo, lo, hi) <==> SplitIsSound(blocks[k].size, o, n)
  {
    assert BlockFits(blocks[k], Follower(blocks, hi, k));
    if !RunsIntoNext(blocks, k, o, n) {
      var list := AllocAt(blocks, k, o, n, description);
      AllocTilesIff(blocks, k, o, n, description, lo, hi);
      AllocKeepsStart(blocks, k, o, n, description);
      if SplitIsSound(blocks[k].size, o, n) {
        assert TiledBy(m2, lo, lo, hi, list);
      } else if HeapTiled(m2, lo, lo, hi) {
        var other: seq<Block> :| TiledBy(m2, lo, lo, hi, other);
        ListIsTheOne(m2, list, other);
        assert false;
      }
    }
  }

  lemma AllocKeepsStart(blocks: seq<Block>, k: nat, o: nat, n: nat, description: nat)
    requires k < |blocks|
    ensures |AllocAt(blocks, k, o, n, description)| > 0
    ensures AllocAt(blocks, k, o, n, description)[0].header == blocks[0].header
  {
  }

  /** alloc_entry. What it leaves is a tiled heap exactly when the split was sound. */
  method AllocEntry(ram: array<Byte>, entry: nat, startOffset: nat, size: nat, description: nat,
                    ghost blocks: seq<Block>, ghost k: nat, ghost lo: nat, ghost hi: nat)
    returns (mptr: nat)
    requires Linked(ram[..], blocks) && Tiles(blocks, lo, hi) && hi < WORD_LIMIT
    requires k < |blocks| && blocks[k].header == entry && blocks[k].Free()
    requires RoomToSplit(blocks[k].size, startOffset, size, hi, ram.Length)
    requires size + startOffset <= blocks[k].size && description < WORD_LIMIT
    modifies ram
    ensures mptr == blocks[k].start + startOffset
    ensures !RunsIntoNext(blocks, k, startOffset, size) ==>
              Linked(ram[..], AllocAt(blocks, k, startOffset, size, description))
    ensures HeapTiled(ram[..], lo, lo, hi) <==> SplitIsSound(blocks[k].size, startOffset, size)
    ensures AllocFrame(old(ram[..]), ram[..], blocks, k, hi)
  {
    ghost var m := ram[..];
    BlockInHeap(m, blocks, k, lo, hi);
    var prevSize := LoadField(ram, entry, Size);
    ghost var taken;
    var newEntry;
    newEntry, taken := TakeEntry(ram, entry, startOffset, description, blocks, k);
    if Sub32(prevSize, size) > 4 * HEADER_SIZE {
      FinishSplit(ram, newEntry, startOffset, size, prevSize, m, blocks, k, taken, lo, hi);
    } else {
      FinishWhole(ram, newEntry, startOffset, size, prevSize, m, blocks, k, taken, lo, hi);
    }
    mptr := LoadField(ram, newEntry, Start);
    FinishedTiledIff(m, ram[..], blocks, k, startOffset, size, description, lo, hi);
  }
}
