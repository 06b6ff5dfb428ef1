/** The doubly linked list of headers in memory, and the assignments the allocator makes to it. */
module HeapList {
  import opened Memory
  import opened HeapHeader
  import opened HeapSpec
  import opened HeapProofs

  function NextOf(blocks: seq<Block>, i: nat): nat
    requires i < |blocks|
  {
    if i + 1 < |blocks| then blocks[i + 1].header else NULL
  }

  function PreviousOf(blocks: seq<Block>, i: nat): nat
    requires i < |blocks|
  {
    if i > 0 then blocks[i - 1].header else NULL
  }

  /** The header that block i of the list must have in memory. */
  function ListHeader(blocks: seq<Block>, i: nat): Header
    requires i < |blocks|
  {
    var b := blocks[i];
    Header(b.available, b.size, b.start, NextOf(blocks, i), PreviousOf(blocks, i), b.description)
  }

  predicate Before(blocks: seq<Block>, i: nat, j: nat)
    requires i < |blocks| && j < |blocks|
  {
    blocks[i].header + HEADER_SIZE <= blocks[j].header
  }

  predicate Ascending(blocks: seq<Block>) {
    && (forall i :: 0 <= i < |blocks| ==> 0 < blocks[i].header)
    && (forall i, j :: 0 <= i < j < |blocks| ==> Before(blocks, i, j))
  }

  predicate InMemory(m: Bytes, blocks: seq<Block>) {
    forall i :: 0 <= i < |blocks| ==> blocks[i].header + HEADER_SIZE <= |m|
  }

  predicate Holds(m: Bytes, blocks: seq<Block>, i: nat)
    requires i < |blocks| && blocks[i].header + HEADER_SIZE <= |m|
  {
    HeaderAt(m, blocks[i].header) == ListHeader(blocks, i)
  }

  /** The memory holds the headers of the given blocks, linked both ways in that order. (The conjunction has
      a name so that the verifier proves it as a whole where it is a goal.) */
  predicate Linked(m: Bytes, blocks: seq<Block>) {
    var linked :=
      && Ascending(blocks)
      && InMemory(m, blocks)
      && (forall i :: 0 <= i < |blocks| ==> Holds(m, blocks, i));
    linked
  }

  /** The header with everything but its links taken from block b. */
  function WithBlock(h: Header, b: Block): Header {
    h.(available := b.available, size := b.size, start := b.start, description := b.description)
  }

  function WithBlockField(b: Block, f: Field, v: nat): Block
    requires !f.Next? && !f.Previous?
  {
    match f
    case Available => b.(available := v)
    case Size => b.(size := v)
    case Start => b.(start := v)
    case Description => b.(description := v)
  }

  lemma ListHeaderRewritten(blocks: seq<Block>, k: nat, b: Block, i: nat)
    requires k < |blocks| && i < |blocks| && b.header == blocks[k].header
    ensures ListHeader(blocks[k := b], i)
            == if i == k then WithBlock(ListHeader(blocks, i), b) else ListHeader(blocks, i)
  {
  }

  /** If the bytes of one header alone changed, links kept, then one block of the list changed. */
  lemma BlockRewritten(m: Bytes, m': Bytes, blocks: seq<Block>, k: nat, b: Block)
    requires Linked(m, blocks) && k < |blocks| && b.header == blocks[k].header
    requires SameOutside(m, m', b.header, HEADER_SIZE)
    requires HeaderAt(m', b.header) == WithBlock(HeaderAt(m, b.header), b)
    ensures Linked(m', blocks[k := b])
  {
    var now := blocks[k := b];
    forall i, j | 0 <= i < j < |now|
      ensures Before(now, i, j)
    {
      assert Before(blocks, i, j);
    }
    forall i | 0 <= i < |now|
      ensures Holds(m', now, i)
    {
      assert Holds(m, blocks, i);
      ListHeaderRewritten(blocks, k, b, i);
      if i != k {
        assert if i < k then Before(blocks, i, k) else Before(blocks, k, i);
        ElsewhereKept(m, m', b.header, HEADER_SIZE, blocks[i].header);
      }
    }
  }

  /** Assigns a field other than a link of block k: the list stays linked and only that field changes. */
  method Assign(ram: array<Byte>, a: nat, f: Field, v: nat, ghost blocks: seq<Block>, ghost k: nat)
    requires Linked(ram[..], blocks) && k < |blocks| && blocks[k].header == a
    requires !f.Next? && !f.Previous? && v < WORD_LIMIT
    modifies ram
    ensures SameOutside(old(ram[..]), ram[..], a, HEADER_SIZE)
    ensures Linked(ram[..], blocks[k := WithBlockField(blocks[k], f, v)])
    ensures HeaderAt(ram[..], a) == WithField(old(HeaderAt(ram[..], a)), f, v)
  {
    StoreField(ram, a, f, v);
    assert Holds(old(ram[..]), blocks, k);
    BlockRewritten(old(ram[..]), ram[..], blocks, k, WithBlockField(blocks[k], f, v));
  }

  /** The block whose header is whatever the memory holds at address a. */
  function BlockAt(m: Bytes, a: nat): Block
    requires a + HEADER_SIZE <= |m|
  {
    Block(a, FieldAt(m, a, Available), FieldAt(m, a, Size), FieldAt(m, a, Start), FieldAt(m, a, Description))
  }

  predicate InHeader(x: int, a: nat) {
    a <= x < a + HEADER_SIZE
  }

  /** Only bytes of the headers at a and b, and of the header after block k, may differ. */
  predicate OnlyHeaders(m: Bytes, m': Bytes, a: nat, b: nat, blocks: seq<Block>, k: nat) {
    var kept :=
      && |m| == |m'|
      && (forall x ::
            0 <= x < |m| && !InHeader(x, a) && !InHeader(x, b)
            && !(k + 1 < |blocks| && InHeader(x, blocks[k + 1].header))
            ==> m[x] == m'[x]);
    kept
  }

  /** What the four assignments of link_new_entry do to the headers at prev, addr and next, when the new
      header does not run into the one that follows. */
  predicate LinkedIn(m: Bytes, m': Bytes, prev: nat, addr: nat, next: nat)
    requires prev + HEADER_SIZE <= addr && addr + HEADER_SIZE <= |m| && next + HEADER_SIZE <= |m|
  {
    && |m| == |m'|
    && HeaderAt(m', prev) == HeaderAt(m, prev).(next := addr)
    && HeaderAt(m', addr) == HeaderAt(m, addr).(previous := prev, next := next)
    && (next != NULL ==> HeaderAt(m', next) == HeaderAt(m, next).(previous := addr))
  }

  function Insert(blocks: seq<Block>, k: nat, b: Block): seq<Block>
    requires k < |blocks|
  {
    Splice(blocks, k + 1, k + 1, [b])
  }

  lemma InsertAt(blocks: seq<Block>, k: nat, b: Block, i: nat)
    requires k < |blocks| && i <= |blocks|
    ensures |Insert(blocks, k, b)| == |blocks| + 1
    ensures Insert(blocks, k, b)[i] == if i <= k then blocks[i] else if i == k + 1 then b else blocks[i - 1]
  {
  }

  lemma ListHeaderAfterInsert(blocks: seq<Block>, k: nat, b: Block, i: nat)
    requires k < |blocks| && i <= |blocks|
    ensures |Insert(blocks, k, b)| == |blocks| + 1
    ensures ListHeader(Insert(blocks, k, b), i) ==
            if i < k then ListHeader(blocks, i)
            else if i == k then ListHeader(blocks, k).(next := b.header)
            else if i == k + 1 then
              Header(b.available, b.size, b.start, NextOf(blocks, k), blocks[k].header, b.description)
            else if i == k + 2 then ListHeader(blocks, k + 1).(previous := b.header)
            else ListHeader(blocks, i - 1)
  {
    InsertAt(blocks, k, b, i);
    if i > 0 {
      InsertAt(blocks, k, b, i - 1);
    }
    if i < |blocks| {
      InsertAt(blocks, k, b, i + 1);
    }
  }

  lemma HoldsAfterInsert(m: Bytes, m': Bytes, blocks: seq<Block>, k: nat, b: Block, i: nat)
    requires Linked(m, blocks) && k < |blocks| && i <= |blocks|
    requires blocks[k].header + HEADER_SIZE <= b.header && b.header + HEADER_SIZE <= |m| && b == BlockAt(m, b.header)
    requires k + 1 < |blocks| ==> b.header + HEADER_SIZE <= blocks[k + 1].header
    requires OnlyHeaders(m, m', blocks[k].header, b.header, blocks, k)
    requires LinkedIn(m, m', blocks[k].header, b.header, NextOf(blocks, k))
    ensures |Insert(blocks, k, b)| == |blocks| + 1
    ensures Insert(blocks, k, b)[i].header + HEADER_SIZE <= |m'| && Holds(m', Insert(blocks, k, b), i)
  {
    InsertAt(blocks, k, b, i);
    ListHeaderAfterInsert(blocks, k, b, i);
    if i <= k {
      assert Holds(m, blocks, i);
      if i < k {
        assert Before(blocks, i, k);
        HeaderKept(m, m', blocks[i].header);
      }
    } else if i > k + 1 {
      assert Holds(m, blocks, i - 1);
      if i > k + 2 {
        assert Before(blocks, k + 1, i - 1) && Before(blocks, k, i - 1);
        HeaderKept(m, m', blocks[i - 1].header);
      }
    }
  }

  lemma InsertKeepsAscending(blocks: seq<Block>, k: nat, b: Block)
    requires Ascending(blocks) && k < |blocks|
    requires blocks[k].header + HEADER_SIZE <= b.header
    requires k + 1 < |blocks| ==> b.header + HEADER_SIZE <= blocks[k + 1].header
    ensures Ascending(Insert(blocks, k, b))
  {
    var now := Insert(blocks, k, b);
    forall i, j | 0 <= i < j < |now|
      ensures Before(now, i, j)
    {
      InsertAt(blocks, k, b, i);
      InsertAt(blocks, k, b, j);
      if j <= k {
        assert Before(blocks, i, j);
      } else if j == k + 1 {
        assert i < k ==> Before(blocks, i, k);
      } else if i <= k {
        assert Before(blocks, i, j - 1);
      } else if i == k + 1 {
        assert j > k + 2 ==> Before(blocks, k + 1, j - 1);
      } else {
        assert Before(blocks, i - 1, j - 1);
      }
    }
  }

  lemma InsertedAfter(m: Bytes, m': Bytes, blocks: seq<Block>, k: nat, addr: nat)
    requires Linked(m, blocks) && k < |blocks|
    requires blocks[k].header + HEADER_SIZE <= addr && addr + HEADER_SIZE <= |m|
    requires k + 1 < |blocks| ==> addr + HEADER_SIZE <= blocks[k + 1].header
    requires OnlyHeaders(m, m', blocks[k].header, addr, blocks, k)
    requires LinkedIn(m, m', blocks[k].header, addr, NextOf(blocks, k))
    ensures Linked(m', Insert(blocks, k, BlockAt(m, addr)))
  {
    InsertKeepsAscending(blocks, k, BlockAt(m, addr));
    var now := Insert(blocks, k, BlockAt(m, addr));
    forall i | 0 <= i < |now|
      ensures now[i].header + HEADER_SIZE <= |m'| && Holds(m', now, i)
    {
      HoldsAfterInsert(m, m', blocks, k, BlockAt(m, addr), i);
    }
  }

  /** The first two assignments of link_new_entry: the new header's own links. */
  method SetOwnLinks(ram: array<Byte>, addr: nat, prev: nat) returns (next: nat)
    requires prev + HEADER_SIZE <= addr < WORD_LIMIT && addr + HEADER_SIZE <= ram.Length
    modifies ram
    ensures next == old(HeaderAt(ram[..], prev)).next
    ensures HeaderAt(ram[..], addr) == old(HeaderAt(ram[..], addr)).(previous := prev, next := next)
    ensures SameOutside(old(ram[..]), ram[..], addr, HEADER_SIZE)
  {
    ghost var m := ram[..];
    StoreField(ram, addr, Previous, prev);
    ElsewhereKept(m, ram[..], addr, HEADER_SIZE, prev);
    next := LoadField(ram, prev, Next);
    StoreField(ram, addr, Next, next);
  }

  /** The assignments of link_new_entry, in their order. */
  method SetLinks(ram: array<Byte>, addr: nat, prev: nat) returns (ghost next: nat)
    requires 0 < prev && prev + HEADER_SIZE <= addr < WORD_LIMIT && addr + HEADER_SIZE <= ram.Length
    requires var n := HeaderAt(ram[..], prev).next; n == NULL || (addr <= n && n + HEADER_SIZE <= ram.Length)
    modifies ram
    ensures next == old(HeaderAt(ram[..], prev)).next
    ensures HeaderAt(ram[..], prev) == old(HeaderAt(ram[..], prev)).(next := addr)
    ensures next == NULL || addr + HEADER_SIZE <= next ==> LinkedIn(old(ram[..]), ram[..], prev, addr, next)
    ensures forall x ::
              0 <= x < ram.Length && !InHeader(x, prev) && !InHeader(x, addr) && !(next != NULL && InHeader(x, next))
              ==> ram[x] == old(ram[x])
  {
    ghost var m0 := ram[..];
    var n := SetOwnLinks(ram, addr, prev);
    next := n;
    ghost var m2 := ram[..];
    ElsewhereKept(m0, m2, addr, HEADER_SIZE, prev);
    ghost var m3 := SetPrevious(ram, n, addr);
    if n != NULL {
      ElsewhereKept(m2, m3, n, HEADER_SIZE, prev);
    }
    StoreField(ram, prev, Next, addr);
    if next == NULL || addr + HEADER_SIZE <= next {
      SeparateStores(m0, m2, m3, ram[..], addr, prev, next);
    }
  }

  /** if (entry) entry->previous = value */
  method SetPrevious(ram: array<Byte>, entry: nat, value: nat) returns (ghost m: Bytes)
    requires entry == NULL || entry + HEADER_SIZE <= ram.Length
    requires value < WORD_LIMIT
    modifies ram
    ensures m == ram[..]
    ensures entry == NULL ==> m == old(ram[..])
    ensures entry != NULL ==> HeaderAt(m, entry) == old(HeaderAt(ram[..], entry)).(previous := value)
    ensures entry != NULL ==> SameOutside(old(ram[..]), m, entry, HEADER_SIZE)
  {
    if entry != NULL {
      StoreField(ram, entry, Previous, value);
    }
    m := ram[..];
  }

  lemma SeparateStores(m0: Bytes, m2: Bytes, m3: Bytes, m4: Bytes, addr: nat, prev: nat, next: nat)
    requires prev + HEADER_SIZE <= addr && addr + HEADER_SIZE <= |m0|
    requires next == NULL || (addr + HEADER_SIZE <= next && next + HEADER_SIZE <= |m0|)
    requires SameOutside(m0, m2, addr, HEADER_SIZE)
    requires HeaderAt(m2, addr) == HeaderAt(m0, addr).(previous := prev, next := next)
    requires if next == NULL then m3 == m2 else
               SameOutside(m2, m3, next, HEADER_SIZE) && HeaderAt(m3, next) == HeaderAt(m2, next).(previous := addr)
    requires SameOutside(m3, m4, prev, HEADER_SIZE) && HeaderAt(m4, prev) == HeaderAt(m0, prev).(next := addr)
    ensures LinkedIn(m0, m4, prev, addr, next)
  {
    ElsewhereKept(m3, m4, prev, HEADER_SIZE, addr);
    if next != NULL {
      ElsewhereKept(m2, m3, next, HEADER_SIZE, addr);
      ElsewhereKept(m0, m2, addr, HEADER_SIZE, next);
      ElsewhereKept(m3, m4, prev, HEADER_SIZE, next);
    }
  }

  /** Makes the header at addr the successor of prev. Where the new header does not run into the next
      one, the list gains one block and keeps the rest. */
  method LinkNewEntry(ram: array<Byte>, addr: nat, prev: nat, ghost blocks: seq<Block>, ghost k: nat)
    requires Linked(ram[..], blocks) && k < |blocks| && blocks[k].header == prev
    requires prev + HEADER_SIZE <= addr < WORD_LIMIT && addr + HEADER_SIZE <= ram.Length
    requires k + 1 < |blocks| ==> addr <= blocks[k + 1].header
    modifies ram
    ensures OnlyHeaders(old(ram[..]), ram[..], prev, addr, blocks, k)
    ensures HeaderAt(ram[..], prev) == old(HeaderAt(ram[..], prev)).(next := addr)
    ensures (k + 1 < |blocks| ==> addr + HEADER_SIZE <= blocks[k + 1].header) ==>
              Linked(ram[..], Insert(blocks, k, old(BlockAt(ram[..], addr))))
  {
    ghost var m := ram[..];
    assert Holds(m, blocks, k);
    ghost var next := SetLinks(ram, addr, prev);
    if k + 1 < |blocks| ==> addr + HEADER_SIZE <= blocks[k + 1].header {
      InsertedAfter(m, ram[..], blocks, k, addr);
    }
  }

  // --- merging ---

  lemma ListHeaderAfterMerge(blocks: seq<Block>, k: nat, i: nat)
    requires k + 1 < |blocks| && i + 1 < |blocks|
    ensures |MergeAt(blocks, k)| == |blocks| - 1
    ensures MergeAt(blocks, k)[i] ==
            if i < k then blocks[i] else if i == k then Merged(blocks[k], blocks[k + 1]) else blocks[i + 1]
    ensures ListHeader(MergeAt(blocks, k), i) ==
            if i < k then ListHeader(blocks, i)
            else if i == k then
              ListHeader(blocks, k).(start := Merged(blocks[k], blocks[k + 1]).start,
                                     size := Merged(blocks[k], blocks[k + 1]).size,
                                     next := NextOf(blocks, k + 1))
            else if i == k + 1 then ListHeader(blocks, i + 1).(previous := blocks[k].header)
            else ListHeader(blocks, i + 1)
  {
  }

  /** What the four assignments of merge_entries do to the headers at first and at second->next. */
  predicate MergedIn(m: Bytes, m': Bytes, first: nat, next: nat, start: nat, size: nat)
    requires first + HEADER_SIZE <= |m| && next + HEADER_SIZE <= |m|
  {
    var merged :=
      && |m| == |m'|
      && HeaderAt(m', first) == HeaderAt(m, first).(next := next, start := start, size := size)
      && (next != NULL ==> HeaderAt(m', next) == HeaderAt(m, next).(previous := first))
      && (forall x :: 0 <= x < |m| && !InHeader(x, first) && !(next != NULL && InHeader(x, next)) ==> m[x] == m'[x]);
    merged
  }

  /** The assignments to the links come first, the one to the size of first after them. */
  lemma LinksThenSize(m0: Bytes, m3: Bytes, m4: Bytes, first: nat, next: nat, start: nat, was: nat, size: nat)
    requires first + HEADER_SIZE <= |m0|
    requires next == NULL || (first + HEADER_SIZE <= next && next + HEADER_SIZE <= |m0|)
    requires MergedIn(m0, m3, first, next, start, was)
    requires SameOutside(m3, m4, first, HEADER_SIZE) && HeaderAt(m4, first) == HeaderAt(m3, first).(size := size)
    ensures MergedIn(m0, m4, first, next, start, size)
  {
    if next != NULL {
      ElsewhereKept(m3, m4, first, HEADER_SIZE, next);
    }
  }

  lemma HoldsAfterMerge(m: Bytes, m': Bytes, blocks: seq<Block>, k: nat, i: nat)
    requires Linked(m, blocks) && k + 1 < |blocks| && i + 1 < |blocks|
    requires MergedIn(m, m', blocks[k].header, NextOf(blocks, k + 1),
                      Merged(blocks[k], blocks[k + 1]).start, Merged(blocks[k], blocks[k + 1]).size)
    ensures |MergeAt(blocks, k)| == |blocks| - 1
    ensures MergeAt(blocks, k)[i].header + HEADER_SIZE <= |m'| && Holds(m', MergeAt(blocks, k), i)
  {
    ListHeaderAfterMerge(blocks, k, i);
    var j := if i <= k then i else i + 1;
    assert Holds(m, blocks, j);
    if i < k {
      assert Before(blocks, i, k) && (k + 2 < |blocks| ==> Before(blocks, i, k + 2));
      HeaderKept(m, m', blocks[j].header);
    } else if i > k + 1 {
      assert Before(blocks, k, j) && Before(blocks, k + 2, j);
      HeaderKept(m, m', blocks[j].header);
    }
  }

  lemma MergeKeepsAscending(blocks: seq<Block>, k: nat)
    requires Ascending(blocks) && k + 1 < |blocks|
    ensures Ascending(MergeAt(blocks, k))
  {
    var now := MergeAt(blocks, k);
    forall i, j | 0 <= i < j < |now|
      ensures Before(now, i, j)
    {
      assert Before(blocks, if i <= k then i else i + 1, if j <= k then j else j + 1);
    }
  }

  lemma MergeKeepsLinked(m: Bytes, m': Bytes, blocks: seq<Block>, k: nat)
    requires Linked(m, blocks) && k + 1 < |blocks|
    requires MergedIn(m, m', blocks[k].header, NextOf(blocks, k + 1),
                      Merged(blocks[k], blocks[k + 1]).start, Merged(blocks[k], blocks[k + 1]).size)
    ensures Linked(m', MergeAt(blocks, k))
  {
    MergeKeepsAscending(blocks, k);
    var now := MergeAt(blocks, k);
    forall i | 0 <= i < |now|
      ensures now[i].header + HEADER_SIZE <= |m'| && Holds(m', now, i)
    {
      HoldsAfterMerge(m, m', blocks, k, i);
    }
  }

  /** What a call came to: it ran to its end, or it followed a NULL pointer. */
  datatype Outcome = Done | NullDereference

  /** The first two assignments of merge_entries. */
  method SetFirst(ram: array<Byte>, first: nat, second: nat) returns (next: nat)
    requires first + HEADER_SIZE <= second < WORD_LIMIT && second + HEADER_SIZE <= ram.Length
    modifies ram
    ensures next == old(HeaderAt(ram[..], second)).next
    ensures HeaderAt(ram[..], first) == old(HeaderAt(ram[..], first)).(next := next, start := first + HEADER_SIZE)
    ensures HeaderAt(ram[..], second) == old(HeaderAt(ram[..], second))
    ensures SameOutside(old(ram[..]), ram[..], first, HEADER_SIZE)
  {
    ghost var m := ram[..];
    next := LoadField(ram, second, Next);
    StoreField(ram, first, Next, next);
    StoreField(ram, first, Start, first + HEADER_SIZE);
    ElsewhereKept(m, ram[..], first, HEADER_SIZE, second);
  }

  /** The third: the entry after second now follows first. */
  method PointBack(ram: array<Byte>, first: nat, ghost second: nat, next: nat) returns (ghost m: Bytes)
    requires first + HEADER_SIZE <= second < WORD_LIMIT && second + HEADER_SIZE <= ram.Length
    requires next == NULL || (second + HEADER_SIZE <= next && next + HEADER_SIZE <= ram.Length)
    modifies ram
    ensures m == ram[..]
    ensures if next == NULL then m == old(ram[..]) else
              && SameOutside(old(ram[..]), m, next, HEADER_SIZE)
              && HeaderAt(m, next) == old(HeaderAt(ram[..], next)).(previous := first)
    ensures HeaderAt(m, first) == old(HeaderAt(ram[..], first)) && HeaderAt(m, second) == old(HeaderAt(ram[..], second))
  {
    ghost var was := ram[..];
    m := SetPrevious(ram, next, first);
    if next != NULL {
      ElsewhereKept(was, m, next, HEADER_SIZE, first);
      ElsewhereKept(was, m, next, HEADER_SIZE, second);
    }
  }

  /** The last one: the size from the start of first to the end of second. */
  method SetSpan(ram: array<Byte>, first: nat, second: nat, ghost size: nat)
    requires first + HEADER_SIZE <= ram.Length && second + HEADER_SIZE <= ram.Length
    requires HeaderAt(ram[..], first).start == first + HEADER_SIZE
    requires var s := HeaderAt(ram[..], second); size == Sub32(s.start + s.size, first + HEADER_SIZE)
    modifies ram
    ensures SameOutside(old(ram[..]), ram[..], first, HEADER_SIZE)
    ensures HeaderAt(ram[..], first) == old(HeaderAt(ram[..], first)).(size := size)
  {
    var start := LoadField(ram, second, Start);
    var payload := LoadField(ram, second, Size);
    var firstStart := LoadField(ram, first, Start);
    StoreField(ram, first, Size, Sub32(start + payload, firstStart));
  }

  /** The assignments to the links, in their order. */
  method Unhook(ram: array<Byte>, first: nat, second: nat, nullTests: bool) returns (outcome: Outcome, ghost next: nat)
    requires 0 < first && first + HEADER_SIZE <= second < WORD_LIMIT && second + HEADER_SIZE <= ram.Length
    requires var n := HeaderAt(ram[..], second).next;
             n == NULL || (second + HEADER_SIZE <= n && n + HEADER_SIZE <= ram.Length)
    modifies ram
    ensures next == old(HeaderAt(ram[..], second)).next
    ensures outcome == Done <==> nullTests || next != NULL
    ensures HeaderAt(ram[..], second) == old(HeaderAt(ram[..], second))
    ensures outcome == Done ==> HeaderAt(ram[..], first).start == first + HEADER_SIZE
    ensures outcome == Done ==>
              MergedIn(old(ram[..]), ram[..], first, next, first + HEADER_SIZE, old(HeaderAt(ram[..], first)).size)
    ensures outcome == NullDereference ==> SameOutside(old(ram[..]), ram[..], first, HEADER_SIZE)
  {
    ghost var m := ram[..];
    var n := SetFirst(ram, first, second);
    next := n;
    if n == NULL && !nullTests {
      return NullDereference, next;
    }
    if n != NULL {
      ElsewhereKept(m, ram[..], first, HEADER_SIZE, n);
    }
    ghost var _ := PointBack(ram, first, second, n);
    return Done, next;
  }

  /** The assignments of merge_entries, in their order. */
  method SetMerged(ram: array<Byte>, first: nat, second: nat, nullTests: bool)
    returns (outcome: Outcome, ghost next: nat, ghost size: nat)
    requires 0 < first && first + HEADER_SIZE <= second < WORD_LIMIT && second + HEADER_SIZE <= ram.Length
    requires var n := HeaderAt(ram[..], second).next;
             n == NULL || (second + HEADER_SIZE <= n && n + HEADER_SIZE <= ram.Length)
    modifies ram
    ensures next == old(HeaderAt(ram[..], second)).next
    ensures var s := old(HeaderAt(ram[..], second)); size == Sub32(s.start + s.size, first + HEADER_SIZE)
    ensures outcome == Done <==> nullTests || next != NULL
    ensures outcome == Done ==> MergedIn(old(ram[..]), ram[..], first, next, first + HEADER_SIZE, size)
    ensures outcome == NullDereference ==> SameOutside(old(ram[..]), ram[..], first, HEADER_SIZE)
  {
    ghost var m0 := ram[..];
    size := Sub32(HeaderAt(m0, second).start + HeaderAt(m0, second).size, first + HEADER_SIZE);
    outcome, next := Unhook(ram, first, second, nullTests);
    if outcome == Done {
      ghost var m3 := ram[..];
      SetSpan(ram, first, second, size);
      LinksThenSize(m0, m3, ram[..], first, next, first + HEADER_SIZE, HeaderAt(m0, first).size, size);
    }
  }

  /** merge_entries for blocks k and k + 1. The C code writes second->next->previous without asking
      whether there is a second->next; with nullTests the write is guarded, as link_new_entry's is. */
  method MergeEntries(ram: array<Byte>, first: nat, second: nat, nullTests: bool, ghost blocks: seq<Block>,
                      ghost k: nat)
    returns (outcome: Outcome)
    requires Linked(ram[..], blocks) && k + 1 < |blocks|
    requires blocks[k].header == first && blocks[k + 1].header == second < WORD_LIMIT
    modifies ram
    ensures outcome == Done <==> nullTests || k + 2 < |blocks|
    ensures outcome == Done ==> Linked(ram[..], MergeAt(blocks, k))
    ensures OnlyHeaders(old(ram[..]), ram[..], first, first, blocks, k + 1)
    ensures outcome == Done ==> HeaderAt(ram[..], first).available == old(HeaderAt(ram[..], first)).available
  {
    ghost var m := ram[..];
    HeadersInOrder(m, blocks, k);
    ghost var next, size;
    outcome, next, size := SetMerged(ram, first, second, nullTests);
    ghost var merged := Merged(blocks[k], blocks[k + 1]);
    assert next == NextOf(blocks, k + 1);
    assert size == merged.size && first + HEADER_SIZE == merged.start;
    if outcome == Done {
      MergeKeepsLinked(m, ram[..], blocks, k);
    }
  }

  lemma HeadersInOrder(m: Bytes, blocks: seq<Block>, k: nat)
    requires Linked(m, blocks) && k + 1 < |blocks|
    ensures 0 < blocks[k].header && blocks[k].header + HEADER_SIZE <= blocks[k + 1].header
    ensures HeaderAt(m, blocks[k + 1].header) == ListHeader(blocks, k + 1)
    ensures k + 2 < |blocks| ==>
              && blocks[k + 1].header + HEADER_SIZE <= blocks[k + 2].header
              && blocks[k + 2].header + HEADER_SIZE <= |m|
  {
    assert Holds(m, blocks, k + 1) && Before(blocks, k, k + 1);
    if k + 2 < |blocks| {
      assert Before(blocks, k + 1, k + 2);
    }
  }
}
