/** The kernel heap: setup_heap, kmalloc and kfree. */
module Heap {
  import opened Memory
  import opened HeapHeader
  import opened HeapSpec
  import opened HeapProofs
  import opened HeapList
  import opened HeapAlloc

  /** The neighbours that kfree and merge_entries dereference without asking whether they exist. */
  predicate NeighboursExist(blocks: seq<Block>, k: nat)
    requires k < |blocks|
  {
    k > 0 && k + 1 < |blocks| && (blocks[k + 1].Free() ==> k + 2 < |blocks|)
  }

  /** kfree's signs of an invalid pointer, in the header before it. */
  predicate LooksInvalid(m: Bytes, ptr: nat)
    requires HEADER_SIZE <= ptr <= |m|
  {
    var h := HeaderAt(m, ptr - HEADER_SIZE);
    h.available != 0 || h.size == 0 || h.start == NULL
  }

  /** Read off the 24 bytes before the pointer: a pointer passes the check exactly if the first word is
      zero and the two behind it are not. */
  lemma LooksInvalidIff(m: Bytes, ptr: nat)
    requires HEADER_SIZE <= ptr <= |m|
    ensures !LooksInvalid(m, ptr)
            <==> && LittleEndian(m[ptr - 24..ptr - 20]) == 0
                 && LittleEndian(m[ptr - 20..ptr - 16]) > 0 && LittleEndian(m[ptr - 16..ptr - 12]) > 0
  {
    HeaderLayout(m, ptr - HEADER_SIZE);
  }

  /** Block k is allocated, has no gap, and its payload starts at ptr. */
  predicate Owns(blocks: seq<Block>, k: nat, ptr: nat) {
    && k < |blocks|
    && !blocks[k].Free()
    && blocks[k].header + HEADER_SIZE == blocks[k].start == ptr
  }

  /** Only bytes of headers of the list may differ. */
  predicate FreeFrame(m: Bytes, m': Bytes, blocks: seq<Block>) {
    && |m| == |m'|
    && forall x :: 0 <= x < |m| && !InSomeHeader(blocks, x) ==> m[x] == m'[x]
  }

  /** What kmalloc makes of the memory m and its blocks when block k serves the request. */
  ghost predicate Served(m: Bytes, m': Bytes, blocks: seq<Block>, blocks': seq<Block>, k: nat, size: nat, o: nat,
                         description: nat, lo: nat, hi: nat)
    requires k < |blocks|
  {
    var served :=
      && (HeapTiled(m', lo, lo, hi) <==> SplitIsSound(blocks[k].size, o, size))
      && (SplitIsSound(blocks[k].size, o, size) ==>
            && blocks' == AllocAt(blocks, k, o, size, description)
            && Linked(m', blocks')
            && WellFormed(blocks', lo, hi))
      && AllocFrame(m, m', blocks, k, hi);
    served
  }

  lemma SoundSplitServes(m: Bytes, m': Bytes, blocks: seq<Block>, k: nat, size: nat, o: nat, description: nat,
                         lo: nat, hi: nat)
    requires WellFormed(blocks, lo, hi) && hi < WORD_LIMIT && k < |blocks|
    requires blocks[k].Free() && size + o <= blocks[k].size
    requires !RunsIntoNext(blocks, k, o, size) ==> Linked(m', AllocAt(blocks, k, o, size, description))
    requires HeapTiled(m', lo, lo, hi) <==> SplitIsSound(blocks[k].size, o, size)
    requires AllocFrame(m, m', blocks, k, hi)
    ensures Served(m, m', blocks, AllocAt(blocks, k, o, size, description), k, size, o, description, lo, hi)
  {
    if SplitIsSound(blocks[k].size, o, size) {
      SoundSplitIsApart(blocks, k, size, o, lo, hi);
      AllocTilesIff(blocks, k, o, size, description, lo, hi);
      AllocKeepsFreeApart(blocks, k, o, size, description);
    }
  }

  lemma SoundSplitIsApart(blocks: seq<Block>, k: nat, size: nat, o: nat, lo: nat, hi: nat)
    requires Tiles(blocks, lo, hi) && hi < WORD_LIMIT && k < |blocks|
    requires size + o <= blocks[k].size && SplitIsSound(blocks[k].size, o, size)
    ensures !RunsIntoNext(blocks, k, o, size)
  {
    HeadersAscendFrom(blocks, lo, hi, k, k);
    assert BlockFits(blocks[k], Follower(blocks, hi, k));
  }

  /** The call of alloc_entry. */
  method ServeEntry(ram: array<Byte>, entry: nat, startOffset: nat, size: nat, description: nat,
                    ghost blocks: seq<Block>, ghost k: nat, ghost lo: nat, ghost hi: nat)
    returns (mptr: nat, ghost after: seq<Block>)
    requires Linked(ram[..], blocks) && WellFormed(blocks, lo, hi) && hi < WORD_LIMIT
    requires k < |blocks| && blocks[k].header == entry && blocks[k].Free()
    requires RoomToSplit(blocks[k].size, startOffset, size, hi, ram.Length)
    requires size + startOffset <= blocks[k].size && description < WORD_LIMIT
    modifies ram
    ensures mptr == blocks[k].start + startOffset && mptr != NULL
    ensures Served(old(ram[..]), ram[..], blocks, after, k, size, startOffset, description, lo, hi)
  {
    ghost var m := ram[..];
    assert Holds(m, blocks, k);
    after := AllocAt(blocks, k, startOffset, size, description);
    HeadersAscendFrom(blocks, lo, hi, k, k);
    mptr := AllocEntry(ram, entry, startOffset, size, description, blocks, k, lo, hi);
    SoundSplitServes(m, ram[..], blocks, k, size, startOffset, description, lo, hi);
  }

  method OffsetFrom(start: nat, align: nat) returns (startOffset: nat)
    requires start < WORD_LIMIT && 0 < align < WORD_LIMIT
    ensures startOffset == AlignOffset(start, align)
  {
    startOffset := Sub32(NextAlignedAddr(start, align), start);
    OffsetSurvivesWrap(start, align);
  }

  /** One round of kmalloc's search: the offset, the test, and the next entry. */
  method Examine(ram: array<Byte>, entry: nat, size: nat, align: nat, ghost blocks: seq<Block>, ghost i: nat)
    returns (startOffset: nat, fits: bool, next: nat)
    requires Linked(ram[..], blocks) && i < |blocks| && blocks[i].header == entry
    requires 0 < align < WORD_LIMIT && size + align <= WORD_LIMIT
    ensures startOffset == AlignOffset(blocks[i].start, align)
    ensures fits == Fits(blocks[i], size, align)
    ensures next == NextOf(blocks, i)
  {
    assert Holds(ram[..], blocks, i);
    var start := LoadField(ram, entry, Start);
    startOffset := OffsetFrom(start, align);
    var minSize := Add32(size, startOffset);
    var available := LoadField(ram, entry, Available);
    var entrySize := LoadField(ram, entry, Size);
    fits := available != 0 && entrySize >= minSize;
    next := LoadField(ram, entry, Next);
  }

  method SetFirstHeader(ram: array<Byte>, a: nat, size: nat)
    requires a + HEADER_SIZE <= ram.Length && a + HEADER_SIZE + size < WORD_LIMIT
    modifies ram
    ensures HeaderAt(ram[..], a) == Header(1, size, a + HEADER_SIZE, NULL, NULL, NULL)
    ensures SameOutside(old(ram[..]), ram[..], a, HEADER_SIZE)
  {
    StoreField(ram, a, Available, 1);
    StoreField(ram, a, Description, NULL);
    StoreField(ram, a, Next, NULL);
    StoreField(ram, a, Previous, NULL);
    StoreField(ram, a, Size, size);
    StoreField(ram, a, Start, a + HEADER_SIZE);
  }

  lemma FirstHeaderLinked(m: Bytes, a: nat, e: nat, size: nat)
    requires 0 < a && a + HEADER_SIZE <= |m| && e == a + HEADER_SIZE + size
    requires HeaderAt(m, a) == Header(1, size, a + HEADER_SIZE, NULL, NULL, NULL)
    ensures Linked(m, [FreeSpan(a, e)]) && WellFormed([FreeSpan(a, e)], a, e)
  {
    assert Holds(m, [FreeSpan(a, e)], 0);
    assert BlockFits(FreeSpan(a, e), Follower([FreeSpan(a, e)], e, 0));
  }

  // --- kfree ---

  /** kfree's marking: the entry becomes available and loses its description. */
  method MarkFree(ram: array<Byte>, entry: nat, ghost blocks: seq<Block>, ghost k: nat)
    requires Linked(ram[..], blocks) && k < |blocks| && blocks[k].header == entry
    modifies ram
    ensures Linked(ram[..], Release(blocks, k))
    ensures FreeFrame(old(ram[..]), ram[..], blocks)
  {
    ghost var m := ram[..];
    Assign(ram, entry, Available, 1, blocks, k);
    ghost var one := blocks[k := blocks[k].(available := 1)];
    Assign(ram, entry, Description, NULL, one, k);
    assert one[k := one[k].(description := NULL)] == Release(blocks, k);
    HeaderWriteInFrame(m, ram[..], blocks, k);
  }

  lemma HeaderWriteInFrame(m: Bytes, m': Bytes, blocks: seq<Block>, k: nat)
    requires k < |blocks| && SameOutside(m, m', blocks[k].header, HEADER_SIZE)
    ensures FreeFrame(m, m', blocks)
  {
  }

  lemma MergeInFrame(m: Bytes, m': Bytes, blocks: seq<Block>, k: nat)
    requires k + 1 < |blocks| && OnlyHeaders(m, m', blocks[k].header, blocks[k].header, blocks, k + 1)
    ensures FreeFrame(m, m', blocks)
  {
    forall x | 0 <= x < |m| && !InSomeHeader(blocks, x)
      ensures m[x] == m'[x]
    {
      assert !InHeader(x, blocks[k].header);
      assert k + 2 < |blocks| ==> !InHeader(x, blocks[k + 2].header);
    }
  }

  /** Frames compose when every header of the later list is a header of the earlier one. */
  lemma FrameTwice(m: Bytes, m': Bytes, m'': Bytes, blocks: seq<Block>, later: seq<Block>)
    requires FreeFrame(m, m', blocks) && FreeFrame(m', m'', later)
    requires forall i :: 0 <= i < |later| ==> InSomeHeaderStart(blocks, later[i].header)
    ensures FreeFrame(m, m'', blocks)
  {
    forall x | 0 <= x < |m| && !InSomeHeader(blocks, x)
      ensures m[x] == m''[x]
    {
      forall i | 0 <= i < |later|
        ensures !InHeader(x, later[i].header)
      {
        assert InSomeHeaderStart(blocks, later[i].header);
      }
    }
  }

  predicate InSomeHeaderStart(blocks: seq<Block>, a: nat) {
    exists i :: 0 <= i < |blocks| && blocks[i].header == a
  }

  lemma MergeKeepsHeaders(blocks: seq<Block>, k: nat)
    requires k + 1 < |blocks|
    ensures forall i :: 0 <= i < |MergeAt(blocks, k)| ==> InSomeHeaderStart(blocks, MergeAt(blocks, k)[i].header)
  {
    forall i | 0 <= i < |MergeAt(blocks, k)|
      ensures InSomeHeaderStart(blocks, MergeAt(blocks, k)[i].header)
    {
      ListHeaderAfterMerge(blocks, k, i);
      assert blocks[if i <= k then i else i + 1].header == MergeAt(blocks, k)[i].header;
    }
  }

  /** Merging writes nothing into the header that leaves the list. */
  lemma SecondKept(m: Bytes, m': Bytes, blocks: seq<Block>, k: nat)
    requires Linked(m, blocks) && k + 1 < |blocks|
    requires OnlyHeaders(m, m', blocks[k].header, blocks[k].header, blocks, k + 1)
    ensures HeaderAt(m', blocks[k + 1].header) == HeaderAt(m, blocks[k + 1].header)
  {
    HeadersInOrder(m, blocks, k);
    HeaderKept(m, m', blocks[k + 1].header);
  }

  method MergeWithPrevious(ram: array<Byte>, previous: nat, entry: nat, nullTests: bool, ghost blocks: seq<Block>,
                           ghost k: nat)
    returns (outcome: Outcome)
    requires Linked(ram[..], blocks) && k + 1 < |blocks|
    requires blocks[k].header == previous && blocks[k + 1].header == entry < WORD_LIMIT
    modifies ram
    ensures outcome == Done <==> nullTests || k + 2 < |blocks|
    ensures outcome == Done ==> Linked(ram[..], MergeAt(blocks, k))
    ensures |MergeAt(blocks, k)| == |blocks| - 1 && MergeAt(blocks, k)[k].header == previous
    ensures HeaderAt(ram[..], entry) == old(HeaderAt(ram[..], entry))
    ensures FreeFrame(old(ram[..]), ram[..], blocks)
  {
    ghost var m := ram[..];
    outcome := MergeEntries(ram, previous, entry, nullTests, blocks, k);
    MergeInFrame(m, ram[..], blocks, k);
    SecondKept(m, ram[..], blocks, k);
    ListHeaderAfterMerge(blocks, k, k);
  }

  /** if (entry->previous->available) entry = merge_entries(entry->previous, entry). */
  method TryMergeLeft(ram: array<Byte>, entry: nat, nullTests: bool, ghost blocks: seq<Block>, ghost k: nat)
    returns (outcome: Outcome, merged: nat)
    requires Linked(ram[..], blocks) && k < |blocks| && blocks[k].header == entry < WORD_LIMIT
    modifies ram
    ensures outcome == Done <==> nullTests || (k > 0 && (blocks[k - 1].Free() ==> k + 1 < |blocks|))
    ensures outcome == Done ==> Linked(ram[..], MergeLeft(blocks, k))
    ensures outcome == Done ==> AfterLeft(blocks, k) < |MergeLeft(blocks, k)|
    ensures outcome == Done ==> merged == MergeLeft(blocks, k)[AfterLeft(blocks, k)].header < WORD_LIMIT
    ensures outcome == Done ==> HeaderAt(ram[..], entry).available == blocks[k].available
    ensures outcome == Done ==> merged == entry || merged + HEADER_SIZE <= entry
    ensures FreeFrame(old(ram[..]), ram[..], blocks)
  {
    ghost var m := ram[..];
    assert Holds(m, blocks, k);
    var previous := LoadField(ram, entry, Previous);
    if previous == NULL {
      return if nullTests then Done else NullDereference, entry;
    }
    assert Holds(m, blocks, k - 1);
    var available := LoadField(ram, previous, Available);
    if available == 0 {
      return Done, entry;
    }
    assert Before(blocks, k - 1, k);
    outcome := MergeWithPrevious(ram, previous, entry, nullTests, blocks, k - 1);
    return outcome, previous;
  }

  /** if (entry->next->available) merge_entries(entry, entry->next). */
  method TryMergeRight(ram: array<Byte>, entry: nat, nullTests: bool, ghost blocks: seq<Block>, ghost k: nat,
                       ghost within: nat)
    returns (outcome: Outcome)
    requires Linked(ram[..], blocks) && k < |blocks| && blocks[k].header == entry
    requires within == entry || entry + HEADER_SIZE <= within
    requires within + HEADER_SIZE <= (if k + 1 < |blocks| then blocks[k + 1].header else ram.Length)
    modifies ram
    ensures outcome == Done <==> nullTests || (k + 1 < |blocks| && (blocks[k + 1].Free() ==> k + 2 < |blocks|))
    ensures outcome == Done ==> Linked(ram[..], MergeRight(blocks, k))
    ensures outcome == Done ==> HeaderAt(ram[..], within).available == old(HeaderAt(ram[..], within)).available
    ensures FreeFrame(old(ram[..]), ram[..], blocks)
  {
    ghost var m := ram[..];
    assert Holds(m, blocks, k);
    var next := LoadField(ram, entry, Next);
    if next == NULL {
      return if nullTests then Done else NullDereference;
    }
    assert Holds(m, blocks, k + 1);
    var available := LoadField(ram, next, Available);
    if available == 0 {
      return Done;
    }
    outcome := MergeEntries(ram, entry, next, nullTests, blocks, k);
    MergeInFrame(m, ram[..], blocks, k);
    if within != entry {
      HeadersInOrder(m, blocks, k);
      HeaderKept(m, ram[..], within);
    }
  }

  lemma MergedNeighbours(blocks: seq<Block>, k: nat)
    requires k < |blocks| && !blocks[k].Free() && blocks[k].size != 0
    ensures var left := MergeLeft(Release(blocks, k), k);
            var a := AfterLeft(Release(blocks, k), k);
            && a < |left|
            && (a + 1 < |left| <==> k + 1 < |blocks|)
            && (a + 2 < |left| <==> k + 2 < |blocks|)
            && (k + 1 < |blocks| ==> left[a + 1] == blocks[k + 1])
            && FreeAt(blocks, k) == MergeRight(left, a)
  {
  }

  /** The header before an owned pointer is that of its owner; it looks invalid only if the size is zero. */
  lemma OwnedHeader(m: Bytes, blocks: seq<Block>, k: nat, ptr: nat)
    requires Linked(m, blocks) && Owns(blocks, k, ptr)
    ensures ptr <= |m| && (LooksInvalid(m, ptr) <==> blocks[k].size == 0)
  {
    assert Holds(m, blocks, k);
  }

  lemma ReleaseInFrame(m: Bytes, m1: Bytes, m2: Bytes, blocks: seq<Block>, k: nat)
    requires k < |blocks| && FreeFrame(m, m1, blocks) && FreeFrame(m1, m2, Release(blocks, k))
    ensures FreeFrame(m, m2, blocks)
  {
    forall i | 0 <= i < |Release(blocks, k)|
      ensures InSomeHeaderStart(blocks, Release(blocks, k)[i].header)
    {
      assert blocks[i].header == Release(blocks, k)[i].header;
    }
    FrameTwice(m, m1, m2, blocks, Release(blocks, k));
  }

  /** The two merges of kfree, after the marking. */
  method Defragment(ram: array<Byte>, entry: nat, nullTests: bool, ghost blocks: seq<Block>, ghost k: nat)
    returns (outcome: Outcome)
    requires k < |blocks| && !blocks[k].Free() && blocks[k].size != 0
    requires Linked(ram[..], Release(blocks, k)) && blocks[k].header == entry < WORD_LIMIT
    modifies ram
    ensures outcome == Done <==> nullTests || NeighboursExist(blocks, k)
    ensures outcome == Done ==> Linked(ram[..], FreeAt(blocks, k)) && HeaderAt(ram[..], entry).available == 1
    ensures FreeFrame(old(ram[..]), ram[..], Release(blocks, k))
  {
    ghost var m := ram[..];
    ghost var released := Release(blocks, k);
    MergedNeighbours(blocks, k);
    var merged;
    outcome, merged := TryMergeLeft(ram, entry, nullTests, released, k);
    if outcome != Done {
      return;
    }
    ghost var m1 := ram[..];
    ghost var left := MergeLeft(released, k);
    assert k + 1 < |blocks| ==> Before(released, k, k + 1);
    outcome := TryMergeRight(ram, merged, nullTests, left, AfterLeft(released, k), entry);
    if k > 0 && released[k - 1].Free() {
      MergeKeepsHeaders(released, k - 1);
    }
    FrameTwice(m, m1, ram[..], released, left);
  }

  /** kfree's check for signs of an invalid pointer. */
  method CheckEntry(ram: array<Byte>, ptr: nat) returns (invalid: bool)
    requires HEADER_SIZE <= ptr <= ram.Length
    ensures invalid <==> LooksInvalid(ram[..], ptr)
  {
    var available := LoadField(ram, ptr - HEADER_SIZE, Available);
    var size := LoadField(ram, ptr - HEADER_SIZE, Size);
    var start := LoadField(ram, ptr - HEADER_SIZE, Start);
    invalid := available != 0 || size == 0 || start == NULL;
  }

  /** The marking and the merges together. */
  method ReleaseEntry(ram: array<Byte>, entry: nat, nullTests: bool, ghost blocks: seq<Block>, ghost k: nat,
                      ghost lo: nat, ghost hi: nat)
    returns (outcome: Outcome)
    requires Linked(ram[..], blocks) && WellFormed(blocks, lo, hi) && hi < WORD_LIMIT
    requires Owns(blocks, k, entry + HEADER_SIZE) && !LooksInvalid(ram[..], entry + HEADER_SIZE)
    modifies ram
    ensures outcome == Done <==> nullTests || NeighboursExist(blocks, k)
    ensures outcome == Done ==> Linked(ram[..], FreeAt(blocks, k)) && WellFormed(FreeAt(blocks, k), lo, hi)
    ensures outcome == Done ==> LooksInvalid(ram[..], entry + HEADER_SIZE)
    ensures FreeFrame(old(ram[..]), ram[..], blocks)
  {
    ghost var m := ram[..];
    assert Holds(m, blocks, k);
    FreeKeepsWellFormed(blocks, k, lo, hi);
    HeadersAscendFrom(blocks, lo, hi, k, k);
    MarkFree(ram, entry, blocks, k);
    ghost var m1 := ram[..];
    outcome := Defragment(ram, entry, nullTests, blocks, k);
    ReleaseInFrame(m, m1, ram[..], blocks, k);
  }

  class KernelHeap {
    const ram: array<Byte>
    var heapStart: nat
    var locked: bool
    ghost var blocks: seq<Block>
    ghost var lo: nat
    ghost var hi: nat

    /** The memory holds the list of blocks, which tiles [lo, hi) with no two free blocks in a row. */
    ghost predicate Valid()
      reads this, ram
    {
      && Linked(ram[..], blocks)
      && WellFormed(blocks, lo, hi)
      && heapStart == lo
      && hi < WORD_LIMIT && hi <= ram.Length
    }

    /** The request is split soundly, or memory goes on for one header behind the heap, where an unsound
        split may write. */
    ghost predicate HasRoom(size: nat, align: nat)
      requires align > 0
      reads this
    {
      var k := FirstFit(blocks, size, align, 0);
      k < |blocks| ==> RoomToSplit(blocks[k].size, AlignOffset(blocks[k].start, align), size, hi, ram.Length)
    }

    constructor (memory: array<Byte>)
      ensures ram == memory && heapStart == NULL && !locked
    {
      ram := memory;
      heapStart := NULL;
      locked := false;
      blocks, lo, hi := [], 0, 0;
    }

    /** setup_heap: one free block over the whole range. */
    method Setup(startAddr: nat, maxSize: nat)
      requires 0 < startAddr && HEADER_SIZE <= maxSize
      requires startAddr + maxSize < WORD_LIMIT && startAddr + maxSize <= ram.Length
      modifies this, ram
      ensures Valid() && !locked
      ensures lo == startAddr && hi == startAddr + maxSize
      ensures blocks == [FreeSpan(startAddr, startAddr + maxSize)]
      ensures SameOutside(old(ram[..]), ram[..], startAddr, HEADER_SIZE)
    {
      SetFirstHeader(ram, startAddr, maxSize - HEADER_SIZE);
      heapStart := startAddr;
      locked := false;
      lo, hi := startAddr, startAddr + maxSize;
      blocks := [FreeSpan(lo, hi)];
      FirstHeaderLinked(ram[..], startAddr, hi, maxSize - HEADER_SIZE);
    }

    /** kmalloc. The first free block that has room for the offset and the size serves the request; NULL
        is returned exactly when there is none. The heap stays tiled exactly when the split was sound, and
        then the blocks are those of AllocAt. */
    method Kmalloc(size: nat, align: nat, description: nat) returns (mptr: nat)
      requires Valid() && !locked
      requires 0 < align < WORD_LIMIT && size + align <= WORD_LIMIT && description < WORD_LIMIT
      requires HasRoom(size, align)
      modifies this, ram
      ensures !locked && heapStart == old(heapStart) && lo == old(lo) && hi == old(hi)
      ensures var k := FirstFit(old(blocks), size, align, 0);
              if k == |old(blocks)| then
                mptr == NULL && ram[..] == old(ram[..]) && blocks == old(blocks) && Valid()
              else
                var o := AlignOffset(old(blocks)[k].start, align);
                && mptr == old(blocks)[k].start + o && mptr != NULL
                && Served(old(ram[..]), ram[..], old(blocks), blocks, k, size, o, description, lo, hi)
                && (SplitIsSound(old(blocks)[k].size, o, size) ==> Valid())
      ensures mptr == NULL <==> !SomeHolds(old(blocks), size, align)
    {
      locked := true;
      ghost var i := 0;
      var entry := heapStart;
      while entry != NULL
        invariant locked && heapStart == old(heapStart) && ram[..] == old(ram[..])
        invariant blocks == old(blocks) && lo == old(lo) && hi == old(hi)
        invariant i <= |blocks| && entry == (if i < |blocks| then blocks[i].header else NULL)
        invariant FirstFit(blocks, size, align, i) == FirstFit(blocks, size, align, 0)
        decreases |blocks| - i
      {
        var startOffset, fits, next := Examine(ram, entry, size, align, blocks, i);
        if fits {
          FirstFitIff(blocks, size, align);
          mptr, blocks := ServeEntry(ram, entry, startOffset, size, description, blocks, i, lo, hi);
          locked := false;
          return;
        }
        entry := next;
        i := i + 1;
      }
      FirstFitIff(blocks, size, align);
      locked := false;
      return NULL;
    }

    /** kfree, with the C code's missing NULL tests added or not. A pointer below the size of a header
        returns with the lock still held. A pointer whose header looks invalid changes nothing. Otherwise
        the pointer must be the start of an allocated block k without a gap; without the added tests the
        call reaches its end exactly when the neighbours it follows exist, and then the blocks are those of
        FreeAt and the heap is as well formed as before. After a call that ends, the pointer looks invalid,
        even when its header has been merged away: freeing it again at once changes nothing. */
    method Kfree(ptr: nat, nullTests: bool, ghost k: nat) returns (outcome: Outcome)
      requires Valid() && !locked && ptr <= ram.Length
      requires ptr < HEADER_SIZE || LooksInvalid(ram[..], ptr) || Owns(blocks, k, ptr)
      modifies this, ram
      ensures heapStart == old(heapStart) && lo == old(lo) && hi == old(hi)
      ensures locked <==> ptr < HEADER_SIZE || outcome == NullDereference
      ensures FreeFrame(old(ram[..]), ram[..], old(blocks))
      ensures if ptr < HEADER_SIZE || old(LooksInvalid(ram[..], ptr)) then
                outcome == Done && Valid() && blocks == old(blocks) && ram[..] == old(ram[..])
              else
                && (outcome == Done <==> nullTests || NeighboursExist(old(blocks), k))
                && (outcome == Done ==> Valid() && blocks == FreeAt(old(blocks), k))
      ensures outcome == Done && HEADER_SIZE <= ptr ==> LooksInvalid(ram[..], ptr)
    {
      locked := true;
      if ptr < HEADER_SIZE {
        return Done;
      }
      var invalid := CheckEntry(ram, ptr);
      if invalid {
        locked := false;
        return Done;
      }
      outcome := ReleaseEntry(ram, ptr - HEADER_SIZE, nullTests, blocks, k, lo, hi);
      if outcome == NullDereference {
        return;
      }
      blocks := FreeAt(blocks, k);
      locked := false;
    }
  }
}
