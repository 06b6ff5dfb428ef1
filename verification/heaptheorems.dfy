/** What clients of the heap can rely on, over single calls and over whole runs. */
module HeapTheorems {
  import opened Memory
  import opened Wrappers
  import opened HeapHeader
  import opened HeapSpec
  import opened HeapProofs
  import opened HeapList
  import opened HeapAlloc
  import opened Heap

  // --- what one kmalloc hands out ---

  lemma TakenAt(blocks: seq<Block>, k: nat, o: nat, n: nat, description: nat)
    requires k < |blocks|
    ensures TakenIndex(k, o) < |AllocAt(blocks, k, o, n, description)|
    ensures AllocAt(blocks, k, o, n, description)[TakenIndex(k, o)] == Taken(blocks[k], o, n, description)
  {
    assert Carve(blocks[k], o, n, description)[TakenIndex(k, o) - k] == Taken(blocks[k], o, n, description);
  }

  /** After a sound split the n bytes at the address handed out lie in the payload of one allocated block, which
      carries the description and is no larger unless the rest is too small for an entry of its own. */
  lemma ServedInside(blocks: seq<Block>, k: nat, o: nat, n: nat, description: nat, lo: nat, hi: nat)
    requires Tiles(blocks, lo, hi) && hi < WORD_LIMIT
    requires k < |blocks| && blocks[k].Free() && n + o <= blocks[k].size
    requires SplitIsSound(blocks[k].size, o, n)
    ensures var after := AllocAt(blocks, k, o, n, description);
            var t := TakenIndex(k, o);
            && t < |after| && !after[t].Free() && after[t].start == blocks[k].start + o && n <= after[t].size
            && after[t].description == description
            && after[t].size == (if blocks[k].size - n > 96 then n else blocks[k].size)
            && after[t].start + after[t].size <= blocks[k].start + blocks[k].size
  {
    TakenAt(blocks, k, o, n, description);
    HeadersAscendFrom(blocks, lo, hi, k, k);
  }

  /** Headers and payloads of a tiled heap are pairwise disjoint: a payload byte of one block is in no
      header and in no other payload. */
  lemma PayloadsDisjoint(blocks: seq<Block>, lo: nat, hi: nat, j: nat, x: nat)
    requires Tiles(blocks, lo, hi) && InPayload(blocks, j, x)
    ensures lo <= x < hi
    ensures !InSomeHeader(blocks, x)
    ensures forall i :: 0 <= i < |blocks| && i != j ==> !InPayload(blocks, i, x)
  {
    HeadersAscend(blocks, lo, hi);
    forall i | 0 <= i < |blocks|
      ensures !InHeader(x, blocks[i].header)
      ensures i != j ==> !InPayload(blocks, i, x)
    {
      assert i < j ==> blocks[i + 1].header <= blocks[j].header;
      assert j < i ==> blocks[j + 1].header <= blocks[i].header;
    }
  }

  /** Whichever way kmalloc splits, the bytes it hands out lay in the free block, and in no header and no
      other payload. */
  lemma ServedFromFree(blocks: seq<Block>, k: nat, o: nat, n: nat, lo: nat, hi: nat, x: nat)
    requires Tiles(blocks, lo, hi) && k < |blocks| && n + o <= blocks[k].size
    requires blocks[k].start + o <= x < blocks[k].start + o + n
    ensures InPayload(blocks, k, x) && lo <= x < hi && !InSomeHeader(blocks, x)
    ensures forall i :: 0 <= i < |blocks| && i != k ==> !InPayload(blocks, i, x)
  {
    PayloadsDisjoint(blocks, lo, hi, k, x);
  }

  /** kmalloc writes no byte of a live payload, whichever way it splits. */
  lemma AllocSparesPayloads(m: Bytes, m': Bytes, blocks: seq<Block>, k: nat, lo: nat, hi: nat, j: nat, x: nat)
    requires Tiles(blocks, lo, hi) && k < |blocks| && blocks[k].Free()
    requires AllocFrame(m, m', blocks, k, hi)
    requires InPayload(blocks, j, x) && !blocks[j].Free() && hi <= |m|
    ensures 0 <= x < |m| && x < |m'| && m'[x] == m[x]
  {
    PayloadsDisjoint(blocks, lo, hi, j, x);
  }

  /** kfree writes no byte of any payload. */
  lemma FreeSparesPayloads(m: Bytes, m': Bytes, blocks: seq<Block>, lo: nat, hi: nat, j: nat, x: nat)
    requires Tiles(blocks, lo, hi) && FreeFrame(m, m', blocks)
    requires InPayload(blocks, j, x) && hi <= |m|
    ensures 0 <= x < |m| && x < |m'| && m'[x] == m[x]
  {
    PayloadsDisjoint(blocks, lo, hi, j, x);
  }

  // --- kmalloc then kfree ---

  /** Some block's header lies where kfree looks for it. */
  predicate Findable(blocks: seq<Block>, ptr: nat) {
    exists i :: 0 <= i < |blocks| && blocks[i].header + HEADER_SIZE == ptr
  }

  /** The new entry is found at ptr - 24 exactly when the offset is zero or large enough for a split. */
  lemma FindableIff(blocks: seq<Block>, k: nat, o: nat, n: nat, description: nat, lo: nat, hi: nat)
    requires Tiles(blocks, lo, hi) && hi < WORD_LIMIT
    requires k < |blocks| && blocks[k].Free() && n + o <= blocks[k].size
    requires SplitIsSound(blocks[k].size, o, n)
    ensures Findable(AllocAt(blocks, k, o, n, description), blocks[k].start + o) <==> o == 0 || o >= 96
    ensures o == 0 || o >= 96 ==>
              Owns(AllocAt(blocks, k, o, n, description), TakenIndex(k, o), blocks[k].start + o)
  {
    var after := AllocAt(blocks, k, o, n, description);
    var t := TakenIndex(k, o);
    AllocTilesIff(blocks, k, o, n, description, lo, hi);
    TakenAt(blocks, k, o, n, description);
    assert BlockFits(blocks[k], Follower(blocks, hi, k));
    HeadersAscend(after, lo, hi);
    if 0 < o < SPLIT_LIMIT {
      forall i | 0 <= i < |after|
        ensures after[i].header + HEADER_SIZE != blocks[k].start + o
      {
        assert after[t].header == blocks[k].header;
        assert t < i ==> after[t].start + after[t].size <= after[t + 1].header <= after[i].header;
      }
    }
  }

  lemma SpliceBack(blocks: seq<Block>, k: nat, parts: seq<Block>, b: Block)
    requires k < |blocks| && |parts| > 0
    ensures k + |parts| <= |Splice(blocks, k, k + 1, parts)|
    ensures Splice(Splice(blocks, k, k + 1, parts), k, k + |parts|, [b]) == blocks[k := b]
  {
    var spliced := Splice(blocks, k, k + 1, parts);
    assert spliced[..k] == blocks[..k];
    assert spliced[k + |parts|..] == blocks[k + 1..];
  }

  /** The blocks that freeing the new entry joins are exactly the parts it was carved into. */
  lemma JoinsTheParts(blocks: seq<Block>, k: nat, o: nat, n: nat, description: nat)
    requires NoAdjacentFree(blocks) && k < |blocks| && blocks[k].Free() && n + o <= blocks[k].size
    requires o == 0 || o >= SPLIT_LIMIT
    ensures var after := AllocAt(blocks, k, o, n, description);
            var parts := Carve(blocks[k], o, n, description);
            && TakenIndex(k, o) < |after|
            && JoinFrom(after, TakenIndex(k, o)) == k
            && JoinTo(after, TakenIndex(k, o)) == k + |parts|
  {
    PartsInPlace(blocks, k, o, n, description);
    assert k > 0 ==> !blocks[k - 1].Free();
    assert k + 1 < |blocks| ==> !blocks[k + 1].Free();
  }

  /** What stands around the new entry. */
  lemma PartsInPlace(blocks: seq<Block>, k: nat, o: nat, n: nat, description: nat)
    requires k < |blocks|
    ensures var after := AllocAt(blocks, k, o, n, description);
            var parts := Carve(blocks[k], o, n, description);
            var t := TakenIndex(k, o);
            && |after| == |blocks| - 1 + |parts| && k <= t < k + |parts|
            && (o >= SPLIT_LIMIT ==> after[k] == Leading(blocks[k], o)[0])
            && (o < SPLIT_LIMIT && k > 0 ==> after[k - 1] == blocks[k - 1])
            && (if Trailing(blocks[k], o, n) != [] then
                  t + 2 == k + |parts| && after[t + 1] == Trailing(blocks[k], o, n)[0]
                else
                  t + 1 == k + |parts| && (k + 1 < |blocks| ==> after[t + 1] == blocks[k + 1]))
  {
    SpliceAt(blocks, k, k + 1, Carve(blocks[k], o, n, description), 0);
  }

  /** A list whose parts are all joined by freeing block t goes back to one free block in their room. */
  lemma JoiningUndoes(blocks: seq<Block>, k: nat, parts: seq<Block>, after: seq<Block>, t: nat, lo: nat, hi: nat)
    requires Tiles(blocks, lo, hi) && hi < WORD_LIMIT && k < |blocks| && blocks[k].Free()
    requires |parts| > 0 && parts[0].header == blocks[k].header && after == Splice(blocks, k, k + 1, parts)
    requires Tiles(after, lo, hi) && Freeable(after, t)
    requires JoinFrom(after, t) == k && JoinTo(after, t) == k + |parts|
    ensures FreeAt(after, t) == blocks
  {
    PartsRoom(blocks, k, parts, hi);
    FreeAtJoins(after, t, lo, hi);
    assert BlockFits(blocks[k], Follower(blocks, hi, k));
    assert FreeSpan(after[k].header, Follower(after, hi, k + |parts| - 1)) == blocks[k];
    SpliceBack(blocks, k, parts, blocks[k]);
  }

  lemma PartsRoom(blocks: seq<Block>, k: nat, parts: seq<Block>, hi: nat)
    requires k < |blocks| && |parts| > 0 && parts[0].header == blocks[k].header
    ensures var after := Splice(blocks, k, k + 1, parts);
            && k + |parts| <= |after|
            && after[k].header == blocks[k].header
            && Follower(after, hi, k + |parts| - 1) == Follower(blocks, hi, k)
  {
    SpliceAt(blocks, k, k + 1, parts, hi);
  }

  lemma TakenSize(blocks: seq<Block>, k: nat, o: nat, n: nat, description: nat, lo: nat, hi: nat)
    requires Tiles(blocks, lo, hi) && hi < WORD_LIMIT
    requires k < |blocks| && n + o <= blocks[k].size
    ensures Taken(blocks[k], o, n, description).size != 0 <==> n > 0 || 0 < blocks[k].size <= SPLIT_LIMIT
  {
    HeadersAscendFrom(blocks, lo, hi, k, k);
  }

  lemma FullEntryGoes(blocks: seq<Block>, k: nat, o: nat, n: nat, description: nat, lo: nat, hi: nat)
    requires WellFormed(blocks, lo, hi) && hi < WORD_LIMIT
    requires k < |blocks| && blocks[k].Free() && n + o <= blocks[k].size && (o == 0 || o >= SPLIT_LIMIT)
    requires SplitIsSound(blocks[k].size, o, n)
    requires Owns(AllocAt(blocks, k, o, n, description), TakenIndex(k, o), blocks[k].start + o)
    requires Taken(blocks[k], o, n, description).size != 0
    ensures FreeAt(AllocAt(blocks, k, o, n, description), TakenIndex(k, o)) == blocks
  {
    TakenAt(blocks, k, o, n, description);
    AllocTilesIff(blocks, k, o, n, description, lo, hi);
    JoinsTheParts(blocks, k, o, n, description);
    var parts := Carve(blocks[k], o, n, description);
    assert parts[0].header == blocks[k].header;
    JoiningUndoes(blocks, k, parts, AllocAt(blocks, k, o, n, description), TakenIndex(k, o), lo, hi);
  }

  lemma EmptyEntryStays(blocks: seq<Block>, k: nat, o: nat, n: nat, description: nat)
    requires k < |blocks| && blocks[k].Free()
    requires Taken(blocks[k], o, n, description).size == 0
    ensures TakenIndex(k, o) < |AllocAt(blocks, k, o, n, description)|
    ensures FreeAt(AllocAt(blocks, k, o, n, description), TakenIndex(k, o)) != blocks
  {
    TakenAt(blocks, k, o, n, description);
    AllocChanges(blocks, k, o, n, description);
  }

  /** kmalloc followed by kfree of its result, where kfree finds the entry, restores the list of blocks
      exactly when the entry is not empty: whether the leading, the trailing, both or neither part was
      split off. */
  lemma RoundTripIff(blocks: seq<Block>, k: nat, o: nat, n: nat, description: nat, lo: nat, hi: nat)
    requires WellFormed(blocks, lo, hi) && hi < WORD_LIMIT
    requires k < |blocks| && blocks[k].Free() && n + o <= blocks[k].size
    requires SplitIsSound(blocks[k].size, o, n) && (o == 0 || o >= 96)
    ensures Owns(AllocAt(blocks, k, o, n, description), TakenIndex(k, o), blocks[k].start + o)
    ensures FreeAt(AllocAt(blocks, k, o, n, description), TakenIndex(k, o)) == blocks
            <==> n > 0 || 0 < blocks[k].size <= 96
  {
    FindableIff(blocks, k, o, n, description, lo, hi);
    TakenSize(blocks, k, o, n, description, lo, hi);
    if Taken(blocks[k], o, n, description).size != 0 {
      FullEntryGoes(blocks, k, o, n, description, lo, hi);
    } else {
      EmptyEntryStays(blocks, k, o, n, description);
    }
  }

  lemma AllocChanges(blocks: seq<Block>, k: nat, o: nat, n: nat, description: nat)
    requires k < |blocks| && blocks[k].Free()
    ensures AllocAt(blocks, k, o, n, description) != blocks
  {
    TakenAt(blocks, k, o, n, description);
    if TakenIndex(k, o) == k {
      assert !AllocAt(blocks, k, o, n, description)[k].Free();
    } else {
      assert |AllocAt(blocks, k, o, n, description)| > |blocks|;
    }
  }

  // --- runs ---

  /** A call of the heap, as its client makes it. */
  datatype Call = Malloc(size: nat, align: nat, description: nat) | Free(ptr: nat)

  /** What the client owes: an alignment and a size that do not overflow together, and pointers that own
      an allocated block. */
  predicate Legal(blocks: seq<Block>, call: Call) {
    match call
    case Malloc(size, align, description) =>
      0 < align < WORD_LIMIT && size + align <= WORD_LIMIT && description < WORD_LIMIT
    case Free(ptr) => exists k :: 0 <= k < |blocks| && Owns(blocks, k, ptr)
  }

  /** The blocks after the call, with the NULL tests in kfree. */
  function Step(blocks: seq<Block>, call: Call): seq<Block>
    requires Legal(blocks, call)
  {
    match call
    case Malloc(size, align, description) =>
      var k := FirstFit(blocks, size, align, 0);
      if k == |blocks| then blocks else AllocAt(blocks, k, AlignOffset(blocks[k].start, align), size, description)
    case Free(ptr) => FreeAt(blocks, OwnerOf(blocks, ptr, 0))
  }

  function OwnerOf(blocks: seq<Block>, ptr: nat, i: nat): (k: nat)
    requires exists j :: i <= j < |blocks| && Owns(blocks, j, ptr)
    ensures Owns(blocks, k, ptr)
    decreases |blocks| - i
  {
    if Owns(blocks, i, ptr) then i else OwnerOf(blocks, ptr, i + 1)
  }

  /** The guard on kmalloc that the code lacks; kfree needs none. */
  predicate Sound(blocks: seq<Block>, call: Call)
    requires Legal(blocks, call)
  {
    match call
    case Malloc(size, align, description) =>
      var k := FirstFit(blocks, size, align, 0);
      k < |blocks| ==> SplitIsSound(blocks[k].size, AlignOffset(blocks[k].start, align), size)
    case Free(_) => true
  }

  /** One call keeps a well-formed heap tiled exactly when it is sound, and then keeps it well formed. */
  lemma StepTilesIff(blocks: seq<Block>, call: Call, lo: nat, hi: nat)
    requires WellFormed(blocks, lo, hi) && hi < WORD_LIMIT && Legal(blocks, call)
    ensures Tiles(Step(blocks, call), lo, hi) <==> Sound(blocks, call)
    ensures Sound(blocks, call) ==> WellFormed(Step(blocks, call), lo, hi)
  {
    match call
    case Malloc(size, align, description) =>
      var k := FirstFit(blocks, size, align, 0);
      if k < |blocks| {
        AllocTilesIff(blocks, k, AlignOffset(blocks[k].start, align), size, description, lo, hi);
        AllocKeepsFreeApart(blocks, k, AlignOffset(blocks[k].start, align), size, description);
      }
    case Free(ptr) =>
      FreeKeepsWellFormed(blocks, OwnerOf(blocks, ptr, 0), lo, hi);
  }

  predicate LegalRun(blocks: seq<Block>, calls: seq<Call>)
    decreases |calls|
  {
    calls != [] ==> Legal(blocks, calls[0]) && LegalRun(Step(blocks, calls[0]), calls[1..])
  }

  predicate SoundRun(blocks: seq<Block>, calls: seq<Call>)
    requires LegalRun(blocks, calls)
    decreases |calls|
  {
    calls != [] ==> Sound(blocks, calls[0]) && SoundRun(Step(blocks, calls[0]), calls[1..])
  }

  predicate TiledThroughout(blocks: seq<Block>, calls: seq<Call>, lo: nat, hi: nat)
    requires LegalRun(blocks, calls)
    decreases |calls|
  {
    Tiles(blocks, lo, hi) && (calls != [] ==> TiledThroughout(Step(blocks, calls[0]), calls[1..], lo, hi))
  }

  function Run(blocks: seq<Block>, calls: seq<Call>): seq<Block>
    requires LegalRun(blocks, calls)
    decreases |calls|
  {
    if calls == [] then blocks else Run(Step(blocks, calls[0]), calls[1..])
  }

  /** Over any run of legal calls, of any length: the heap is tiled after every call exactly when every
      kmalloc of the run is sound, and then it ends well formed. */
  lemma {:induction false} RunTiledIff(blocks: seq<Block>, calls: seq<Call>, lo: nat, hi: nat)
    requires WellFormed(blocks, lo, hi) && hi < WORD_LIMIT && LegalRun(blocks, calls)
    ensures TiledThroughout(blocks, calls, lo, hi) <==> SoundRun(blocks, calls)
    ensures SoundRun(blocks, calls) ==> WellFormed(Run(blocks, calls), lo, hi)
    decreases |calls|
  {
    if calls != [] {
      StepTilesIff(blocks, calls[0], lo, hi);
      if Sound(blocks, calls[0]) {
        RunTiledIff(Step(blocks, calls[0]), calls[1..], lo, hi);
      }
    }
  }

  /** Headers, gaps and payloads together. */
  function Occupied(blocks: seq<Block>): int {
    if blocks == [] then 0 else blocks[0].start + blocks[0].size - blocks[0].header + Occupied(blocks[1..])
  }

  /** Every byte of the range belongs to a header, a gap or a payload: nothing is lost or gained, at the
      start and after every sound run. */
  lemma {:induction false} TilesConserve(blocks: seq<Block>, lo: nat, hi: nat)
    requires Tiles(blocks, lo, hi)
    ensures Occupied(blocks) == hi - lo
    decreases |blocks|
  {
    assert BlockFits(blocks[0], Follower(blocks, hi, 0));
    if |blocks| > 1 {
      var rest := blocks[1..];
      forall i | 0 <= i < |rest|
        ensures BlockFits(rest[i], Follower(rest, hi, i))
      {
        assert BlockFits(blocks[i + 1], Follower(blocks, hi, i + 1));
      }
      TilesConserve(rest, blocks[1].header, hi);
    }
  }

  lemma RunConserves(blocks: seq<Block>, calls: seq<Call>, lo: nat, hi: nat)
    requires WellFormed(blocks, lo, hi) && hi < WORD_LIMIT && LegalRun(blocks, calls) && SoundRun(blocks, calls)
    ensures Occupied(Run(blocks, calls)) == Occupied(blocks) == hi - lo
  {
    RunTiledIff(blocks, calls, lo, hi);
    TilesConserve(blocks, lo, hi);
    TilesConserve(Run(blocks, calls), lo, hi);
  }

  // --- kfree as it stands ---

  /** kfree of block k without NULL tests, dereference by dereference: None where one follows NULL. */
  function LiteralFree(blocks: seq<Block>, k: nat): Option<seq<Block>>
    requires k < |blocks| && !blocks[k].Free()
  {
    if blocks[k].size == 0 then Some(blocks)
    else if k == 0 then None
    else if blocks[k - 1].Free() && k + 1 == |blocks| then None
    else
      var left, a := MergeLeft(Release(blocks, k), k), AfterLeft(Release(blocks, k), k);
      if a + 1 >= |left| then None
      else if left[a + 1].Free() && a + 2 == |left| then None
      else Some(MergeRight(left, a))
  }

  /** It ends exactly when the entry is empty or the neighbours it follows exist, and then as with tests. */
  lemma LiteralFreeIff(blocks: seq<Block>, k: nat)
    requires k < |blocks| && !blocks[k].Free()
    ensures LiteralFree(blocks, k).Some? <==> blocks[k].size == 0 || NeighboursExist(blocks, k)
    ensures LiteralFree(blocks, k).Some? ==> LiteralFree(blocks, k).value == FreeAt(blocks, k)
  {
    if blocks[k].size != 0 {
      MergedNeighbours(blocks, k);
    }
  }

  function LiteralStep(blocks: seq<Block>, call: Call): Option<seq<Block>>
    requires Legal(blocks, call)
  {
    if call.Malloc? then Some(Step(blocks, call)) else LiteralFree(blocks, OwnerOf(blocks, call.ptr, 0))
  }

  /** The run comes to its end, and the heap is tiled after every call. */
  predicate LiteralRunTiled(blocks: seq<Block>, calls: seq<Call>, lo: nat, hi: nat)
    decreases |calls|
  {
    && Tiles(blocks, lo, hi)
    && (calls != [] ==>
          && Legal(blocks, calls[0]) && LiteralStep(blocks, calls[0]).Some?
          && LiteralRunTiled(LiteralStep(blocks, calls[0]).value, calls[1..], lo, hi))
  }

  predicate HasNeighbours(blocks: seq<Block>, call: Call)
    requires Legal(blocks, call)
  {
    call.Free? ==>
      var k := OwnerOf(blocks, call.ptr, 0);
      blocks[k].size == 0 || NeighboursExist(blocks, k)
  }

  predicate NeighboursThroughout(blocks: seq<Block>, calls: seq<Call>)
    requires LegalRun(blocks, calls)
    decreases |calls|
  {
    calls != [] ==> HasNeighbours(blocks, calls[0]) && NeighboursThroughout(Step(blocks, calls[0]), calls[1..])
  }

  lemma LiteralStepIff(blocks: seq<Block>, call: Call)
    requires Legal(blocks, call)
    ensures LiteralStep(blocks, call).Some? <==> HasNeighbours(blocks, call)
    ensures LiteralStep(blocks, call).Some? ==> LiteralStep(blocks, call).value == Step(blocks, call)
  {
    if call.Free? {
      LiteralFreeIff(blocks, OwnerOf(blocks, call.ptr, 0));
    }
  }

  /** Over any run of the code as it stands: it comes to its end, with the heap tiled after every call,
      exactly when every kmalloc is sound and every kfree finds the neighbours it follows. */
  lemma {:induction false} LiteralRunIff(blocks: seq<Block>, calls: seq<Call>, lo: nat, hi: nat)
    requires WellFormed(blocks, lo, hi) && hi < WORD_LIMIT && LegalRun(blocks, calls)
    ensures LiteralRunTiled(blocks, calls, lo, hi) <==> SoundRun(blocks, calls) && NeighboursThroughout(blocks, calls)
    decreases |calls|
  {
    if calls != [] {
      LiteralStepIff(blocks, calls[0]);
      StepTilesIff(blocks, calls[0], lo, hi);
      if Sound(blocks, calls[0]) {
        LiteralRunIff(Step(blocks, calls[0]), calls[1..], lo, hi);
      }
    }
  }

  /** A request that breaks the tiling, on the heap that setup leaves at a page boundary: a page at a page
      boundary is served by a split that is not sound exactly when the heap has between two pages and 23
      bytes more. */
  lemma UnsoundRequestIff(lo: nat, size: nat)
    requires lo % 0x1000 == 0 && HEADER_SIZE <= size
    ensures var b := FreeSpan(lo, lo + size);
            (Fits(b, 0x1000, 0x1000) && !SplitIsSound(b.size, AlignOffset(b.start, 0x1000), 0x1000))
            <==> 0x2000 <= size < 0x2000 + HEADER_SIZE
  {
    assert (lo + HEADER_SIZE) % 0x1000 == HEADER_SIZE;
  }
}
