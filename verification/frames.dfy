/** The table of reference counts of the physical page frames. */
module Frames {
  import opened Memory

  const PAGE_SIZE: nat := 0x1000
  const COUNT_MAX: nat := 255   // of a uint8_t

  /** The lowest frame from i on that nobody refers to, or the number of frames when there is none. */
  function LowestFree(counts: Bytes, i: nat): (k: nat)
    requires i <= |counts|
    ensures i <= k <= |counts|
    ensures k < |counts| ==> counts[k] == 0
    ensures forall j :: i <= j < k ==> counts[j] != 0
    decreases |counts| - i
  {
    if i == |counts| || counts[i] == 0 then i else LowestFree(counts, i + 1)
  }

  /** ref_count++ on eight bits. */
  function Counted(counts: Bytes, i: nat): Bytes
    requires i < |counts|
  {
    counts[i := if counts[i] as nat == COUNT_MAX then 0 else counts[i] + 1]
  }

  function Released(counts: Bytes, i: nat): Bytes
    requires i < |counts|
  {
    if counts[i] != 0 then counts[i := counts[i] - 1] else counts
  }

  class FrameTable {
    const counts: array<Byte>

    constructor (counts: array<Byte>)
      ensures this.counts == counts
    {
      this.counts := counts;
    }

    /** get_free_page. The search has no bound of its own: a frame must be free. */
    method GetFreePage() returns (address: nat)
      requires LowestFree(counts[..], 0) < counts.Length
      modifies counts
      ensures address == LowestFree(old(counts[..]), 0) * PAGE_SIZE
      ensures counts[..] == Counted(old(counts[..]), LowestFree(old(counts[..]), 0))
    {
      ghost var before := counts[..];
      var index := 0;
      while counts[index] != 0
        invariant index <= LowestFree(before, 0) < counts.Length && counts[..] == before
        decreases counts.Length - index
      {
        index := index + 1;
      }
      counts[index] := counts[index] + 1;
      return index * PAGE_SIZE;
    }

    /** alloc_page. An address inside a page yields NULL, which is also the address of frame zero. */
    method AllocPage(address: nat) returns (r: nat)
      requires address / PAGE_SIZE < counts.Length
      modifies counts
      ensures address % PAGE_SIZE != 0 ==> r == 0 && counts[..] == old(counts[..])
      ensures address % PAGE_SIZE == 0 ==> r == address && counts[..] == Counted(old(counts[..]), address / PAGE_SIZE)
    {
      if address % PAGE_SIZE != 0 {
        return 0;
      }
      var index := address / PAGE_SIZE;
      counts[index] := if counts[index] as nat == COUNT_MAX then 0 else counts[index] + 1;
      return index * PAGE_SIZE;
    }

    /** release_page, which takes the number of a frame. */
    method ReleasePage(id: nat)
      requires id < counts.Length
      modifies counts
      ensures counts[..] == Released(old(counts[..]), id)
    {
      if counts[id] != 0 {
        counts[id] := counts[id] - 1;
      }
    }
  }

  // --- runs ---

  datatype Call = Get | Alloc(address: nat) | Release(id: nat)

  predicate Legal(counts: Bytes, call: Call) {
    match call
    case Get => LowestFree(counts, 0) < |counts|
    case Alloc(address) => address / PAGE_SIZE < |counts|
    case Release(id) => id < |counts|
  }

  function Step(counts: Bytes, call: Call): (r: Bytes)
    requires Legal(counts, call)
    ensures |r| == |counts|
  {
    match call
    case Get => Counted(counts, LowestFree(counts, 0))
    case Alloc(address) => if address % PAGE_SIZE == 0 then Counted(counts, address / PAGE_SIZE) else counts
    case Release(id) => Released(counts, id)
  }

  /** Who holds what: each frame's acquisitions less the releases that found it held. */
  function Ledger(counts: Bytes, held: seq<nat>, call: Call): (r: seq<nat>)
    requires |held| == |counts| && Legal(counts, call)
    ensures |r| == |held|
  {
    match call
    case Get => held[LowestFree(counts, 0) := held[LowestFree(counts, 0)] + 1]
    case Alloc(address) =>
      if address % PAGE_SIZE == 0 then held[address / PAGE_SIZE := held[address / PAGE_SIZE] + 1] else held
    case Release(id) => if held[id] > 0 then held[id := held[id] - 1] else held
  }

  predicate Exact(counts: Bytes, held: seq<nat>) {
    |counts| == |held| && forall i :: 0 <= i < |held| ==> counts[i] as nat == held[i]
  }

  /** The guard that alloc_page lacks. */
  predicate Counts(counts: Bytes, call: Call)
    requires Legal(counts, call)
  {
    call.Alloc? && call.address % PAGE_SIZE == 0 ==> (counts[call.address / PAGE_SIZE] as nat) < COUNT_MAX
  }

  predicate LegalRun(counts: Bytes, calls: seq<Call>)
    decreases |calls|
  {
    calls != [] ==> Legal(counts, calls[0]) && LegalRun(Step(counts, calls[0]), calls[1..])
  }

  predicate CountsThroughout(counts: Bytes, calls: seq<Call>)
    requires LegalRun(counts, calls)
    decreases |calls|
  {
    calls != [] ==> Counts(counts, calls[0]) && CountsThroughout(Step(counts, calls[0]), calls[1..])
  }

  /** After every call the table is exact, and no get_free_page of the run hands out a frame that is held. */
  predicate ExactThroughout(counts: Bytes, held: seq<nat>, calls: seq<Call>)
    requires |held| == |counts| && LegalRun(counts, calls)
    decreases |calls|
  {
    && Exact(counts, held)
    && (calls != [] ==>
          && (calls[0] == Get ==> held[LowestFree(counts, 0)] == 0)
          && ExactThroughout(Step(counts, calls[0]), Ledger(counts, held, calls[0]), calls[1..]))
  }

  lemma StepExactIff(counts: Bytes, held: seq<nat>, call: Call)
    requires Exact(counts, held) && Legal(counts, call)
    ensures Exact(Step(counts, call), Ledger(counts, held, call)) <==> Counts(counts, call)
  {
    var counts', held' := Step(counts, call), Ledger(counts, held, call);
    if !Counts(counts, call) {
      var i := call.address / PAGE_SIZE;
      assert counts'[i] == 0 && held'[i] == COUNT_MAX + 1;
    }
  }

  /** Over any run, the counts are exact throughout, and free frames are free, exactly when no alloc_page
      finds a count of 255. */
  lemma {:induction false} RunExactIff(counts: Bytes, held: seq<nat>, calls: seq<Call>)
    requires Exact(counts, held) && LegalRun(counts, calls)
    ensures ExactThroughout(counts, held, calls) <==> CountsThroughout(counts, calls)
    decreases |calls|
  {
    if calls != [] {
      StepExactIff(counts, held, calls[0]);
      if Counts(counts, calls[0]) {
        RunExactIff(Step(counts, calls[0]), Ledger(counts, held, calls[0]), calls[1..]);
      }
    }
  }

  /** A frame's 256th reference frees it: the next get_free_page hands it out though it is held. */
  lemma SharedFrame()
    ensures var counts, held := [COUNT_MAX as Byte], [COUNT_MAX];
            var after, owed := Step(counts, Alloc(0)), Ledger(counts, held, Alloc(0));
            Exact(counts, held) && Legal(after, Get) && LowestFree(after, 0) == 0 && owed[0] == COUNT_MAX + 1
  {
    assert Step([COUNT_MAX as Byte], Alloc(0)) == [0];
  }
}
