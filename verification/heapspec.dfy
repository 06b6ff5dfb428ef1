/** The heap as a list of blocks: what kmalloc and kfree compute, freed of pointers and bytes. */
module HeapSpec {
  import opened Arithmetic
  import opened Memory
  import opened HeapHeader

  /** One heap entry: where its header lies and what the header says, apart from the two links. */
  datatype Block = Block(header: nat, available: nat, size: nat, start: nat, description: nat) {
    predicate Free() {
      available != 0
    }
  }

  const SPLIT_LIMIT: nat := 4 * HEADER_SIZE

  /** The address at which the entry after block i begins. */
  function Follower(blocks: seq<Block>, hi: nat, i: nat): nat
    requires i < |blocks|
  {
    if i + 1 < |blocks| then blocks[i + 1].header else hi
  }

  /** The blocks tile [lo, hi): each ends where the next header begins. Only an allocated block may keep
      a gap between its header and its payload; a free block has none, and carries no description. */
  predicate Tiles(blocks: seq<Block>, lo: nat, hi: nat) {
    && |blocks| > 0
    && blocks[0].header == lo
    && forall i :: 0 <= i < |blocks| ==> BlockFits(blocks[i], Follower(blocks, hi, i))
  }

  predicate BlockFits(b: Block, follower: nat) {
    && b.header + HEADER_SIZE <= b.start
    && b.start + b.size == follower
    && (b.Free() ==> b.start == b.header + HEADER_SIZE && b.description == NULL && b.available == 1)
  }

  predicate NoAdjacentFree(blocks: seq<Block>) {
    forall i :: 0 < i < |blocks| ==> !(blocks[i - 1].Free() && blocks[i].Free())
  }

  predicate WellFormed(blocks: seq<Block>, lo: nat, hi: nat) {
    Tiles(blocks, lo, hi) && NoAdjacentFree(blocks)
  }

  // --- kmalloc ---

  /** next_aligned_addr(a, align) - a. The C sum wraps at 2^32 and the C difference wraps back. */
  function AlignOffset(a: nat, align: nat): (o: nat)
    requires align > 0
    ensures o < align
    ensures (a + o) % align == 0
  {
    assert a == a / align * align + a % align;
    if a % align == 0 then 0
    else
      assert a + (align - a % align) == (a / align + 1) * align;
      DivModUnique(a / align + 1, align, 0);
      align - a % align
  }

  /** The aligned address as the C code computes it, on 32 bits. */
  function NextAlignedAddr(a: nat, align: nat): nat
    requires align > 0
  {
    if a % align == 0 then a else Add32(a, align - a % align)
  }

  /** The offset kmalloc derives from it is the mathematical one even when the aligned address wraps. */
  lemma OffsetSurvivesWrap(a: nat, align: nat)
    requires a < WORD_LIMIT && 0 < align < WORD_LIMIT
    ensures Sub32(NextAlignedAddr(a, align), a) == AlignOffset(a, align)
  {
    WrapAndBack(a, AlignOffset(a, align));
  }

  lemma WrapAndBack(a: nat, o: nat)
    requires a < WORD_LIMIT && o < WORD_LIMIT
    ensures Sub32(Add32(a, o), a) == o && Sub32(a, a) == 0
  {
  }

  predicate Fits(b: Block, n: nat, align: nat)
    requires align > 0
  {
    b.Free() && b.size >= n + AlignOffset(b.start, align)
  }

  /** n bytes of the block's payload start at p, a multiple of the alignment. */
  predicate HoldsAt(b: Block, n: nat, align: nat, p: nat)
    requires align > 0
  {
    p % align == 0 && b.start <= p && p + n <= b.start + b.size
  }

  /** No multiple of the alignment lies between an address and the one that its offset leads to. */
  lemma OffsetIsLeast(a: nat, align: nat, p: nat)
    requires align > 0 && p % align == 0 && a <= p
    ensures a + AlignOffset(a, align) <= p
  {
    var q, r := a / align, p / align;
    assert a == q * align + a % align && p == r * align;
    if q < r {
      MulMonotone(q + 1, r, align);
      assert (q + 1) * align == q * align + align;
    } else {
      MulMonotone(r, q, align);
    }
  }

  /** kmalloc's test accepts a block exactly if it is free and has n bytes at some aligned address; the
      offset leads to the lowest of them. */
  lemma FitsIff(b: Block, n: nat, align: nat)
    requires align > 0
    ensures Fits(b, n, align) <==> b.Free() && exists p: nat :: HoldsAt(b, n, align, p)
    ensures Fits(b, n, align) ==> HoldsAt(b, n, align, b.start + AlignOffset(b.start, align))
    ensures forall p: nat :: HoldsAt(b, n, align, p) ==> b.start + AlignOffset(b.start, align) <= p
  {
    if Fits(b, n, align) {
      assert HoldsAt(b, n, align, b.start + AlignOffset(b.start, align));
    }
    forall p: nat | HoldsAt(b, n, align, p)
      ensures b.start + AlignOffset(b.start, align) <= p
    {
      OffsetIsLeast(b.start, align, p);
    }
  }

  /** Some free block has n bytes at an aligned address. */
  ghost predicate SomeHolds(blocks: seq<Block>, n: nat, align: nat)
    requires align > 0
  {
    exists i: nat, p: nat :: i < |blocks| && blocks[i].Free() && HoldsAt(blocks[i], n, align, p)
  }

  /** The index of the first block from i on that fits, or the number of blocks when none does. */
  function FirstFit(blocks: seq<Block>, n: nat, align: nat, i: nat): (k: nat)
    requires align > 0
    requires i <= |blocks|
    ensures i <= k <= |blocks|
    ensures k < |blocks| ==> Fits(blocks[k], n, align)
    ensures forall j :: i <= j < k ==> !Fits(blocks[j], n, align)
    decreases |blocks| - i
  {
    if i == |blocks| || Fits(blocks[i], n, align) then i else FirstFit(blocks, n, align, i + 1)
  }

  /** The search fails exactly when no free block has n bytes at an aligned address. */
  lemma FirstFitIff(blocks: seq<Block>, n: nat, align: nat)
    requires align > 0
    ensures FirstFit(blocks, n, align, 0) < |blocks| <==> SomeHolds(blocks, n, align)
  {
    var k := FirstFit(blocks, n, align, 0);
    if k < |blocks| {
      FitsIff(blocks[k], n, align);
    }
    forall i: nat, p: nat | i < |blocks| && blocks[i].Free() && HoldsAt(blocks[i], n, align, p)
      ensures k <= i
    {
      FitsIff(blocks[i], n, align);
    }
  }

  /** Unsigned 32-bit subtraction. */
  function Sub32(a: int, b: int): (r: nat)
    ensures r < WORD_LIMIT
  {
    (a - b) % WORD_LIMIT
  }

  function Add32(a: nat, b: nat): (r: nat)
    ensures r < WORD_LIMIT
  {
    (a + b) % WORD_LIMIT
  }

  /** The entries that replace block b when n bytes at offset o of its payload are handed out: a free
      leading part if the offset leaves room for one, the new entry, a free trailing part if the size
      test allows one. The sizes are those the code writes, right or wrong. */
  function Leading(b: Block, o: nat): seq<Block> {
    if o >= SPLIT_LIMIT then [b.(size := o - HEADER_SIZE)] else []
  }

  function Taken(b: Block, o: nat, n: nat, description: nat): Block {
    Block(if o >= SPLIT_LIMIT then b.start + o - HEADER_SIZE else b.header,
          0,
          if Sub32(b.size, n) > SPLIT_LIMIT then n else b.size,
          b.start + o,
          description)
  }

  function Trailing(b: Block, o: nat, n: nat): seq<Block> {
    if Sub32(b.size, n) > SPLIT_LIMIT
    then [Block(b.start + o + n, 1, Sub32(b.size, o + n + HEADER_SIZE), Add32(b.start + o + n, HEADER_SIZE), NULL)]
    else []
  }

  function Carve(b: Block, o: nat, n: nat, description: nat): (parts: seq<Block>) {
    Leading(b, o) + [Taken(b, o, n, description)] + Trailing(b, o, n)
  }

  /** The list with blocks k to m - 1 replaced by the given ones. */
  function Splice(blocks: seq<Block>, k: nat, m: nat, parts: seq<Block>): seq<Block>
    requires k <= m <= |blocks|
  {
    blocks[..k] + parts + blocks[m..]
  }

  function AllocAt(blocks: seq<Block>, k: nat, o: nat, n: nat, description: nat): seq<Block>
    requires k < |blocks|
  {
    Splice(blocks, k, k + 1, Carve(blocks[k], o, n, description))
  }

  /** The index of the new entry in the list AllocAt returns. */
  function TakenIndex(k: nat, o: nat): nat {
    if o >= SPLIT_LIMIT then k + 1 else k
  }

  /** The guard alloc_entry would need: no offset, or a trailing part that has room for its header. */
  predicate SplitIsSound(size: nat, o: nat, n: nat) {
    o == 0 || (size - n > SPLIT_LIMIT && size - o - n >= HEADER_SIZE)
  }

  // --- kfree ---

  function Merged(first: Block, second: Block): Block {
    first.(start := first.header + HEADER_SIZE, size := Sub32(second.start + second.size, first.header + HEADER_SIZE))
  }

  function MergeAt(blocks: seq<Block>, k: nat): seq<Block>
    requires k + 1 < |blocks|
  {
    Splice(blocks, k, k + 2, [Merged(blocks[k], blocks[k + 1])])
  }

  function Release(blocks: seq<Block>, k: nat): seq<Block>
    requires k < |blocks|
  {
    blocks[k := blocks[k].(available := 1, description := NULL)]
  }

  function MergeLeft(blocks: seq<Block>, k: nat): seq<Block>
    requires k < |blocks|
  {
    if k > 0 && blocks[k - 1].Free() then MergeAt(blocks, k - 1) else blocks
  }

  function MergeRight(blocks: seq<Block>, k: nat): seq<Block>
    requires k < |blocks|
  {
    if k + 1 < |blocks| && blocks[k + 1].Free() then MergeAt(blocks, k) else blocks
  }

  /** Where block k is found after its left neighbour has been merged into it, or not. */
  function AfterLeft(blocks: seq<Block>, k: nat): nat
    requires k < |blocks|
  {
    if k > 0 && blocks[k - 1].Free() then k - 1 else k
  }

  /** Freeing block k: nothing when its size is zero, otherwise mark it free, merge left, merge right. */
  function FreeAt(blocks: seq<Block>, k: nat): seq<Block>
    requires k < |blocks|
  {
    if blocks[k].size == 0 || blocks[k].Free() then blocks
    else
      var released := Release(blocks, k);
      MergeRight(MergeLeft(released, k), AfterLeft(released, k))
  }
}
