/** What kmalloc and kfree promise, proved about the list of blocks. */
module HeapProofs {
  import opened Memory
  import opened HeapHeader
  import opened HeapSpec

  // --- allocation ---

  /** The parts carved from one block tile the room the block occupied exactly when the split is sound. */
  lemma CarveTilesIff(b: Block, o: nat, n: nat, description: nat, hi: nat)
    requires BlockFits(b, hi) && b.Free() && b.size >= n + o
    requires hi < WORD_LIMIT
    ensures Tiles(Carve(b, o, n, description), b.header, hi) <==> SplitIsSound(b.size, o, n)
  {
    var parts := Carve(b, o, n, description);
    var t := TakenIndex(0, o);
    assert parts[t] == Taken(b, o, n, description);
    assert BlockFits(parts[t], Follower(parts, hi, t)) <==> (o == 0 || b.size - n > SPLIT_LIMIT);
    if b.size - n > SPLIT_LIMIT {
      assert parts[t + 1] == Trailing(b, o, n)[0];
      assert BlockFits(parts[t + 1], Follower(parts, hi, t + 1)) <==> b.size - o - n >= HEADER_SIZE;
    }
  }

  /** Replacing blocks k to m - 1 by parts that tile their room keeps the tiling, and nothing else does. */
  lemma SpliceTilesIff(blocks: seq<Block>, k: nat, m: nat, parts: seq<Block>, lo: nat, hi: nat)
    requires Tiles(blocks, lo, hi) && k < m <= |blocks|
    requires |parts| > 0 && parts[0].header == blocks[k].header
    ensures Tiles(Splice(blocks, k, m, parts), lo, hi)
            <==> Tiles(parts, blocks[k].header, Follower(blocks, hi, m - 1))
  {
    var result := Splice(blocks, k, m, parts);
    var end := Follower(blocks, hi, m - 1);
    SpliceAt(blocks, k, m, parts, hi);
    if Tiles(parts, blocks[k].header, end) {
      forall i | 0 <= i < |result|
        ensures BlockFits(result[i], Follower(result, hi, i))
      {
        if i < k {
          assert BlockFits(blocks[i], Follower(blocks, hi, i));
        } else if i < k + |parts| {
          assert BlockFits(parts[i - k], Follower(parts, end, i - k));
        } else {
          var j := i - k - |parts| + m;
          assert BlockFits(blocks[j], Follower(blocks, hi, j));
        }
      }
    }
    if Tiles(result, lo, hi) {
      forall i | 0 <= i < |parts|
        ensures BlockFits(parts[i], Follower(parts, end, i))
      {
        assert BlockFits(result[k + i], Follower(result, hi, k + i));
      }
    }
  }

  /** Where the blocks of a spliced list come from, and what follows them. */
  lemma SpliceAt(blocks: seq<Block>, k: nat, m: nat, parts: seq<Block>, hi: nat)
    requires k < m <= |blocks|
    requires |parts| > 0 && parts[0].header == blocks[k].header
    ensures var result := Splice(blocks, k, m, parts);
            && |result| == |blocks| - (m - k) + |parts|
            && (forall i :: 0 <= i < k ==> result[i] == blocks[i] && Follower(result, hi, i) == Follower(blocks, hi, i))
            && (forall i :: 0 <= i < |parts| ==>
                  && result[k + i] == parts[i]
                  && Follower(result, hi, k + i) == Follower(parts, Follower(blocks, hi, m - 1), i))
            && (forall i :: k + |parts| <= i < |result| ==>
                  && result[i] == blocks[i - k - |parts| + m]
                  && Follower(result, hi, i) == Follower(blocks, hi, i - k - |parts| + m))
  {
    forall i | 0 <= i < k
      ensures Splice(blocks, k, m, parts)[i] == blocks[i]
      ensures Follower(Splice(blocks, k, m, parts), hi, i) == Follower(blocks, hi, i)
    {
      SpliceElement(blocks, k, m, parts, i);
      SpliceElement(blocks, k, m, parts, i + 1);
    }
    forall i | 0 <= i < |parts|
      ensures Splice(blocks, k, m, parts)[k + i] == parts[i]
      ensures Follower(Splice(blocks, k, m, parts), hi, k + i) == Follower(parts, Follower(blocks, hi, m - 1), i)
    {
      SpliceElement(blocks, k, m, parts, k + i);
      SpliceElement(blocks, k, m, parts, k + i + 1);
    }
    forall i | k + |parts| <= i < |Splice(blocks, k, m, parts)|
      ensures Splice(blocks, k, m, parts)[i] == blocks[i - k - |parts| + m]
      ensures Follower(Splice(blocks, k, m, parts), hi, i) == Follower(blocks, hi, i - k - |parts| + m)
    {
      SpliceElement(blocks, k, m, parts, i);
      SpliceElement(blocks, k, m, parts, i + 1);
    }
  }

  lemma SpliceElement(blocks: seq<Block>, k: nat, m: nat, parts: seq<Block>, i: nat)
    requires k <= m <= |blocks|
    ensures |Splice(blocks, k, m, parts)| == |blocks| - (m - k) + |parts|
    ensures i < |Splice(blocks, k, m, parts)| ==>
              Splice(blocks, k, m, parts)[i]
              == if i < k then blocks[i] else if i < k + |parts| then parts[i - k] else blocks[i - k - |parts| + m]
  {
  }

  /** A splice whose parts and seams have no two free blocks side by side has none anywhere. */
  lemma SpliceKeepsFreeApart(blocks: seq<Block>, k: nat, m: nat, parts: seq<Block>)
    requires NoAdjacentFree(blocks) && k < m <= |blocks|
    requires |parts| > 0 && NoAdjacentFree(parts)
    requires k > 0 && blocks[k - 1].Free() ==> !parts[0].Free()
    requires m < |blocks| && blocks[m].Free() ==> !parts[|parts| - 1].Free()
    ensures NoAdjacentFree(Splice(blocks, k, m, parts))
  {
    var result := Splice(blocks, k, m, parts);
    forall i | 0 < i < |result|
      ensures !(result[i - 1].Free() && result[i].Free())
    {
      if i < k {
        assert result[i - 1] == blocks[i - 1] && result[i] == blocks[i];
      } else if i < k + |parts| {
        assert result[i] == parts[i - k];
        assert i > k ==> result[i - 1] == parts[i - 1 - k];
      } else {
        var j := i - k - |parts| + m;
        assert result[i] == blocks[j];
        assert j > m ==> result[i - 1] == blocks[j - 1];
      }
    }
  }

  /** alloc_entry keeps the tiling of the whole heap exactly when its split is sound. */
  lemma AllocTilesIff(blocks: seq<Block>, k: nat, o: nat, n: nat, description: nat, lo: nat, hi: nat)
    requires Tiles(blocks, lo, hi) && hi < WORD_LIMIT
    requires k < |blocks| && blocks[k].Free() && blocks[k].size >= n + o
    ensures Tiles(AllocAt(blocks, k, o, n, description), lo, hi) <==> SplitIsSound(blocks[k].size, o, n)
  {
    HeadersAscend(blocks, lo, hi);
    CarveTilesIff(blocks[k], o, n, description, Follower(blocks, hi, k));
    SpliceTilesIff(blocks, k, k + 1, Carve(blocks[k], o, n, description), lo, hi);
  }

  /** A tiling puts the headers in ascending order, each at least one header apart and below hi. */
  lemma {:induction false} HeadersAscendFrom(blocks: seq<Block>, lo: nat, hi: nat, i: nat, j: nat)
    requires Tiles(blocks, lo, hi) && i <= j < |blocks|
    ensures blocks[i].header + HEADER_SIZE * (j - i) <= blocks[j].header
    ensures blocks[j].start + blocks[j].size <= hi
    decreases |blocks| - i, |blocks| - j
  {
    assert BlockFits(blocks[j], Follower(blocks, hi, j));
    if i < j {
      assert BlockFits(blocks[i], Follower(blocks, hi, i));
      HeadersAscendFrom(blocks, lo, hi, i + 1, j);
    } else if j + 1 < |blocks| {
      HeadersAscendFrom(blocks, lo, hi, i + 1, j + 1);
    }
  }

  lemma HeadersAscend(blocks: seq<Block>, lo: nat, hi: nat)
    requires Tiles(blocks, lo, hi)
    ensures forall i, j :: 0 <= i < j < |blocks| ==> blocks[i].header + HEADER_SIZE <= blocks[j].header
    ensures forall i :: 0 <= i < |blocks| ==> lo <= blocks[i].header
                                              && blocks[i].header + HEADER_SIZE <= blocks[i].start
                                              && blocks[i].start + blocks[i].size <= Follower(blocks, hi, i) <= hi
  {
    forall i, j | 0 <= i < j < |blocks|
      ensures blocks[i].header + HEADER_SIZE <= blocks[j].header
    {
      HeadersAscendFrom(blocks, lo, hi, i, j);
    }
    forall i | 0 <= i < |blocks|
      ensures lo <= blocks[i].header
      ensures blocks[i].header + HEADER_SIZE <= blocks[i].start
      ensures blocks[i].start + blocks[i].size <= Follower(blocks, hi, i) <= hi
    {
      HeadersAscendFrom(blocks, lo, hi, 0, i);
      if i + 1 < |blocks| {
        HeadersAscendFrom(blocks, lo, hi, i + 1, i + 1);
      }
    }
  }

  /** No allocation, sound or not, puts two free blocks side by side. */
  lemma AllocKeepsFreeApart(blocks: seq<Block>, k: nat, o: nat, n: nat, description: nat)
    requires NoAdjacentFree(blocks)
    requires k < |blocks| && blocks[k].Free()
    ensures NoAdjacentFree(AllocAt(blocks, k, o, n, description))
  {
    SpliceKeepsFreeApart(blocks, k, k + 1, Carve(blocks[k], o, n, description));
  }

  // --- release ---

  /** The free block that reaches from a header at a to address e. */
  function FreeSpan(a: nat, e: nat): Block
    requires a + HEADER_SIZE <= e
  {
    Block(a, 1, e - a - HEADER_SIZE, a + HEADER_SIZE, NULL)
  }

  /** The first and one past the last block that freeing block k joins. */
  function JoinFrom(blocks: seq<Block>, k: nat): (a: nat)
    requires k < |blocks|
    ensures a <= k
  {
    if k > 0 && blocks[k - 1].Free() then k - 1 else k
  }

  function JoinTo(blocks: seq<Block>, k: nat): (b: nat)
    requires k < |blocks|
    ensures k < b <= |blocks|
  {
    if k + 1 < |blocks| && blocks[k + 1].Free() then k + 2 else k + 1
  }

  lemma MergedIsSpan(first: Block, second: Block, e: nat)
    requires BlockFits(first, second.header) && first.Free()
    requires BlockFits(second, e) && e < WORD_LIMIT
    ensures Merged(first, second) == FreeSpan(first.header, e)
  {
  }

  predicate Freeable(blocks: seq<Block>, k: nat) {
    && k < |blocks|
    && !blocks[k].Free()
    && blocks[k].start == blocks[k].header + HEADER_SIZE
    && blocks[k].size != 0
  }

  /** Marking and the merge to the left leave one free block, up to where block k ended. */
  lemma LeftJoins(blocks: seq<Block>, k: nat, lo: nat, hi: nat)
    requires Tiles(blocks, lo, hi) && hi < WORD_LIMIT && Freeable(blocks, k)
    ensures blocks[JoinFrom(blocks, k)].header + HEADER_SIZE <= Follower(blocks, hi, k) <= hi
    ensures MergeLeft(Release(blocks, k), k)
            == Splice(blocks, JoinFrom(blocks, k), k + 1,
                      [FreeSpan(blocks[JoinFrom(blocks, k)].header, Follower(blocks, hi, k))])
  {
    HeadersAscend(blocks, lo, hi);
    var released := Release(blocks, k);
    assert BlockFits(blocks[k], Follower(blocks, hi, k));
    assert released[k + 1..] == blocks[k + 1..];
    if k > 0 && blocks[k - 1].Free() {
      assert BlockFits(blocks[k - 1], Follower(blocks, hi, k - 1));
      MergedIsSpan(blocks[k - 1], released[k], Follower(blocks, hi, k));
      assert released[..k - 1] == blocks[..k - 1];
    } else {
      assert released[k] == FreeSpan(blocks[k].header, Follower(blocks, hi, k));
      assert released == Splice(blocks, k, k + 1, [released[k]]);
    }
  }

  /** The merge to the right extends a free block over a free follower. */
  lemma RightJoins(blocks: seq<Block>, a: nat, k: nat, lo: nat, hi: nat)
    requires Tiles(blocks, lo, hi) && hi < WORD_LIMIT && a <= k < |blocks|
    requires k + 1 < |blocks| && blocks[k + 1].Free()
    requires blocks[a].header + HEADER_SIZE <= Follower(blocks, hi, k)
    ensures blocks[a].header + HEADER_SIZE <= Follower(blocks, hi, k + 1) <= hi
    ensures MergeAt(Splice(blocks, a, k + 1, [FreeSpan(blocks[a].header, Follower(blocks, hi, k))]), a)
            == Splice(blocks, a, k + 2, [FreeSpan(blocks[a].header, Follower(blocks, hi, k + 1))])
  {
    HeadersAscendFrom(blocks, lo, hi, k + 1, k + 1);
    HeadersAscendFrom(blocks, lo, hi, a, k + 1);
    var first := FreeSpan(blocks[a].header, Follower(blocks, hi, k));
    assert BlockFits(blocks[k + 1], Follower(blocks, hi, k + 1));
    MergedIsSpan(first, blocks[k + 1], Follower(blocks, hi, k + 1));
    SpliceTwice(blocks, a, k + 1, first, FreeSpan(blocks[a].header, Follower(blocks, hi, k + 1)));
  }

  lemma SpliceTwice(blocks: seq<Block>, a: nat, m: nat, x: Block, y: Block)
    requires a < m < |blocks|
    ensures Splice(blocks, a, m, [x])[a] == x
    ensures Splice(blocks, a, m, [x])[a + 1] == blocks[m]
    ensures Splice(Splice(blocks, a, m, [x]), a, a + 2, [y]) == Splice(blocks, a, m + 1, [y])
  {
    var once := Splice(blocks, a, m, [x]);
    assert once[..a] == blocks[..a];
    assert once[a + 2..] == blocks[m + 1..];
  }

  /** Freeing an allocated block replaces it and its free neighbours by one free block over the same
      room. This is what the marking and the two merges come to in all four cases. */
  lemma FreeAtJoins(blocks: seq<Block>, k: nat, lo: nat, hi: nat)
    requires Tiles(blocks, lo, hi) && hi < WORD_LIMIT && Freeable(blocks, k)
    ensures var a, b := JoinFrom(blocks, k), JoinTo(blocks, k);
            && blocks[a].header + HEADER_SIZE <= Follower(blocks, hi, b - 1)
            && FreeAt(blocks, k) == Splice(blocks, a, b, [FreeSpan(blocks[a].header, Follower(blocks, hi, b - 1))])
  {
    LeftJoins(blocks, k, lo, hi);
    var left := MergeLeft(Release(blocks, k), k);
    var a := JoinFrom(blocks, k);
    assert a == AfterLeft(Release(blocks, k), k);
    if k + 1 < |blocks| {
      assert left[a + 1] == blocks[k + 1];
    }
    if JoinTo(blocks, k) == k + 2 {
      RightJoins(blocks, a, k, lo, hi);
    }
  }

  /** kfree keeps the heap tiled, and leaves no two free blocks side by side: left, right and three-way
      merges alike. */
  lemma FreeKeepsWellFormed(blocks: seq<Block>, k: nat, lo: nat, hi: nat)
    requires WellFormed(blocks, lo, hi) && hi < WORD_LIMIT && k < |blocks|
    requires !blocks[k].Free() && blocks[k].start == blocks[k].header + HEADER_SIZE
    ensures WellFormed(FreeAt(blocks, k), lo, hi)
  {
    if blocks[k].size != 0 {
      var a, b := JoinFrom(blocks, k), JoinTo(blocks, k);
      FreeAtJoins(blocks, k, lo, hi);
      var parts := [FreeSpan(blocks[a].header, Follower(blocks, hi, b - 1))];
      SpliceTilesIff(blocks, a, b, parts, lo, hi);
      assert a > 0 ==> !blocks[a - 1].Free();
      assert b < |blocks| ==> !blocks[b].Free();
      SpliceKeepsFreeApart(blocks, a, b, parts);
    }
  }
}
