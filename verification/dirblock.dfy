/** Directory blocks: variable-length records, read one after the other. */
module DirBlock {
  import opened Memory
  import opened Ext2Disk

  const RECORD_HEADER: nat := 8
  const DIRECTORY_TYPE: nat := 2

  /** A record's inode, its length field, its type byte and its name. */
  datatype Record = Record(inode: nat, recLen: nat, fileType: nat, name: Bytes)

  function RoundUp4(n: nat): (r: nat)
    ensures n <= r < n + 4 && r % 4 == 0
  {
    (n + 3) / 4 * 4
  }

  /** The position after a record at i, as the loop steps: rec_len, then up to a multiple of four. */
  function NextAt(block: Bytes, i: nat): nat
    requires i + RECORD_HEADER <= |block|
  {
    RoundUp4(i + Read16(block, i + 4))
  }

  function RecordAt(block: Bytes, i: nat): Record
    requires i + RECORD_HEADER <= |block| && i + RECORD_HEADER + block[i + 6] <= |block|
  {
    Record(Read32(block, i), Read16(block, i + 4), block[i + 7],
           block[i + RECORD_HEADER..i + RECORD_HEADER + block[i + 6]])
  }

  /** From position i on the loop reads only inside the block and comes to an end: every record it meets
      lies in the block and has a length. */
  predicate Readable(block: Bytes, i: nat)
    decreases |block| - i
  {
    i >= |block| ||
    (&& i + RECORD_HEADER <= |block|
     && i + RECORD_HEADER + block[i + 6] <= |block|
     && Read16(block, i + 4) > 0
     && Readable(block, NextAt(block, i)))
  }

  /** The records the loop meets from position i on. */
  function Parse(block: Bytes, i: nat): seq<Record>
    requires Readable(block, i)
    decreases |block| - i
  {
    if i >= |block| then [] else [RecordAt(block, i)] + Parse(block, NextAt(block, i))
  }

  // --- the layout, from the writer's side ---

  /** The record has a length that covers its header and name and fits the fields of the layout. */
  predicate Storable(r: Record) {
    && RECORD_HEADER + |r.name| <= r.recLen < 0x1_0000
    && |r.name| < 0x100 && r.inode < WORD_LIMIT && r.fileType < 0x100
  }

  predicate HoldsRecord(block: Bytes, i: nat, r: Record) {
    var held :=
      && Storable(r) && i + RoundUp4(r.recLen) <= |block|
      && Read32(block, i) == r.inode && Read16(block, i + 4) == r.recLen
      && block[i + 6] == |r.name| && block[i + 7] == r.fileType
      && block[i + RECORD_HEADER..i + RECORD_HEADER + |r.name|] == r.name;
    held
  }

  /** The block from position i on holds the given records, each in rec_len bytes rounded up to a multiple
      of four, to its end. What fills the space after a name is left open. */
  predicate Holds(block: Bytes, i: nat, records: seq<Record>)
    decreases |records|
  {
    if records == [] then i == |block|
    else
      HoldsRecord(block, i, records[0]) && Holds(block, i + RoundUp4(records[0].recLen), records[1..])
  }

  /** Parsing inverts the layout: from a block that holds the records the loop recovers exactly them, in
      order, inside the block and to its end. */
  lemma {:induction false} ParseInvertsLayout(block: Bytes, i: nat, records: seq<Record>)
    requires Holds(block, i, records) && i % 4 == 0
    ensures Readable(block, i) && Parse(block, i) == records
    decreases |records|
  {
    if records != [] {
      FirstRecord(block, i, records);
      ParseInvertsLayout(block, NextAt(block, i), records[1..]);
    }
  }

  lemma FirstRecord(block: Bytes, i: nat, records: seq<Record>)
    requires Holds(block, i, records) && i % 4 == 0 && records != []
    ensures i + RECORD_HEADER <= |block| && i + RECORD_HEADER + block[i + 6] <= |block|
    ensures RecordAt(block, i) == records[0] && Read16(block, i + 4) > 0
    ensures NextAt(block, i) % 4 == 0 && Holds(block, NextAt(block, i), records[1..])
  {
    RecordHeld(block, i, records[0]);
  }

  lemma RecordHeld(block: Bytes, i: nat, r: Record)
    requires HoldsRecord(block, i, r) && i % 4 == 0
    ensures i + RECORD_HEADER <= |block| && i + RECORD_HEADER + block[i + 6] <= |block|
    ensures RecordAt(block, i) == r && Read16(block, i + 4) == r.recLen > 0
    ensures NextAt(block, i) == i + RoundUp4(r.recLen)
  {
    RoundUpShifts(i, r.recLen);
  }

  lemma RoundUpShifts(i: nat, n: nat)
    requires i % 4 == 0
    ensures RoundUp4(i + n) == i + RoundUp4(n)
  {
  }

  /** So a block holds at most one sequence of records. */
  lemma LayoutIsUnambiguous(block: Bytes, a: seq<Record>, b: seq<Record>)
    requires Holds(block, 0, a) && Holds(block, 0, b)
    ensures a == b
  {
    ParseInvertsLayout(block, 0, a);
    ParseInvertsLayout(block, 0, b);
  }

  /** Conversely a readable block whose records cover their names and end with the block holds what the
      loop reads from it. */
  predicate EndsExactly(block: Bytes, i: nat)
    requires Readable(block, i)
    decreases |block| - i
  {
    if i >= |block| then i == |block|
    else RECORD_HEADER + block[i + 6] <= Read16(block, i + 4) && EndsExactly(block, NextAt(block, i))
  }

  lemma {:induction false} ReadableHoldsItsParse(block: Bytes, i: nat)
    requires Readable(block, i) && i % 4 == 0
    ensures EndsExactly(block, i) <==> Holds(block, i, Parse(block, i))
    decreases |block| - i
  {
    if i < |block| {
      ReadableHoldsItsParse(block, NextAt(block, i));
      HoldsStep(block, i, Parse(block, NextAt(block, i)));
      RecordIsStorable(block, i);
      if EndsExactly(block, i) {
        EndsInside(block, NextAt(block, i));
      }
    }
  }

  lemma HoldsStep(block: Bytes, i: nat, rest: seq<Record>)
    requires i % 4 == 0 && i + RECORD_HEADER <= |block| && i + RECORD_HEADER + block[i + 6] <= |block|
    ensures Holds(block, i, [RecordAt(block, i)] + rest)
            <==> Storable(RecordAt(block, i)) && NextAt(block, i) <= |block| && Holds(block, NextAt(block, i), rest)
  {
    RoundUpShifts(i, RecordAt(block, i).recLen);
    assert ([RecordAt(block, i)] + rest)[1..] == rest;
  }

  lemma RecordIsStorable(block: Bytes, i: nat)
    requires i + RECORD_HEADER <= |block| && i + RECORD_HEADER + block[i + 6] <= |block|
    ensures RECORD_HEADER + block[i + 6] <= Read16(block, i + 4) ==> Storable(RecordAt(block, i))
  {
    Read16Bound(block, i + 4);
    Read32Bound(block, i);
  }

  lemma {:induction false} EndsInside(block: Bytes, i: nat)
    requires Readable(block, i) && EndsExactly(block, i)
    ensures i <= |block|
  {
  }

  lemma Read16Bound(b: Bytes, a: nat)
    requires a + 2 <= |b|
    ensures Read16(b, a) < 0x1_0000
  {
    var w := b[a..a + 2];
    assert w[1..][1..] == [];
    assert LittleEndian(w[1..]) == w[1];
  }

  lemma Read32Bound(b: Bytes, a: nat)
    requires a + 4 <= |b|
    ensures Read32(b, a) < WORD_LIMIT
  {
    LittleEndianOfFour(b[a..a + 4]);
  }
}
