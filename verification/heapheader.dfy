/** The 24-byte header that precedes every heap entry. */
module HeapHeader {
  import opened Memory

  const HEADER_SIZE: nat := 24
  const NULL: nat := 0

  /** A header as its six words, in the order of the packed C struct. */
  datatype Header = Header(available: nat, size: nat, start: nat, next: nat, previous: nat, description: nat)

  datatype Field = Available | Size | Start | Next | Previous | Description {
    function Offset(): (o: nat)
      ensures o + 4 <= HEADER_SIZE
    {
      match this
      case Available => 0
      case Size => 4
      case Start => 8
      case Next => 12
      case Previous => 16
      case Description => 20
    }
  }

  function FieldAt(m: Bytes, a: nat, f: Field): nat
    requires a + HEADER_SIZE <= |m|
  {
    Word(m, a + f.Offset())
  }

  function HeaderAt(m: Bytes, a: nat): Header
    requires a + HEADER_SIZE <= |m|
  {
    Header(FieldAt(m, a, Available), FieldAt(m, a, Size), FieldAt(m, a, Start),
           FieldAt(m, a, Next), FieldAt(m, a, Previous), FieldAt(m, a, Description))
  }

  /** The header is packed: its words follow each other without padding, in the struct's order. */
  lemma HeaderLayout(m: Bytes, a: nat)
    requires a + HEADER_SIZE <= |m|
    ensures var h := HeaderAt(m, a);
            && h.available == LittleEndian(m[a..a + 4]) && h.size == LittleEndian(m[a + 4..a + 8])
            && h.start == LittleEndian(m[a + 8..a + 12]) && h.next == LittleEndian(m[a + 12..a + 16])
            && h.previous == LittleEndian(m[a + 16..a + 20]) && h.description == LittleEndian(m[a + 20..a + 24])
  {
  }

  function WithField(h: Header, f: Field, v: nat): Header {
    match f
    case Available => h.(available := v)
    case Size => h.(size := v)
    case Start => h.(start := v)
    case Next => h.(next := v)
    case Previous => h.(previous := v)
    case Description => h.(description := v)
  }

  lemma FieldKept(m: Bytes, m': Bytes, a: nat, f: Field)
    requires a + HEADER_SIZE <= |m| && SameInside(m, m', a + f.Offset(), 4)
    ensures FieldAt(m', a, f) == FieldAt(m, a, f)
  {
    WordKept(m, m', a + f.Offset());
  }

  /** A header none of whose bytes changed is the same header. */
  lemma HeaderKept(m: Bytes, m': Bytes, a: nat)
    requires a + HEADER_SIZE <= |m| && SameInside(m, m', a, HEADER_SIZE)
    ensures HeaderAt(m', a) == HeaderAt(m, a)
  {
    FieldKept(m, m', a, Available);
    FieldKept(m, m', a, Size);
    FieldKept(m, m', a, Start);
    FieldKept(m, m', a, Next);
    FieldKept(m, m', a, Previous);
    FieldKept(m, m', a, Description);
  }

  /** A write elsewhere leaves a header as it was. */
  lemma ElsewhereKept(m: Bytes, m': Bytes, at: nat, n: nat, a: nat)
    requires a + HEADER_SIZE <= |m| && SameOutside(m, m', at, n)
    requires a + HEADER_SIZE <= at || at + n <= a
    ensures HeaderAt(m', a) == HeaderAt(m, a)
  {
    HeaderKept(m, m', a);
  }

  /** Writing the four bytes of one field changes that field of the header and no other. */
  lemma HeaderWithField(m: Bytes, m': Bytes, a: nat, f: Field, v: nat)
    requires a + HEADER_SIZE <= |m| && SameOutside(m, m', a + f.Offset(), 4)
    requires FieldAt(m', a, f) == v
    ensures HeaderAt(m', a) == WithField(HeaderAt(m, a), f, v)
  {
    if f != Available { FieldKept(m, m', a, Available); }
    if f != Size { FieldKept(m, m', a, Size); }
    if f != Start { FieldKept(m, m', a, Start); }
    if f != Next { FieldKept(m, m', a, Next); }
    if f != Previous { FieldKept(m, m', a, Previous); }
    if f != Description { FieldKept(m, m', a, Description); }
  }

  /** Assigns one field of the header at address a, and touches no byte outside the header. */
  method StoreField(ram: array<Byte>, a: nat, f: Field, v: nat)
    requires a + HEADER_SIZE <= ram.Length
    requires v < WORD_LIMIT
    modifies ram
    ensures HeaderAt(ram[..], a) == WithField(old(HeaderAt(ram[..], a)), f, v)
    ensures SameOutside(old(ram[..]), ram[..], a, HEADER_SIZE)
  {
    StoreWord(ram, a + f.Offset(), v);
    HeaderWithField(old(ram[..]), ram[..], a, f, v);
  }

  method LoadField(ram: array<Byte>, a: nat, f: Field) returns (v: nat)
    requires a + HEADER_SIZE <= ram.Length
    ensures v == FieldAt(ram[..], a, f) && v < WORD_LIMIT
  {
    v := LoadWord(ram, a + f.Offset());
  }
}
