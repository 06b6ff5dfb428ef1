/** Physical memory as an array of bytes, and the 32-bit little-endian words the kernel keeps in it. */
module Memory {
  type Byte = x: int | 0 <= x < 0x100
  type Bytes = seq<Byte>

  const WORD_LIMIT: nat := 0x1_0000_0000

  /** The number whose base-256 digits, least significant first, are the given bytes. */
  function LittleEndian(bytes: Bytes): nat {
    if bytes == [] then 0 else bytes[0] + 0x100 * LittleEndian(bytes[1..])
  }

  /** The 32-bit word stored at address a. */
  function Word(m: Bytes, a: nat): nat
    requires a + 4 <= |m|
  {
    LittleEndian(m[a..a + 4])
  }

  lemma LittleEndianOfFour(b: Bytes)
    requires |b| == 4
    ensures LittleEndian(b) == b[0] as int + 0x100 * b[1] as int + 0x1_0000 * b[2] as int + 0x100_0000 * b[3] as int
    ensures LittleEndian(b) < WORD_LIMIT
  {
    assert b[1..][1..] == b[2..] && b[2..][1..] == b[3..] && b[3..][1..] == [];
    assert LittleEndian(b[3..]) == b[3];
    assert LittleEndian(b[2..]) == b[2] + 0x100 * LittleEndian(b[3..]);
    assert LittleEndian(b[1..]) == b[1] + 0x100 * LittleEndian(b[2..]);
  }

  /** The two memories are equal except perhaps in the n bytes from address a on. */
  predicate SameOutside(m: Bytes, m': Bytes, a: nat, n: nat) {
    var kept := |m| == |m'| && forall x :: 0 <= x < |m| && !(a <= x < a + n) ==> m[x] == m'[x];
    kept
  }

  /** The two memories agree on the n bytes from address a on. */
  predicate SameInside(m: Bytes, m': Bytes, a: nat, n: nat) {
    |m| == |m'| && forall x :: a <= x < a + n && x < |m| ==> m[x] == m'[x]
  }

  lemma WordKept(m: Bytes, m': Bytes, a: nat)
    requires a + 4 <= |m| && SameInside(m, m', a, 4)
    ensures Word(m', a) == Word(m, a)
  {
    assert m'[a..a + 4] == m[a..a + 4];
  }

  lemma BytesOfWord(v: nat)
    requires v < WORD_LIMIT
    ensures var b := v / 0x100;
            var c := b / 0x100;
            var d := c / 0x100;
            v == v % 0x100 + 0x100 * (b % 0x100) + 0x1_0000 * (c % 0x100) + 0x100_0000 * d && d < 0x100
  {
  }

  /** Stores v as four bytes and touches no others. */
  method StoreWord(ram: array<Byte>, a: nat, v: nat)
    requires a + 4 <= ram.Length
    requires v < WORD_LIMIT
    modifies ram
    ensures Word(ram[..], a) == v
    ensures SameOutside(old(ram[..]), ram[..], a, 4)
  {
    BytesOfWord(v);
    ram[a] := v % 0x100;
    ram[a + 1] := v / 0x100 % 0x100;
    ram[a + 2] := v / 0x100 / 0x100 % 0x100;
    ram[a + 3] := v / 0x100 / 0x100 / 0x100;
    LittleEndianOfFour(ram[..][a..a + 4]);
  }

  /** Reads the four bytes of a word, least significant first. */
  method LoadWord(ram: array<Byte>, a: nat) returns (v: nat)
    requires a + 4 <= ram.Length
    ensures v == Word(ram[..], a) && v < WORD_LIMIT
  {
    v := ram[a] as int + 0x100 * ram[a + 1] as int + 0x1_0000 * ram[a + 2] as int + 0x100_0000 * ram[a + 3] as int;
    LittleEndianOfFour(ram[..][a..a + 4]);
  }

  /** memcpy from a buffer elsewhere: the first bytes become those of the source, the rest stay. */
  method MemCpy(dest: array<Byte>, source: Bytes)
    requires |source| <= dest.Length
    modifies dest
    ensures dest[..] == source + old(dest[|source|..])
  {
    var k := 0;
    while k < |source|
      invariant k <= |source|
      invariant dest[..k] == source[..k]
      invariant dest[k..] == old(dest[k..])
    {
      dest[k] := source[k];
      k := k + 1;
    }
    assert dest[..] == dest[..k] + dest[k..];
  }
}
