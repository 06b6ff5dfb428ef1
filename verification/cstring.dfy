/** NUL-terminated strings inside byte buffers. */
module CString {
  import opened Memory
  import opened PathSpec

  /** A terminator lies at pos or later. */
  predicate Terminated(buf: Bytes, pos: nat) {
    exists j :: pos <= j < |buf| && buf[j] == 0
  }

  function EndOf(buf: Bytes, pos: nat): (e: nat)
    requires Terminated(buf, pos)
    ensures pos <= e < |buf| && buf[e] == 0 && forall j :: pos <= j < e ==> buf[j] != 0
    decreases |buf| - pos
  {
    if buf[pos] == 0 then pos else EndOf(buf, pos + 1)
  }

  /** The string that starts at pos. */
  function At(buf: Bytes, pos: nat): (s: Bytes)
    requires Terminated(buf, pos)
    ensures 0 !in s && |s| == EndOf(buf, pos) - pos
  {
    buf[pos..EndOf(buf, pos)]
  }

  lemma EndUnique(buf: Bytes, pos: nat, e: nat)
    requires pos <= e < |buf| && buf[e] == 0 && forall j :: pos <= j < e ==> buf[j] != 0
    ensures Terminated(buf, pos) && EndOf(buf, pos) == e
  {
  }

  /** strccpy(dest, src, '/'): copies up to the first slash or the terminator, terminates the copy, and
      returns where the source goes on: after the slash, or at the terminator. */
  method Strccpy(dest: array<Byte>, buf: Bytes, src: nat, terminator: Byte) returns (rem: nat)
    requires Terminated(buf, src) && terminator == SLASH
    requires ComponentLength(At(buf, src)) < dest.Length
    modifies dest
    ensures var path := At(buf, src); var k := ComponentLength(path);
            && dest[..k] == path[..k] && dest[k] == 0
            && rem == (if k < |path| then src + k + 1 else src + k)
  {
    ghost var path := At(buf, src);
    ghost var k := ComponentLength(path);
    var d := 0;
    rem := src;
    var c := buf[rem];
    rem := rem + 1;
    while c != 0 && c != terminator
      invariant d <= k && rem == src + d + 1 && rem <= |buf| && c == buf[src + d]
      invariant dest[..d] == path[..d]
      decreases k - d
    {
      assert d < |path| && c == path[d];
      dest[d] := c;
      d := d + 1;
      c := buf[rem];
      rem := rem + 1;
    }
    assert d == k;
    if c == 0 {
      rem := rem - 1;
    }
    dest[d] := 0;
  }

  /** rem is where the path at pos goes on after its first component. */
  predicate GoesOn(buf: Bytes, pos: nat, rem: nat)
    requires Terminated(buf, pos)
  {
    var path := At(buf, pos);
    && 0 < rem < |buf|
    && (buf[rem] == 0 <==> AtLast(path))
    && (buf[rem] == 0 ==> (buf[rem - 1] == SLASH <==> SlashAtEnd(path, pos > 0 && buf[pos - 1] == SLASH)))
    && (!AtLast(path) ==>
          && buf[rem - 1] == SLASH
          && Terminated(buf, rem) && At(buf, rem) == path[ComponentLength(path) + 1..])
  }

  /** The head of namei_recursive: the next component, "." for an empty one, and where the path goes on. */
  method NextName(buf: Bytes, pos: nat) returns (name: Bytes, rem: nat)
    requires Terminated(buf, pos) && ComponentsFit(At(buf, pos)) && (pos > 0 || At(buf, pos) != [])
    ensures var path := At(buf, pos); name == Effective(path[..ComponentLength(path)])
    ensures GoesOn(buf, pos, rem)
  {
    ghost var path := At(buf, pos);
    ghost var k := ComponentLength(path);
    FirstFits(path);
    var currentName := new Byte[256];
    rem := Strccpy(currentName, buf, pos, SLASH);
    assert currentName[..][..k] == path[..k];
    assert forall j :: 0 <= j < k ==> currentName[..][j] == path[j];
    EndUnique(currentName[..], 0, k);
    name := Effective(At(currentName[..], 0));
    if !AtLast(path) {
      EndUnique(buf, rem, EndOf(buf, pos));
    }
  }
}
