/** Path resolution over the directory graph on the disk, with nothing cached, and the laws of spelling. */
module PathSpec {
  import opened Memory
  import opened Ext2Disk
  import opened DirBlock

  const SLASH: Byte := 0x2f
  const DOT: Bytes := [0x2e]
  const F_DIR: nat := 0x4000
  const ROOT_INODE: nat := 2

  /** The directory graph of a volume: which inodes are in use, which can be read, what they are, and the
      first block of each, which is as much of a directory as the driver reads. An inode that no directory
      in use names need not be in use, whatever its bytes say: a deleted directory leaves such a one. */
  datatype Graph = Graph(live: nat -> bool, valid: nat -> bool, kind: nat -> nat, block: nat -> Result<Bytes>) {
    predicate IsDir(n: nat) {
      live(n) && valid(n) && kind(n) == F_DIR
    }

    predicate RecordSane(r: Record) {
      live(r.inode) && valid(r.inode) && (r.fileType == DIRECTORY_TYPE <==> IsDir(r.inode)) && 0 !in r.name
    }

    /** If the directory's block can be read at all, it parses, it is not empty, and its records name
        inodes that are in use, can be read and have the recorded type. */
    predicate DirectorySane(n: nat) {
      block(n).Ok? ==>
        && block(n).value != [] && Readable(block(n).value, 0)
        && forall i :: 0 <= i < |Parse(block(n).value, 0)| ==> RecordSane(Parse(block(n).value, 0)[i])
    }

    predicate SaneAt(n: nat) {
      IsDir(n) ==> DirectorySane(n)
    }

    /** The root is a directory, and every directory in use is sane: so are all that paths can reach. */
    ghost predicate Sane() {
      IsDir(ROOT_INODE) && forall n :: SaneAt(n)
    }

    /** The records of a directory; none if its block cannot be read. */
    function Records(n: nat): seq<Record>
      requires DirectorySane(n)
    {
      if block(n).Ok? then Parse(block(n).value, 0) else []
    }
  }

  /** The first record with the given name, or the number of records. */
  function Find(records: seq<Record>, name: Bytes): (i: nat)
    ensures i <= |records|
    ensures i < |records| ==> records[i].name == name
    ensures forall j :: 0 <= j < i ==> records[j].name != name
  {
    if records == [] || records[0].name == name then 0 else 1 + Find(records[1..], name)
  }

  /** What a path leads to. */
  datatype Node = Node(name: Bytes, inode: nat, kind: nat)

  // --- spelling ---

  /** A path as a list of components, empty ones included, and whether it ends in one more slash. */
  datatype Spelling = Spelling(names: seq<Bytes>, slash: bool)

  function ComponentLength(path: Bytes): (k: nat)
    ensures k <= |path| && forall j :: 0 <= j < k ==> path[j] != SLASH
    ensures k < |path| ==> path[k] == SLASH
  {
    if path == [] || path[0] == SLASH then 0 else ComponentLength(path[1..]) + 1
  }

  function Split(path: Bytes): (s: Spelling)
    ensures s.names != []
    decreases |path|
  {
    var k := ComponentLength(path);
    if k == |path| then Spelling([path], false)
    else if k + 1 == |path| then Spelling([path[..k]], true)
    else
      var rest := Split(path[k + 1..]);
      Spelling([path[..k]] + rest.names, rest.slash)
  }

  function Join(s: Spelling): Bytes
    requires s.names != []
    decreases |s.names|
  {
    if |s.names| == 1 then s.names[0] + (if s.slash then [SLASH] else [])
    else s.names[0] + [SLASH] + Join(Spelling(s.names[1..], s.slash))
  }

  lemma CutAt(path: Bytes, k: nat)
    requires k < |path| && path[k] == SLASH
    ensures path == path[..k] + [SLASH] + path[k + 1..]
  {
  }

  lemma JoinStep(first: Bytes, rest: Spelling)
    requires rest.names != []
    ensures Join(Spelling([first] + rest.names, rest.slash)) == first + [SLASH] + Join(rest)
  {
    assert ([first] + rest.names)[1..] == rest.names;
  }

  /** Splitting loses nothing. */
  lemma {:induction false} SplitIsLossless(path: Bytes)
    ensures Join(Split(path)) == path
    decreases |path|
  {
    var k := ComponentLength(path);
    if k == |path| {
      assert path + [] == path;
    } else if k + 1 < |path| {
      SplitIsLossless(path[k + 1..]);
      JoinStep(path[..k], Split(path[k + 1..]));
      CutAt(path, k);
    } else {
      CutAt(path, k);
      assert path[k + 1..] == [];
    }
  }

  /** It leaves no slash inside a component. */
  lemma {:induction false} ComponentsHaveNoSlash(path: Bytes, i: nat)
    requires i < |Split(path).names|
    ensures SLASH !in Split(path).names[i]
    decreases |path|
  {
    var k := ComponentLength(path);
    if k + 1 < |path| && i > 0 {
      assert Split(path).names == [path[..k]] + Split(path[k + 1..]).names;
      ComponentsHaveNoSlash(path[k + 1..], i - 1);
    }
  }

  // --- resolution ---

  function Effective(name: Bytes): Bytes {
    if name == [] then DOT else name
  }

  /** The first record of directory n with the given name. */
  ghost function Lookup(v: Graph, n: nat, name: Bytes): (r: Result<Record>)
    requires v.Sane() && v.IsDir(n)
    ensures r.Ok? ==> v.RecordSane(r.value) && r.value.name == name
    ensures r.Err? ==> r.error == ENOENT
  {
    assert v.SaneAt(n);
    var records := v.Records(n);
    var i := Find(records, name);
    assert i < |records| ==> v.RecordSane(records[i]);
    if i == |records| then Err(ENOENT) else Ok(records[i])
  }

  /** Follow the components from directory n: an empty one means ".", a missing one and an inner one that
      is no directory are both "no such entry", and a path that ends in a slash must end at a directory. */
  ghost function Follow(v: Graph, n: nat, names: seq<Bytes>, slash: bool): Result<Node>
    requires v.Sane() && v.IsDir(n) && names != []
    decreases |names|
  {
    match Lookup(v, n, Effective(names[0]))
    case Err(e) => Err(e)
    case Ok(r) =>
      if |names| == 1 then
        if slash && !v.IsDir(r.inode) then Err(ENOTDIR) else Ok(Node(r.name, r.inode, v.kind(r.inode)))
      else if !v.IsDir(r.inode) then Err(ENOENT)
      else Follow(v, r.inode, names[1..], slash)
  }

  ghost function Resolve(v: Graph, n: nat, path: Bytes): Result<Node>
    requires v.Sane() && v.IsDir(n)
  {
    Follow(v, n, Split(path).names, Split(path).slash)
  }

  /** The answer for a path from directory n; an empty path stands for ".", to be a directory if a slash
      came before it. */
  ghost function Expected(v: Graph, n: nat, path: Bytes, afterSlash: bool): Result<Node>
    requires v.Sane() && v.IsDir(n)
  {
    if path == [] then Follow(v, n, [[]], afterSlash) else Resolve(v, n, path)
  }

  /** Nothing but perhaps a slash follows the first component. */
  predicate AtLast(path: Bytes) {
    ComponentLength(path) + 1 >= |path|
  }

  predicate SlashAtEnd(path: Bytes, afterSlash: bool) {
    if path == [] then afterSlash else ComponentLength(path) < |path|
  }

  /** The answer once the first component has led to record r. */
  ghost function AfterLookup(v: Graph, r: Record, path: Bytes, afterSlash: bool): Result<Node>
    requires v.Sane() && v.RecordSane(r)
  {
    if AtLast(path) then
      if SlashAtEnd(path, afterSlash) && !v.IsDir(r.inode) then Err(ENOTDIR)
      else Ok(Node(r.name, r.inode, v.kind(r.inode)))
    else if !v.IsDir(r.inode) then Err(ENOENT)
    else Resolve(v, r.inode, path[ComponentLength(path) + 1..])
  }

  lemma LookupAt(v: Graph, n: nat, name: Bytes, i: nat)
    requires v.Sane() && v.IsDir(n) && v.DirectorySane(n) && i == Find(v.Records(n), name)
    ensures Lookup(v, n, name) == if i < |v.Records(n)| then Ok(v.Records(n)[i]) else Err(ENOENT)
  {
  }

  /** The answer, one component at a time. */
  lemma ExpectedStep(v: Graph, n: nat, path: Bytes, afterSlash: bool)
    requires v.Sane() && v.IsDir(n)
    ensures Expected(v, n, path, afterSlash) ==
            var found := Lookup(v, n, Effective(path[..ComponentLength(path)]));
            if found.Err? then Err(found.error) else AfterLookup(v, found.value, path, afterSlash)
  {
    var k := ComponentLength(path);
    if path == [] || k == |path| {
      assert path[..k] == path;
    } else if !AtLast(path) {
      assert Split(path).names[1..] == Split(path[k + 1..]).names;
    }
  }

  /** Every component fits the buffer of 256 bytes. */
  predicate ComponentsFit(path: Bytes) {
    forall i :: 0 <= i < |Split(path).names| ==> |Split(path).names[i]| < 256
  }

  lemma FirstFits(path: Bytes)
    requires ComponentsFit(path)
    ensures ComponentLength(path) < 256
    ensures !AtLast(path) ==> ComponentsFit(path[ComponentLength(path) + 1..])
  {
    var k := ComponentLength(path);
    assert |Split(path).names[0]| == k;
    if !AtLast(path) {
      var rest := Split(path[k + 1..]);
      forall i | 0 <= i < |rest.names|
        ensures |rest.names[i]| < 256
      {
        assert Split(path).names[i + 1] == rest.names[i];
      }
    }
  }

  // --- inodes that are not in use ---

  /** The graphs have the same inodes in use, and this one is the same in both if it is. */
  predicate AgreeAt(v: Graph, w: Graph, n: nat) {
    && v.live(n) == w.live(n)
    && (v.live(n) ==> v.valid(n) == w.valid(n) && v.kind(n) == w.kind(n) && v.block(n) == w.block(n))
  }

  ghost predicate AgreeInUse(v: Graph, w: Graph) {
    forall n :: AgreeAt(v, w, n)
  }

  lemma AgreeOnDirectory(v: Graph, w: Graph, n: nat)
    requires AgreeInUse(v, w) && v.IsDir(n)
    ensures w.IsDir(n) && (v.DirectorySane(n) <==> w.DirectorySane(n))
  {
    assert AgreeAt(v, w, n);
    if v.block(n).Ok? && Readable(v.block(n).value, 0) {
      var records := Parse(v.block(n).value, 0);
      forall i | 0 <= i < |records|
        ensures v.RecordSane(records[i]) <==> w.RecordSane(records[i])
      {
        assert AgreeAt(v, w, records[i].inode);
      }
    }
  }

  /** Whatever an inode holds that is not in use, it makes no difference to whether the volume is sane. */
  lemma UnusedKeepSane(v: Graph, w: Graph)
    requires AgreeInUse(v, w) && v.Sane()
    ensures w.Sane()
  {
    AgreeOnDirectory(v, w, ROOT_INODE);
    forall n
      ensures w.SaneAt(n)
    {
      assert AgreeAt(v, w, n) && v.SaneAt(n);
      if v.IsDir(n) {
        AgreeOnDirectory(v, w, n);
      }
    }
  }

  /** Nor to any answer. */
  lemma {:induction false} UnusedKeepAnswers(v: Graph, w: Graph, n: nat, names: seq<Bytes>, slash: bool)
    requires AgreeInUse(v, w) && v.Sane() && v.IsDir(n) && names != []
    ensures w.Sane() && w.IsDir(n) && Follow(w, n, names, slash) == Follow(v, n, names, slash)
    decreases |names|
  {
    UnusedKeepSane(v, w);
    assert AgreeAt(v, w, n);
    var r := Lookup(v, n, Effective(names[0]));
    if r.Ok? {
      assert AgreeAt(v, w, r.value.inode);
      if |names| > 1 && v.IsDir(r.value.inode) {
        UnusedKeepAnswers(v, w, r.value.inode, names[1..], slash);
      }
    }
  }

  // --- laws of spelling ---

  /** The first entry named "." of every directory that can be read is the directory itself. */
  ghost predicate SelfEntries(v: Graph)
    requires v.Sane()
  {
    forall n :: v.IsDir(n) && v.block(n).Ok? ==> SelfEntry(v, n)
  }

  ghost predicate SelfEntry(v: Graph, n: nat)
    requires v.Sane() && v.IsDir(n)
  {
    Lookup(v, n, DOT).Ok? && Lookup(v, n, DOT).value.inode == n
  }

  lemma ComponentEndsAt(path: Bytes, k: nat)
    requires k < |path| && path[k] == SLASH && forall j :: 0 <= j < k ==> path[j] != SLASH
    ensures ComponentLength(path) == k
  {
  }

  lemma SplitAtSlash(path: Bytes, k: nat)
    requires k + 1 < |path| && path[k] == SLASH && forall j :: 0 <= j < k ==> path[j] != SLASH
    ensures Split(path) == Spelling([path[..k]] + Split(path[k + 1..]).names, Split(path[k + 1..]).slash)
  {
    ComponentEndsAt(path, k);
  }

  /** A step over one component and a slash. */
  lemma ResolveStep(v: Graph, n: nat, name: Bytes, rest: Bytes)
    requires v.Sane() && v.IsDir(n) && SLASH !in name && rest != []
    ensures Resolve(v, n, name + [SLASH] + rest) ==
            var r := Lookup(v, n, Effective(name));
            if r.Err? || !v.IsDir(r.value.inode) then Err(ENOENT) else Resolve(v, r.value.inode, rest)
  {
    var path := name + [SLASH] + rest;
    assert path[..|name|] == name && path[|name| + 1..] == rest;
    SplitAtSlash(path, |name|);
    assert ([name] + Split(rest).names)[1..] == Split(rest).names;
  }

  /** Nothing is found in a directory that cannot be read. */
  lemma UnreadableFindsNothing(v: Graph, n: nat, path: Bytes)
    requires v.Sane() && v.IsDir(n) && v.block(n).Err?
    ensures Resolve(v, n, path) == Err(ENOENT)
  {
  }

  /** A slash more between two parts of a path makes no difference, wherever it is, what follows, and
      whatever the outcome. */
  lemma {:induction false} RepeatedSlash(v: Graph, n: nat, a: Bytes, b: Bytes)
    requires v.Sane() && SelfEntries(v) && v.IsDir(n) && b != []
    ensures Resolve(v, n, a + [SLASH, SLASH] + b) == Resolve(v, n, a + [SLASH] + b)
    decreases |a|
  {
    var k := ComponentLength(a);
    if k == |a| {
      SlashBeforeRest(v, n, a, b);
    } else {
      var name, rest := a[..k], a[k + 1..];
      assert a == name + [SLASH] + rest;
      assert a + [SLASH, SLASH] + b == name + [SLASH] + (rest + [SLASH, SLASH] + b);
      assert a + [SLASH] + b == name + [SLASH] + (rest + [SLASH] + b);
      ResolveStep(v, n, name, rest + [SLASH, SLASH] + b);
      ResolveStep(v, n, name, rest + [SLASH] + b);
      var r := Lookup(v, n, Effective(name));
      if r.Ok? && v.IsDir(r.value.inode) {
        RepeatedSlash(v, r.value.inode, rest, b);
      }
    }
  }

  lemma SlashBeforeRest(v: Graph, n: nat, name: Bytes, b: Bytes)
    requires v.Sane() && SelfEntries(v) && v.IsDir(n) && b != [] && SLASH !in name
    ensures Resolve(v, n, name + [SLASH, SLASH] + b) == Resolve(v, n, name + [SLASH] + b)
  {
    assert name + [SLASH, SLASH] + b == name + [SLASH] + ([] + [SLASH] + b);
    ResolveStep(v, n, name, [] + [SLASH] + b);
    ResolveStep(v, n, name, b);
    var r := Lookup(v, n, Effective(name));
    if r.Ok? && v.IsDir(r.value.inode) {
      var m := r.value.inode;
      if v.block(m).Ok? {
        assert SelfEntry(v, m);
        ResolveStep(v, m, [], b);
      } else {
        UnreadableFindsNothing(v, m, [] + [SLASH] + b);
        UnreadableFindsNothing(v, m, b);
      }
    }
  }

  /** The outcome a trailing slash makes of an outcome without one. */
  function MustBeDirectory(r: Result<Node>): Result<Node> {
    if r.Ok? && r.value.kind != F_DIR then Err(ENOTDIR) else r
  }

  lemma {:induction false} FollowTrailing(v: Graph, n: nat, names: seq<Bytes>)
    requires v.Sane() && v.IsDir(n) && names != []
    ensures Follow(v, n, names, true) == MustBeDirectory(Follow(v, n, names, false))
    decreases |names|
  {
    var r := Lookup(v, n, Effective(names[0]));
    if r.Ok? && |names| > 1 && v.IsDir(r.value.inode) {
      FollowTrailing(v, r.value.inode, names[1..]);
    }
  }

  lemma {:induction false} SplitTrailing(path: Bytes)
    requires path != [] && path[|path| - 1] != SLASH
    ensures !Split(path).slash && Split(path + [SLASH]) == Spelling(Split(path).names, true)
    decreases |path|
  {
    var k := ComponentLength(path);
    var longer := path + [SLASH];
    if k == |path| {
      assert longer[..k] == path && path[..k] == path;
      ComponentEndsAt(longer, k);
    } else {
      assert longer[..k] == path[..k] && longer[k + 1..] == path[k + 1..] + [SLASH];
      assert k + 1 < |path|;
      SplitAtSlash(path, k);
      SplitAtSlash(longer, k);
      SplitTrailing(path[k + 1..]);
    }
  }

  lemma {:induction false} FollowFails(v: Graph, n: nat, names: seq<Bytes>)
    requires v.Sane() && v.IsDir(n) && names != []
    ensures Follow(v, n, names, false).Err? ==> Follow(v, n, names, false) == Err(ENOENT)
    decreases |names|
  {
    var r := Lookup(v, n, Effective(names[0]));
    if r.Ok? && |names| > 1 && v.IsDir(r.value.inode) {
      FollowFails(v, r.value.inode, names[1..]);
    }
  }

  /** Without a slash at its end a path fails in one way only, whether a name is missing or a component on
      the way is no directory. */
  lemma OneWayToFail(v: Graph, n: nat, path: Bytes)
    requires v.Sane() && v.IsDir(n) && path != [] && path[|path| - 1] != SLASH
    ensures Resolve(v, n, path).Ok? || Resolve(v, n, path) == Err(ENOENT)
  {
    SplitTrailing(path);
    FollowFails(v, n, Split(path).names);
  }

  /** A trailing slash keeps the outcome, except that a node that is no directory becomes ENOTDIR. */
  lemma TrailingSlash(v: Graph, n: nat, path: Bytes)
    requires v.Sane() && v.IsDir(n) && path != [] && path[|path| - 1] != SLASH
    ensures Resolve(v, n, path + [SLASH]) == MustBeDirectory(Resolve(v, n, path))
  {
    SplitTrailing(path);
    FollowTrailing(v, n, Split(path).names);
  }

  const DOT_DOT: Bytes := [0x2e, 0x2e]

  /** Only "." and ".." name the root inside the root directory. */
  ghost predicate RootHasNoAlias(v: Graph)
    requires v.Sane()
  {
    && v.SaneAt(ROOT_INODE)
    && forall i :: 0 <= i < |v.Records(ROOT_INODE)| && v.Records(ROOT_INODE)[i].inode == ROOT_INODE ==>
         v.Records(ROOT_INODE)[i].name == DOT || v.Records(ROOT_INODE)[i].name == DOT_DOT
  }

  /** An absolute path with at most one character after its slash leads to the root exactly when that is
      none, a slash or a dot. */
  lemma ShortPathIsRootIff(v: Graph, rest: Bytes)
    requires v.Sane() && SelfEntry(v, ROOT_INODE) && RootHasNoAlias(v) && |rest| <= 1
    ensures var r := Expected(v, ROOT_INODE, rest, true);
            (r.Ok? && r.value.inode == ROOT_INODE) <==> rest == [] || rest == [SLASH] || rest == DOT
  {
    ExpectedStep(v, ROOT_INODE, rest, true);
    if |rest| == 1 {
      assert rest[..1] == rest && rest[..0] == [];
      if rest[0] == SLASH {
        assert rest == [SLASH];
      } else if rest[0] == DOT[0] {
        assert rest == DOT;
      } else {
        NamedIsNotRoot(v, rest);
      }
    }
  }

  lemma NamedIsNotRoot(v: Graph, name: Bytes)
    requires v.Sane() && RootHasNoAlias(v) && |name| == 1 && name != DOT
    ensures Lookup(v, ROOT_INODE, name).Ok? ==> Lookup(v, ROOT_INODE, name).value.inode != ROOT_INODE
  {
    var i := Find(v.Records(ROOT_INODE), name);
    assert |DOT_DOT| == 2;
  }

  // --- a volume with nothing in it ---

  const SELF: Record := Record(ROOT_INODE, 12, DIRECTORY_TYPE, DOT)
  const PARENT: Record := Record(ROOT_INODE, 12, DIRECTORY_TYPE, DOT_DOT)

  const EMPTY_BLOCK: Bytes :=
    [2, 0, 0, 0, 12, 0, 1, 2, 0x2e, 0, 0, 0, 2, 0, 0, 0, 12, 0, 2, 2, 0x2e, 0x2e, 0, 0]

  /** The root directory alone, with its entries for itself and its parent. */
  function EmptyVolume(): Graph {
    Graph((n: nat) => n == ROOT_INODE, (n: nat) => n == ROOT_INODE,
          (n: nat) => if n == ROOT_INODE then F_DIR else 0,
          (n: nat) => if n == ROOT_INODE then Ok(EMPTY_BLOCK) else Err(ENOENT))
  }

  lemma RecordInPlace(b: Bytes, a: nat, r: Record)
    requires a + RECORD_HEADER + |r.name| <= |b| && r.fileType < 0x100
    requires b[a + 1] == b[a + 2] == b[a + 3] == b[a + 5] == 0
    requires b[a] == r.inode && b[a + 4] == r.recLen && b[a + 6] == |r.name| && b[a + 7] == r.fileType
    ensures Read32(b, a) == r.inode && Read16(b, a + 4) == r.recLen
  {
    LittleEndianOfFour(b[a..a + 4]);
    var w := b[a + 4..a + 6];
    assert w[1..][1..] == [];
    assert LittleEndian(w[1..]) == w[1];
  }

  lemma FirstEntry(b: Bytes)
    requires b == EMPTY_BLOCK
    ensures |b| == 24 && HoldsRecord(b, 0, SELF)
  {
    assert b[0] == 2 && b[1] == b[2] == b[3] == b[5] == 0 && b[4] == 12 && b[6] == 1 && b[7] == 2 && b[8] == 0x2e;
    RecordInPlace(b, 0, SELF);
    assert b[8..9] == DOT;
  }

  lemma SecondEntry(b: Bytes)
    requires b == EMPTY_BLOCK
    ensures HoldsRecord(b, 12, PARENT)
  {
    assert b[12] == 2 && b[13] == b[14] == b[15] == b[17] == 0 && b[16] == 12 && b[18] == b[19] == 2;
    RecordInPlace(b, 12, PARENT);
    assert b[20..22] == DOT_DOT by {
      assert b[20] == b[21] == 0x2e;
    }
  }

  predicate ParsesTo(b: Bytes, records: seq<Record>) {
    var parses := Readable(b, 0) && Parse(b, 0) == records;
    parses
  }

  lemma TwoRecords(b: Bytes, r: Record, s: Record, i: nat)
    requires HoldsRecord(b, 0, r) && HoldsRecord(b, i, s)
    requires i == RoundUp4(r.recLen) && i + RoundUp4(s.recLen) == |b|
    ensures ParsesTo(b, [r, s])
  {
    var rest: seq<Record> := [s];
    assert rest[1..] == [] && ([r] + rest)[1..] == rest && [r] + rest == [r, s];
    assert Holds(b, RoundUp4(r.recLen), rest);
    assert Holds(b, 0, [r] + rest);
    ParseInvertsLayout(b, 0, [r] + rest);
  }

  lemma EntriesParse(b: Bytes)
    requires |b| == 24 && HoldsRecord(b, 0, SELF) && HoldsRecord(b, 12, PARENT)
    ensures ParsesTo(b, [SELF, PARENT])
  {
    TwoRecords(b, SELF, PARENT, 12);
  }

  lemma EmptyBlockParses(b: Bytes)
    requires b == EMPTY_BLOCK
    ensures ParsesTo(b, [SELF, PARENT])
  {
    FirstEntry(b);
    SecondEntry(b);
    EntriesParse(b);
  }

  lemma EmptyRootSane()
    ensures EmptyVolume().DirectorySane(ROOT_INODE) && EmptyVolume().Records(ROOT_INODE) == [SELF, PARENT]
  {
    EmptyBlockParses(EMPTY_BLOCK);
    assert EmptyVolume().RecordSane(SELF) && EmptyVolume().RecordSane(PARENT);
    DirectoryHolds(EmptyVolume(), ROOT_INODE, EMPTY_BLOCK, SELF, PARENT);
  }

  lemma DirectoryHolds(v: Graph, n: nat, b: Bytes, r: Record, s: Record)
    requires v.block(n) == Ok(b) && b != [] && ParsesTo(b, [r, s]) && v.RecordSane(r) && v.RecordSane(s)
    ensures v.DirectorySane(n) && v.Records(n) == [r, s]
  {
  }

  lemma EmptyVolumeSane()
    ensures EmptyVolume().Sane()
  {
    EmptyRootSane();
    forall n
      ensures EmptyVolume().SaneAt(n)
    {
    }
  }

  lemma FindsSelf()
    ensures Find([SELF, PARENT], DOT) == 0 && Find([SELF, PARENT], [0x61]) == 2
  {
    assert [SELF, PARENT][1..] == [PARENT] && [PARENT][1..] == [];
    assert DOT[0] != 0x61 && DOT_DOT[0] != 0x61;
  }

  lemma EmptyVolumeEntries()
    ensures EmptyVolume().Sane() && SelfEntry(EmptyVolume(), ROOT_INODE) && RootHasNoAlias(EmptyVolume())
  {
    EmptyVolumeSane();
    EmptyRootSane();
    FindsSelf();
  }

  /** There resolution finds no "/a". */
  lemma NoSuchName()
    ensures EmptyVolume().Sane() && EmptyVolume().IsDir(ROOT_INODE)
    ensures Expected(EmptyVolume(), ROOT_INODE, [0x61], true) == Err(ENOENT)
  {
    EmptyVolumeSane();
    EmptyRootSane();
    FindsSelf();
    ComponentEnd([0x61]);
    ExpectedStep(EmptyVolume(), ROOT_INODE, [0x61], true);
  }

  lemma ComponentEnd(path: Bytes)
    requires SLASH !in path
    ensures ComponentLength(path) == |path| && path[..ComponentLength(path)] == path
  {
  }
}
