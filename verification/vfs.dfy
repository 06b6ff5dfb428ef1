/** The tree of cached directories, filled on demand from the disk. */
module Vfs {
  import opened Memory
  import opened Ext2Disk
  import opened DirBlock
  import opened PathSpec
  import opened Volumes
  import CString

  /** A cached directory entry; directory is the NULL reference for anything that is no directory. */
  datatype Entry = Entry(name: Bytes, inodeNo: nat, kind: nat, directory: Dir?) {
    function Node(): Node {
      PathSpec.Node(name, inodeNo, kind)
    }
  }

  /** A cached directory; entries is empty until the directory has been loaded. */
  class Dir {
    const inodeNo: nat
    const fsInfo: FileSystem
    const parent: Dir
    var entries: seq<Entry>

    /** The root directory is its own parent. */
    constructor Root(fsInfo: FileSystem)
      ensures inodeNo == ROOT_INODE && this.fsInfo == fsInfo && parent == this && entries == []
    {
      inodeNo, this.fsInfo, parent, entries := ROOT_INODE, fsInfo, this, [];
    }

    constructor Child(inodeNo: nat, parent: Dir)
      ensures this.inodeNo == inodeNo && fsInfo == parent.fsInfo && this.parent == parent && entries == []
    {
      this.inodeNo, fsInfo, this.parent, entries := inodeNo, parent.fsInfo, parent, [];
    }
  }

  /** Entry e of directory d is what record r of the disk makes of it: a directory that is d itself or its
      parent is that object, any other is a child of d, and a file has none. */
  ghost predicate Mirrors(g: Graph, dirs: set<Dir>, d: Dir, e: Entry, r: Record) {
    && g.RecordSane(r)
    && e.name == r.name && e.inodeNo == r.inode && e.kind == g.kind(r.inode)
    && if r.fileType != DIRECTORY_TYPE then e.directory == null
       else
         && e.directory != null && e.directory in dirs && e.directory.inodeNo == r.inode
         && (if r.inode == d.inodeNo then e.directory == d
             else if r.inode == d.parent.inodeNo then e.directory == d.parent
             else e.directory.parent == d)
  }

  /** The entries mirror the records one by one. */
  ghost predicate MirrorAll(g: Graph, dirs: set<Dir>, d: Dir, entries: seq<Entry>, records: seq<Record>) {
    |entries| == |records| && forall i :: 0 <= i < |records| ==> Mirrors(g, dirs, d, entries[i], records[i])
  }

  /** A cached directory with the given entries agrees with the disk: it has none yet, or all of them. */
  ghost predicate Agrees(g: Graph, fs: FileSystem, dirs: set<Dir>, d: Dir, entries: seq<Entry>) {
    && d.fsInfo == fs && d.parent in dirs
    && g.IsDir(d.inodeNo) && g.DirectorySane(d.inodeNo)
    && (entries != [] ==> MirrorAll(g, dirs, d, entries, g.Records(d.inodeNo)))
  }

  lemma AgreementGrows(g: Graph, fs: FileSystem, dirs: set<Dir>, dirs': set<Dir>, d: Dir, entries: seq<Entry>)
    requires dirs <= dirs' && Agrees(g, fs, dirs, d, entries)
    ensures Agrees(g, fs, dirs', d, entries)
  {
  }

  // --- one cached directory for each on the disk ---

  /** The directories of the volume form a tree with up as the parent relation: a record of directory m
      that is neither m nor its parent names a child of m, and no other record of m names it. */
  ghost predicate TreeShaped(g: Graph, up: nat -> nat) {
    up(ROOT_INODE) == ROOT_INODE && forall m :: TreeAt(g, up, m)
  }

  predicate TreeAt(g: Graph, up: nat -> nat, m: nat) {
    g.IsDir(m) && g.DirectorySane(m) ==> ChildrenOf(up, m, g.Records(m))
  }

  predicate ChildrenOf(up: nat -> nat, m: nat, records: seq<Record>) {
    forall i ::
      0 <= i < |records| && records[i].fileType == DIRECTORY_TYPE && records[i].inode != m && records[i].inode != up(m)
      ==> OnlyChild(up, m, records, i)
  }

  predicate OnlyChild(up: nat -> nat, m: nat, records: seq<Record>, i: nat)
    requires i < |records|
  {
    && up(records[i].inode) == m
    && forall j ::
         0 <= j < |records| && records[j].fileType == DIRECTORY_TYPE && records[j].inode == records[i].inode ==> j == i
  }

  predicate SameIfAlike(c: Dir, d: Dir) {
    c.inodeNo == d.inodeNo ==> c == d
  }

  /** No two cached directories stand for the same one, and each hangs below its parent on the disk, which
      has been loaded. */
  ghost predicate OneEach(up: nat -> nat, root: Dir, dirs: set<Dir>, loaded: set<Dir>) {
    && (forall c, d {:trigger SameIfAlike(c, d)} :: c in dirs && d in dirs ==> SameIfAlike(c, d))
    && (forall d :: d in dirs ==> d.parent in dirs && d.parent.inodeNo == up(d.inodeNo))
    && (forall d :: d in dirs && d != root ==> d.parent in loaded)
  }

  predicate LeadsTo(entries: seq<Entry>, d: Dir) {
    exists i :: 0 <= i < |entries| && entries[i].directory == d
  }

  lemma LeadsToGrows(entries: seq<Entry>, more: seq<Entry>, d: Dir)
    requires LeadsTo(entries, d) && |entries| <= |more| && entries == more[..|entries|]
    ensures LeadsTo(more, d)
  {
    var i :| 0 <= i < |entries| && entries[i].directory == d;
    assert more[i] == entries[i];
  }

  /** What a load did to the cache. */
  ghost predicate LoadedInto(g: Graph, dirs: set<Dir>, dirs': set<Dir>, dir: Dir, entries: seq<Entry>)
    requires g.DirectorySane(dir.inodeNo)
  {
    var into :=
      && dir in dirs && dirs <= dirs'
      && MirrorAll(g, dirs', dir, entries, g.Records(dir.inodeNo))
      && (forall d :: d in dirs' - dirs ==> d.parent == dir && LeadsTo(entries, d));
    into
  }

  /** The record that a new directory was made from names a child of the loaded directory, and no other
      record does. */
  lemma NewChildRecord(g: Graph, up: nat -> nat, root: Dir, dirs: set<Dir>, loaded: set<Dir>, dirs': set<Dir>,
                       dir: Dir, entries: seq<Entry>, d: Dir) returns (i: nat)
    requires TreeShaped(g, up) && g.IsDir(dir.inodeNo) && g.DirectorySane(dir.inodeNo)
    requires OneEach(up, root, dirs, loaded) && LoadedInto(g, dirs, dirs', dir, entries)
    requires d in dirs' - dirs
    ensures i < |entries| == |g.Records(dir.inodeNo)| && entries[i].directory == d
    ensures g.Records(dir.inodeNo)[i].inode == d.inodeNo && g.Records(dir.inodeNo)[i].fileType == DIRECTORY_TYPE
    ensures d.inodeNo != dir.inodeNo && OnlyChild(up, dir.inodeNo, g.Records(dir.inodeNo), i)
  {
    assert LeadsTo(entries, d);
    i :| 0 <= i < |entries| && entries[i].directory == d;
    assert Mirrors(g, dirs', dir, entries[i], g.Records(dir.inodeNo)[i]);
    assert TreeAt(g, up, dir.inodeNo);
  }

  lemma NewChildrenDiffer(g: Graph, up: nat -> nat, root: Dir, dirs: set<Dir>, loaded: set<Dir>, dirs': set<Dir>,
                          dir: Dir, entries: seq<Entry>, c: Dir, d: Dir)
    requires TreeShaped(g, up) && g.IsDir(dir.inodeNo) && g.DirectorySane(dir.inodeNo)
    requires OneEach(up, root, dirs, loaded) && LoadedInto(g, dirs, dirs', dir, entries)
    requires root in dirs && root.inodeNo == ROOT_INODE && dir !in loaded
    requires d in dirs' - dirs && c in dirs' && c.inodeNo == d.inodeNo
    ensures c == d
  {
    var i := NewChildRecord(g, up, root, dirs, loaded, dirs', dir, entries, d);
    assert c.parent in dirs ==> SameIfAlike(c.parent, dir);
    if c !in dirs {
      var j := NewChildRecord(g, up, root, dirs, loaded, dirs', dir, entries, c);
    }
  }

  /** Loading a directory keeps the cache a tree of its own: one object for each directory. */
  lemma LoadKeepsOneEach(g: Graph, up: nat -> nat, root: Dir, dirs: set<Dir>, loaded: set<Dir>, dirs': set<Dir>,
                         dir: Dir, entries: seq<Entry>)
    requires TreeShaped(g, up) && g.IsDir(dir.inodeNo) && g.DirectorySane(dir.inodeNo)
    requires OneEach(up, root, dirs, loaded) && LoadedInto(g, dirs, dirs', dir, entries)
    requires root in dirs && root.inodeNo == ROOT_INODE && dir !in loaded
    ensures OneEach(up, root, dirs', loaded + {dir})
  {
    forall c, d | c in dirs' && d in dirs'
      ensures SameIfAlike(c, d)
    {
      assert c in dirs && d in dirs ==> SameIfAlike(c, d);
      if c.inodeNo != d.inodeNo {
      } else if d !in dirs {
        NewChildrenDiffer(g, up, root, dirs, loaded, dirs', dir, entries, c, d);
      } else if c !in dirs {
        NewChildrenDiffer(g, up, root, dirs, loaded, dirs', dir, entries, d, c);
      }
    }
    forall d | d in dirs' - dirs
      ensures d.parent == dir && dir.inodeNo == up(d.inodeNo)
    {
      var i := NewChildRecord(g, up, root, dirs, loaded, dirs', dir, entries, d);
    }
  }

  /** The first entry of a name mirrors the first record of that name. */
  lemma FirstMirrored(g: Graph, dirs: set<Dir>, d: Dir, entries: seq<Entry>, records: seq<Record>, name: Bytes, i: nat)
    requires MirrorAll(g, dirs, d, entries, records) && i <= |entries|
    requires forall j :: 0 <= j < i ==> entries[j].name != name
    requires i < |entries| ==> entries[i].name == name
    ensures i == Find(records, name)
  {
    var k := Find(records, name);
    assert i < |records| ==> Mirrors(g, dirs, d, entries[i], records[i]);
    assert k < |records| ==> Mirrors(g, dirs, d, entries[k], records[k]);
  }

  lemma NextRecord(records: seq<Record>, n: nat, block: Bytes, i: nat)
    requires Readable(block, i) && i < |block| && n <= |records| && records[n..] == Parse(block, i)
    ensures n < |records| && RecordAt(block, i) == records[n] && records[n + 1..] == Parse(block, NextAt(block, i))
    ensures records[..n + 1] == records[..n] + [records[n]]
  {
    assert records[n..][0] == records[n] && records[n..][1..] == records[n + 1..];
  }

  class FileSystem {
    const volume: Volume
    ghost const graph: Graph
    ghost const up: nat -> nat
    var root: Dir?
    ghost var dirs: set<Dir>

    constructor (volume: Volume, ghost live: nat -> bool, ghost up: nat -> nat)
      requires volume.Usable()
      ensures this.volume == volume && Backs(volume, graph) && graph == volume.DirectoryGraph(live) && this.up == up
      ensures root == null && dirs == {}
    {
      this.volume := volume;
      graph := volume.DirectoryGraph(live);
      this.up := up;
      root := null;
      dirs := {};
      new;
      VolumeBacksItsGraph(volume, live);
    }

    ghost predicate DirOk(d: Dir)
      reads this, d
    {
      Agrees(graph, this, dirs, d, d.entries)
    }

    /** Whatever has been loaded so far agrees with the disk, and everything belongs to this mount. (Here and
        below a conjunction has a name so that the verifier proves it as a whole where it is a goal.) */
    ghost predicate Valid()
      reads this, dirs
    {
      var valid :=
        && Backs(volume, graph) && graph.Sane()
        && root != null && root in dirs && root.inodeNo == ROOT_INODE && root.parent == root
        && (forall d :: d in dirs ==> DirOk(d));
      valid
    }

    /** On a volume whose directories form a tree there is one object for each cached directory. */
    ghost predicate IsTree()
      reads this, dirs
    {
      var tree := root != null && (TreeShaped(graph, up) ==> OneEach(up, root, dirs, Loaded()));
      tree
    }

    /** The directories that have been loaded. */
    ghost function Loaded(): (s: set<Dir>)
      reads this, dirs
      ensures s <= dirs
    {
      set d | d in dirs && d.entries != []
    }

    /** d has just been made as a child of dir. */
    ghost predicate NewChild(d: Dir, dir: Dir)
      reads d
    {
      d.parent == dir && d.fsInfo == this && d.entries == [] && graph.IsDir(d.inodeNo)
    }

    /** What the loop of ext2_get_direntries makes of one record. */
    method MakeEntry(dir: Dir, r: Record) returns (e: Entry)
      requires Backs(volume, graph) && graph.RecordSane(r)
      requires dir in dirs && dir.parent in dirs && dir.fsInfo == this
      modifies this`dirs
      ensures Mirrors(graph, dirs, dir, e, r)
      ensures old(dirs) <= dirs && fresh(dirs - old(dirs))
      ensures forall d :: d in dirs - old(dirs) ==> d == e.directory && NewChild(d, dir)
    {
      var directory: Dir? := null;
      if r.fileType == DIRECTORY_TYPE {
        if r.inode == dir.inodeNo {
          directory := dir;
        } else if r.inode == dir.parent.inodeNo {
          directory := dir.parent;
        } else {
          var child := new Dir.Child(r.inode, dir);
          dirs := dirs + {child};
          directory := child;
        }
      }
      var kind := FetchKind(volume, graph, r.inode);
      e := Entry(r.name, r.inode, kind, directory);
    }

    /** d has just been made as a child of dir for one of the entries. */
    ghost predicate NewFor(d: Dir, dir: Dir, entries: seq<Entry>)
      reads d
    {
      NewChild(d, dir) && LeadsTo(entries, d)
    }

    method AddEntry(dir: Dir, r: Record, entries: seq<Entry>, ghost done: seq<Record>) returns (more: seq<Entry>)
      requires Backs(volume, graph) && graph.RecordSane(r)
      requires dir in dirs && dir.parent in dirs && dir.fsInfo == this
      requires MirrorAll(graph, dirs, dir, entries, done)
      modifies this`dirs
      ensures |more| == |entries| + 1 && entries == more[..|entries|] && MirrorAll(graph, dirs, dir, more, done + [r])
      ensures old(dirs) <= dirs && fresh(dirs - old(dirs))
      ensures forall d :: d in dirs - old(dirs) ==> NewFor(d, dir, more)
    {
      var e := MakeEntry(dir, r);
      more := entries + [e];
      assert more[|entries|] == e;
    }

    lemma NewForGrows(made: set<Dir>, dir: Dir, entries: seq<Entry>, more: seq<Entry>)
      requires |entries| <= |more| && entries == more[..|entries|]
      requires forall d :: d in made ==> NewFor(d, dir, entries)
      ensures forall d :: d in made ==> NewFor(d, dir, more)
    {
      forall d | d in made
        ensures NewFor(d, dir, more)
      {
        assert NewFor(d, dir, entries);
        LeadsToGrows(entries, more, d);
      }
    }

    /** The loop over a directory block. */
    method LoadEntries(dir: Dir, block: Bytes) returns (entries: seq<Entry>)
      requires Backs(volume, graph) && dir in dirs && dir.parent in dirs && dir.fsInfo == this
      requires Readable(block, 0)
      requires forall i :: 0 <= i < |Parse(block, 0)| ==> graph.RecordSane(Parse(block, 0)[i])
      modifies this`dirs
      ensures MirrorAll(graph, dirs, dir, entries, Parse(block, 0))
      ensures old(dirs) <= dirs && fresh(dirs - old(dirs))
      ensures forall d :: d in dirs - old(dirs) ==> NewFor(d, dir, entries)
    {
      var i := 0;
      entries := [];
      ghost var records := Parse(block, 0);
      while i < |block|
        invariant Readable(block, i)
        invariant |entries| <= |records| && records[|entries|..] == Parse(block, i)
        invariant MirrorAll(graph, dirs, dir, entries, records[..|entries|])
        invariant old(dirs) <= dirs && fresh(dirs - old(dirs))
        invariant forall d :: d in dirs - old(dirs) ==> NewFor(d, dir, entries)
        decreases |block| - i
      {
        var record := RecordAt(block, i);
        ghost var before, had := dirs, entries;
        NextRecord(records, |entries|, block, i);
        entries := AddEntry(dir, record, entries, records[..|entries|]);
        NewForGrows(before - old(dirs), dir, had, entries);
        i := NextAt(block, i);
      }
      assert records[..|entries|] == records;
    }

    /** Loading a readable block into an unloaded directory. */
    method Fill(dir: Dir, block: Bytes)
      requires Valid() && dir in dirs && dir.entries == [] && graph.block(dir.inodeNo) == Ok(block)
      modifies this`dirs, dir
      ensures Valid() && fresh(dirs - old(dirs)) && dir.entries != []
      ensures graph.IsDir(dir.inodeNo) && graph.DirectorySane(dir.inodeNo)
      ensures LoadedInto(graph, old(dirs), dirs, dir, dir.entries)
      ensures forall d :: d in dirs - old(dirs) ==> d.entries == []
    {
      assert DirOk(dir);
      ghost var before := dirs;
      var entries := LoadEntries(dir, block);
      forall d | d in before
        ensures DirOk(d)
      {
        assert old(DirOk(d));
        AgreementGrows(graph, this, before, dirs, d, d.entries);
      }
      forall d | d in dirs - before
        ensures DirOk(d) && d.parent == dir && LeadsTo(entries, d)
      {
        assert NewFor(d, dir, entries) && graph.SaneAt(d.inodeNo);
      }
      label Loaded:
      dir.entries := entries;
      forall d | d in dirs
        ensures DirOk(d)
      {
        assert d != dir ==> old@Loaded(DirOk(d));
      }
    }

    /** ext2_get_direntries: loads a directory that has not been loaded, and leaves a loaded one alone. A
        block that cannot be read is reported and loads nothing. */
    method GetDirentries(dir: Dir) returns (r: Result<nat>)
      requires Valid() && IsTree() && dir in dirs
      modifies this`dirs, dir
      ensures Valid() && IsTree() && old(dirs) <= dirs && fresh(dirs - old(dirs))
      ensures if old(dir.entries) != [] then
                r == Ok(0) && dir.entries == old(dir.entries) && dirs == old(dirs)
              else if graph.block(dir.inodeNo).Err? then
                r == Err(graph.block(dir.inodeNo).error) && dir.entries == [] && dirs == old(dirs)
              else
                r == Ok(0) && dir.entries != []
    {
      if dir.entries != [] {
        return Ok(0);
      }
      assert DirOk(dir);
      var read := FetchBlock(volume, graph, dir.inodeNo);
      if read.Err? {
        return Err(read.error);
      }
      FillTree(dir, read.value);
      return Ok(0);
    }

    method FillTree(dir: Dir, block: Bytes)
      requires Valid() && IsTree() && dir in dirs && dir.entries == [] && graph.block(dir.inodeNo) == Ok(block)
      modifies this`dirs, dir
      ensures Valid() && IsTree() && old(dirs) <= dirs && fresh(dirs - old(dirs)) && dir.entries != []
    {
      ghost var before, loaded := dirs, Loaded();
      Fill(dir, block);
      assert dir !in loaded;
      assert Loaded() == loaded + {dir};
      if TreeShaped(graph, up) {
        LoadKeepsOneEach(graph, up, root, before, loaded, dirs, dir, dir.entries);
      }
    }

    /** The entry found is the expected node, and if it is a directory, it leads to a cached one. */
    ghost predicate Answers(r: Result<Entry>, expected: Result<Node>)
      reads this
    {
      var answers :=
        if r.Err? then expected == Err(r.error)
        else
          && expected == Ok(r.value.Node())
          && (r.value.kind == F_DIR ==> Leads(r.value));
      answers
    }

    /** The entry leads to a cached directory of its inode. */
    ghost predicate Leads(e: Entry)
      reads this
    {
      e.directory != null && e.directory in dirs && e.directory.inodeNo == e.inodeNo
    }

    /** The entry gives what resolution needs of the record. */
    ghost predicate Serves(e: Entry, r: Record)
      reads this
    {
      && e.Node() == PathSpec.Node(r.name, r.inode, graph.kind(r.inode))
      && (e.kind == F_DIR <==> graph.IsDir(r.inode))
      && (e.kind == F_DIR ==> e.directory != null && e.directory in dirs && e.directory.inodeNo == r.inode)
    }

    lemma MirrorServes(dir: Dir, e: Entry, r: Record)
      requires Mirrors(graph, dirs, dir, e, r)
      ensures Serves(e, r)
    {
    }

    /** The index of the first entry with the given name, or the number of entries. */
    method FindEntry(dir: Dir, name: Bytes) returns (i: nat)
      requires Valid() && dir in dirs && dir.entries != []
      ensures i <= |dir.entries| && graph.Sane() && graph.IsDir(dir.inodeNo)
      ensures match Lookup(graph, dir.inodeNo, name)
              case Err(_) => i == |dir.entries|
              case Ok(record) => i < |dir.entries| && Serves(dir.entries[i], record)
    {
      assert DirOk(dir);
      ghost var records := graph.Records(dir.inodeNo);
      i := 0;
      while i < |dir.entries| && dir.entries[i].name != name
        invariant i <= |dir.entries|
        invariant forall j :: 0 <= j < i ==> dir.entries[j].name != name
      {
        i := i + 1;
      }
      FirstMirrored(graph, dirs, dir, dir.entries, records, name, i);
      LookupAt(graph, dir.inodeNo, name, i);
      if i < |dir.entries| {
        MirrorServes(dir, dir.entries[i], records[i]);
      }
    }

    /** namei_recursive. For whatever part of the tree is cached, a loaded directory gives the answer that
        resolution over the disk gives; one that has not been loaded knows no entry. Loading on the way
        keeps the cache in agreement with the disk. */
    method NameiRecursive(buf: Bytes, pos: nat, dir: Dir) returns (r: Result<Entry>)
      requires Valid() && IsTree() && dir in dirs
      requires CString.Terminated(buf, pos) && (pos > 0 || CString.At(buf, pos) != [])
      requires ComponentsFit(CString.At(buf, pos))
      modifies this`dirs, dirs
      ensures Valid() && IsTree() && old(dirs) <= dirs && fresh(dirs - old(dirs))
      ensures if old(dir.entries) == [] then r == Err(ENOENT) && dir.entries == []
              else Answers(r, Expected(graph, dir.inodeNo, CString.At(buf, pos), pos > 0 && buf[pos - 1] == SLASH))
      decreases |CString.At(buf, pos)|, 2
    {
      var name, rem := CString.NextName(buf, pos);
      r := LookAt(buf, pos, dir, name, rem);
    }

    /** The rest of namei_recursive, after the component has been copied out. */
    method LookAt(buf: Bytes, pos: nat, dir: Dir, name: Bytes, rem: nat) returns (r: Result<Entry>)
      requires Valid() && IsTree() && dir in dirs
      requires CString.Terminated(buf, pos) && CString.GoesOn(buf, pos, rem) && ComponentsFit(CString.At(buf, pos))
      requires name == Effective(CString.At(buf, pos)[..ComponentLength(CString.At(buf, pos))])
      modifies this`dirs, dirs
      ensures Valid() && IsTree() && old(dirs) <= dirs && fresh(dirs - old(dirs))
      ensures if old(dir.entries) == [] then r == Err(ENOENT) && dir.entries == []
              else Answers(r, Expected(graph, dir.inodeNo, CString.At(buf, pos), pos > 0 && buf[pos - 1] == SLASH))
      decreases |CString.At(buf, pos)|, 1
    {
      if dir.entries == [] {
        return Err(ENOENT);
      }
      var i, record := FindFirst(dir, name, CString.At(buf, pos), pos > 0 && buf[pos - 1] == SLASH);
      if i == |dir.entries| {
        return Err(ENOENT);
      }
      r := FollowEntry(buf, pos, rem, dir.entries[i], record);
    }

    /** The search for the first component, and what is left to answer once it is found. */
    method FindFirst(dir: Dir, name: Bytes, ghost path: Bytes, ghost afterSlash: bool)
      returns (i: nat, ghost record: Record)
      requires Valid() && IsTree() && dir in dirs && dir.entries != []
      requires name == Effective(path[..ComponentLength(path)])
      ensures Valid() && IsTree()
      ensures i <= |dir.entries| && graph.Sane() && graph.IsDir(dir.inodeNo)
      ensures i < |dir.entries| ==> graph.RecordSane(record) && Serves(dir.entries[i], record)
      ensures i < |dir.entries| ==>
                Expected(graph, dir.inodeNo, path, afterSlash) == AfterLookup(graph, record, path, afterSlash)
      ensures i == |dir.entries| ==> Answers(Err(ENOENT), Expected(graph, dir.inodeNo, path, afterSlash))
    {
      i := FindEntry(dir, name);
      ExpectedStep(graph, dir.inodeNo, path, afterSlash);
      record := Record(0, 0, 0, []);
      if i < |dir.entries| {
        record := Lookup(graph, dir.inodeNo, name).value;
      }
    }

    lemma LastAnswers(entry: Entry, record: Record, path: Bytes, afterSlash: bool)
      requires graph.Sane() && graph.RecordSane(record) && Serves(entry, record) && AtLast(path)
      ensures Answers(if SlashAtEnd(path, afterSlash) && entry.kind != F_DIR then Err(ENOTDIR) else Ok(entry),
                      AfterLookup(graph, record, path, afterSlash))
    {
    }

    /** The body of namei_recursive's loop for the entry whose name matched. */
    method FollowEntry(buf: Bytes, pos: nat, rem: nat, entry: Entry, ghost record: Record) returns (r: Result<Entry>)
      requires Valid() && IsTree() && graph.RecordSane(record) && Serves(entry, record)
      requires CString.Terminated(buf, pos) && CString.GoesOn(buf, pos, rem) && ComponentsFit(CString.At(buf, pos))
      modifies this`dirs, dirs
      ensures Valid() && IsTree() && old(dirs) <= dirs && fresh(dirs - old(dirs))
      ensures graph.Sane()
      ensures Answers(r, AfterLookup(graph, record, CString.At(buf, pos), pos > 0 && buf[pos - 1] == SLASH))
      decreases |CString.At(buf, pos)|, 0
    {
      if buf[rem] == 0 {
        LastAnswers(entry, record, CString.At(buf, pos), pos > 0 && buf[pos - 1] == SLASH);
        if buf[rem - 1] == SLASH && entry.kind != F_DIR {
          return Err(ENOTDIR);
        }
        return Ok(entry);
      }
      if entry.kind != F_DIR {
        return Err(ENOENT);
      }
      FirstFits(CString.At(buf, pos));
      r := Descend(buf, rem, entry.directory);
    }

    /** The end of namei_recursive: load the next directory if it has not been, and go on there. */
    method Descend(buf: Bytes, rem: nat, directory: Dir) returns (r: Result<Entry>)
      requires Valid() && IsTree() && directory in dirs && rem > 0
      requires CString.Terminated(buf, rem) && CString.At(buf, rem) != [] && ComponentsFit(CString.At(buf, rem))
      modifies this`dirs, dirs
      ensures Valid() && IsTree() && old(dirs) <= dirs && fresh(dirs - old(dirs))
      ensures graph.Sane() && graph.IsDir(directory.inodeNo)
      ensures Answers(r, Resolve(graph, directory.inodeNo, CString.At(buf, rem)))
      decreases |CString.At(buf, rem)|, 3
    {
      LoadOnDemand(directory);
      if directory.entries == [] {
        UnreadableFindsNothing(graph, directory.inodeNo, CString.At(buf, rem));
      }
      r := NameiRecursive(buf, rem, directory);
    }

    method LoadOnDemand(directory: Dir)
      requires Valid() && IsTree() && directory in dirs
      modifies this`dirs, directory
      ensures Valid() && IsTree() && old(dirs) <= dirs && fresh(dirs - old(dirs))
      ensures graph.Sane() && graph.IsDir(directory.inodeNo)
      ensures directory.entries == [] ==> graph.block(directory.inodeNo).Err?
    {
      assert DirOk(directory);
      if directory.entries == [] {
        var _ := GetDirentries(directory);
      }
    }

    /** The end of ext2_mount: the root directory becomes the mount point and is loaded. */
    method Mount() returns (r: Result<nat>)
      requires Backs(volume, graph) && graph.Sane() && root == null
      modifies this
      ensures Valid() && IsTree() && fresh(dirs) && root != null
      ensures if graph.block(ROOT_INODE).Err? then r == Err(graph.block(ROOT_INODE).error) && root.entries == []
              else r == Ok(0) && root.entries != []
    {
      MakeRoot();
      r := GetDirentries(root);
    }

    method MakeRoot()
      requires Backs(volume, graph) && graph.Sane()
      modifies this
      ensures Valid() && IsTree() && fresh(dirs) && root != null && root in dirs && root.entries == []
      ensures root.inodeNo == ROOT_INODE
    {
      root := new Dir.Root(this);
      dirs := {root};
      assert graph.SaneAt(ROOT_INODE);
      assert TreeShaped(graph, up) ==> OneEach(up, root, dirs, Loaded());
    }

    /** do_mount for this volume: set up the root, find the mount point by its path, and mount on it. The
        root knows no entries yet, so the path is found only by namei's shortcut: for "/" that depends on
        the byte after the terminator. */
    method DoMount(buf: Bytes) returns (r: Result<nat>)
      requires Backs(volume, graph) && graph.Sane() && root == null
      requires CString.Terminated(buf, 0) && CString.At(buf, 0) != []
      requires ComponentsFit(CString.At(buf, 0))
      requires buf[0] == SLASH ==> |buf| > 2 && ComponentsFit(CString.At(buf, 1))
      modifies this
      ensures Valid() && IsTree() && fresh(dirs) && root != null
      ensures if buf[0] != SLASH || buf[2] != 0 then r == Err(ENOENT) && root.entries == []
              else if graph.block(ROOT_INODE).Err? then
                r == Err(graph.block(ROOT_INODE).error) && root.entries == []
              else r == Ok(0) && root.entries != []
    {
      MakeRoot();
      var found := Namei(buf);
      if found.Err? {
        return Err(found.error);
      }
      r := GetDirentries(found.value.directory);
    }

    /** namei. The test for an absolute path of "/" alone looks one byte too far: it reads the byte after
        the one that follows the slash, and where that is zero it answers with the root, whatever the one
        character between may be. Every other path gets the answer of resolution over the disk. */
    method Namei(buf: Bytes) returns (r: Result<Entry>)
      requires Valid() && IsTree()
      requires CString.Terminated(buf, 0) && CString.At(buf, 0) != []
      requires ComponentsFit(CString.At(buf, 0))
      requires buf[0] == SLASH ==> |buf| > 2 && ComponentsFit(CString.At(buf, 1))
      modifies this`dirs, dirs
      ensures Valid() && IsTree() && old(dirs) <= dirs && fresh(dirs - old(dirs))
      ensures if buf[0] == SLASH && buf[2] == 0 then r == Ok(Entry([], ROOT_INODE, F_DIR, root))
              else if old(root.entries) == [] then r == Err(ENOENT) && root.entries == []
              else if buf[0] == SLASH then Answers(r, Expected(graph, ROOT_INODE, CString.At(buf, 1), true))
              else Answers(r, Resolve(graph, ROOT_INODE, CString.At(buf, 0)))
    {
      var pos := 0;
      if buf[0] == SLASH {
        pos := 1;
        if buf[pos + 1] == 0 {
          return Ok(Entry([], root.inodeNo, F_DIR, root));
        }
      }
      r := NameiRecursive(buf, pos, root);
    }
  }

  /** Where namei takes its shortcut for absolute paths, the root it answers with is the node that
      resolution leads to exactly when the byte after the slash is a terminator, a slash or a dot. */
  lemma ShortcutIsRightIff(g: Graph, buf: Bytes)
    requires g.Sane() && SelfEntry(g, ROOT_INODE) && RootHasNoAlias(g)
    requires |buf| > 2 && buf[0] == SLASH && buf[2] == 0
    ensures CString.Terminated(buf, 1)
    ensures var r := Expected(g, ROOT_INODE, CString.At(buf, 1), true);
            (r.Ok? && r.value.inode == ROOT_INODE) <==> buf[1] == 0 || buf[1] == SLASH || buf[1] == DOT[0]
  {
    CString.EndUnique(buf, 1, if buf[1] == 0 then 1 else 2);
    var rest := CString.At(buf, 1);
    assert buf[1] != 0 ==> rest == [buf[1]];
    ShortPathIsRootIff(g, rest);
  }

  /** For "/a" on an empty volume namei takes the shortcut, and there is no such node. */
  lemma ShortcutGoesWrong()
    ensures EmptyVolume().Sane() && SelfEntry(EmptyVolume(), ROOT_INODE) && RootHasNoAlias(EmptyVolume())
    ensures var buf := [SLASH, 0x61, 0];
            && EmptyVolume().Sane() && EmptyVolume().IsDir(ROOT_INODE) && CString.Terminated(buf, 1)
            && buf[0] == SLASH && buf[2] == 0
            && Expected(EmptyVolume(), ROOT_INODE, CString.At(buf, 1), true) == Err(ENOENT)
  {
    var buf := [SLASH, 0x61, 0];
    CString.EndUnique(buf, 1, 2);
    assert CString.At(buf, 1) == [0x61];
    EmptyVolumeEntries();
    NoSuchName();
  }

  /** Every entry of a loaded directory that is a directory leads to a cached one of the same mount: the
      entry for the directory's own inode to the object itself, the one for its parent's inode to the
      parent's object, and every other to a child of its own. */
  lemma LeadsByInode(fs: FileSystem, d: Dir, i: nat)
    requires fs.Valid() && d in fs.dirs && i < |d.entries| && d.entries[i].kind == F_DIR
    ensures var e := d.entries[i];
            && e.directory != null && e.directory in fs.dirs && e.directory.fsInfo == fs == d.fsInfo
            && e.directory.inodeNo == e.inodeNo
            && (e.inodeNo == d.inodeNo ==> e.directory == d)
            && (e.inodeNo == d.parent.inodeNo && e.inodeNo != d.inodeNo ==> e.directory == d.parent)
            && (e.inodeNo != d.inodeNo && e.inodeNo != d.parent.inodeNo ==> e.directory.parent == d)
  {
    assert fs.DirOk(d);
    assert Mirrors(fs.graph, fs.dirs, d, d.entries[i], fs.graph.Records(d.inodeNo)[i]);
    assert fs.DirOk(d.entries[i].directory);
  }

  /** The first record named ".." of directory n leads to its parent. */
  ghost predicate ParentEntry(g: Graph, up: nat -> nat, n: nat)
    requires g.Sane() && g.IsDir(n)
  {
    Lookup(g, n, DOT_DOT).Ok? && Lookup(g, n, DOT_DOT).value.inode == up(n)
  }

  /** Entry i is the first of that name, the one namei_recursive finds. */
  predicate FirstNamed(entries: seq<Entry>, i: nat, name: Bytes) {
    i < |entries| && entries[i].name == name && forall j :: 0 <= j < i ==> entries[j].name != name
  }

  /** The first entry of a name is what the record that the name leads to on the disk has become. */
  lemma NamedEntry(fs: FileSystem, d: Dir, i: nat, name: Bytes)
    requires fs.Valid() && d in fs.dirs && FirstNamed(d.entries, i, name)
    ensures fs.graph.Sane() && fs.graph.IsDir(d.inodeNo)
    ensures Lookup(fs.graph, d.inodeNo, name).Ok?
    ensures d.entries[i].inodeNo == Lookup(fs.graph, d.inodeNo, name).value.inode
    ensures d.entries[i].kind == fs.graph.kind(d.entries[i].inodeNo)
  {
    assert fs.DirOk(d);
    FirstMirrored(fs.graph, fs.dirs, d, d.entries, fs.graph.Records(d.inodeNo), name, i);
    LookupAt(fs.graph, d.inodeNo, name, i);
    assert Mirrors(fs.graph, fs.dirs, d, d.entries[i], fs.graph.Records(d.inodeNo)[i]);
  }

  /** "." leads to the directory itself, where its record on the disk does. */
  lemma DotLeadsHome(fs: FileSystem, d: Dir, i: nat)
    requires fs.Valid() && d in fs.dirs && FirstNamed(d.entries, i, DOT)
    requires fs.graph.IsDir(d.inodeNo) && SelfEntry(fs.graph, d.inodeNo)
    ensures d.entries[i].directory == d
  {
    NamedEntry(fs, d, i, DOT);
    LeadsByInode(fs, d, i);
  }

  /** ".." leads to the parent's object, where its record on the disk names the parent in the tree. */
  lemma DotDotLeadsUp(fs: FileSystem, d: Dir, i: nat)
    requires fs.Valid() && fs.IsTree() && TreeShaped(fs.graph, fs.up)
    requires d in fs.dirs && FirstNamed(d.entries, i, DOT_DOT)
    requires fs.graph.IsDir(d.inodeNo) && ParentEntry(fs.graph, fs.up, d.inodeNo)
    ensures d.entries[i].directory == d.parent && d.parent.inodeNo == fs.up(d.inodeNo)
  {
    NamedEntry(fs, d, i, DOT_DOT);
    assert fs.DirOk(d) && fs.DirOk(d.parent);
    LeadsByInode(fs, d, i);
    assert SameIfAlike(d, d.parent);
  }
}
