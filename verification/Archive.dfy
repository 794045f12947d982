/** Archiving a directory tree and extracting it again (CompressFS and Uncompress in
    tools/tuf/pkg/repo/repo.go). Tar and gzip carry the list of entries unchanged. */
module Archive {
  import opened Wrappers
  import opened Strings
  import opened Paths

  // ----------------------------------------------------------------------- trees

  datatype Tree = File(content: Bytes) | Dir(children: seq<Child>)

  datatype Child = Child(name: string, tree: Tree)

  /** What a file system allows as a name. */
  predicate NameOk(name: string) {
    Ordinary(name) && '/' !in name
  }

  /** Names are allowed ones and siblings have distinct names, all the way down. */
  predicate TreeOk(t: Tree)
    decreases t
  {
    t.Dir? ==> ChildrenOk(t.children)
  }

  predicate ChildrenOk(cs: seq<Child>)
    decreases cs
  {
    cs != [] ==>
      && NameOk(cs[0].name) && TreeOk(cs[0].tree)
      && (forall i | 1 <= i < |cs| :: cs[i].name != cs[0].name)
      && ChildrenOk(cs[1..])
  }

  // ------------------------------------------------------------------- compressing

  datatype Kind = Directory | Regular | Other

  datatype Entry = Entry(name: string, kind: Kind, content: Bytes)

  function EntryOf(path: Path, t: Tree): Entry
    requires path != []
  {
    match t
    case File(content) => Entry(JoinSlash(path), Regular, content)
    case Dir(_) => Entry(JoinSlash(path), Directory, "")
  }

  /** The walk: a directory before its children, and a skipped one not at all. */
  function Walk(path: Path, t: Tree, skip: set<string>): seq<Entry>
    requires path != []
    decreases t
  {
    if t.Dir? && path[|path| - 1] in skip then []
    else [EntryOf(path, t)] + if t.Dir? then WalkChildren(path, t.children, skip) else []
  }

  function WalkChildren(path: Path, cs: seq<Child>, skip: set<string>): seq<Entry>
    requires path != []
    decreases cs
  {
    if cs == [] then []
    else Walk(path + [cs[0].name], cs[0].tree, skip) + WalkChildren(path, cs[1..], skip)
  }

  /** The stream that entries are written to. */
  class Writer {
    var entries: seq<Entry>

    constructor ()
      ensures entries == []
    {
      entries := [];
    }
  }

  method CompressFS(path: Path, t: Tree, skip: set<string>, w: Writer)
    requires path != []
    modifies w
    ensures w.entries == old(w.entries) + Walk(path, t, skip)
    decreases t
  {
    if t.Dir? && path[|path| - 1] in skip {
      return;
    }
    w.entries := w.entries + [EntryOf(path, t)];
    if t.Dir? {
      CompressChildren(path, t.children, skip, w);
    }
  }

  method CompressChildren(path: Path, cs: seq<Child>, skip: set<string>, w: Writer)
    requires path != []
    modifies w
    ensures w.entries == old(w.entries) + WalkChildren(path, cs, skip)
    decreases cs
  {
    hide Walk;
    if cs != [] {
      CompressFS(path + [cs[0].name], cs[0].tree, skip, w);
      CompressChildren(path, cs[1..], skip, w);
      assert old(w.entries) + Walk(path + [cs[0].name], cs[0].tree, skip) + WalkChildren(path, cs[1..], skip)
          == old(w.entries) + (Walk(path + [cs[0].name], cs[0].tree, skip) + WalkChildren(path, cs[1..], skip));
    }
  }

  // ------------------------------------------------------------------- file system

  datatype DiskNode = DiskDir | DiskFile(content: Bytes)

  type Disk = map<Path, DiskNode>

  predicate IsDir(d: Disk, p: Path) {
    p in d && d[p].DiskDir?
  }

  /** Everything on the disk is in a directory. */
  predicate DiskOk(d: Disk) {
    IsDir(d, []) && forall p | p in d && p != [] :: IsDir(d, p[..|p| - 1])
  }

  datatype ExtractError = InvalidName | Tainted | MkdirFailed | OpenFailed

  predicate Blocked(d: Disk, p: Path) {
    exists i :: 0 <= i <= |p| && p[..i] in d && d[p[..i]].DiskFile?
  }

  function Ancestors(p: Path): set<Path> {
    set i | 0 <= i <= |p| :: p[..i]
  }

  /** os.MkdirAll: fails when a file is in the way. */
  function MkdirAll(d: Disk, p: Path): Result<Disk, ExtractError> {
    if Blocked(d, p) then Err(MkdirFailed)
    else Ok(d + map q | q in Ancestors(p) :: DiskDir)
  }

  /** os.OpenFile with O_CREATE and O_TRUNC, then writing `content`: creates no parent. */
  function WriteFile(d: Disk, p: Path, content: Bytes): Result<Disk, ExtractError> {
    if p == [] || !IsDir(d, p[..|p| - 1]) || IsDir(d, p) then Err(OpenFailed)
    else Ok(d[p := DiskFile(content)])
  }

  /** Where the system finds a path from the working directory `cwd`. */
  function Locate(cwd: Path, s: string): Path {
    if Absolute(s) then Components(s) else Resolve(true, cwd, Components(s))
  }

  function ExtractEntry(d: Disk, cwd: Path, dst: string, e: Entry): Result<Disk, ExtractError> {
    if !ValidRelPath(e.name) then Err(InvalidName)
    else if !PrefixCheck(dst, e.name) then Err(Tainted)
    else
      var target := Locate(cwd, Joined(dst, e.name));
      match e.kind
      case Directory => if target in d then Ok(d) else MkdirAll(d, target)
      case Regular => WriteFile(d, target, e.content)
      case Other => Ok(d)
  }

  /** The disk when extraction ends, and the error that ended it early. */
  datatype Extracted = Extracted(disk: Disk, error: Option<ExtractError>)

  function Extract(d: Disk, cwd: Path, dst: string, es: seq<Entry>): Extracted
    decreases |es|
  {
    if es == [] then Extracted(d, None)
    else match ExtractEntry(d, cwd, dst, es[0])
      case Err(e) => Extracted(d, Some(e))
      case Ok(d') => Extract(d', cwd, dst, es[1..])
  }

  // ------------------------------------------------------------------- uncompressing

  const CHUNK := 1024

  /** The copy loop: full chunks until one comes up short. */
  method CopyContent(source: Bytes) returns (written: Bytes)
    ensures written == source
  {
    var remaining := source;
    written := "";
    var eof := false;
    while !eof
      invariant written + remaining == source
      invariant eof ==> remaining == ""
      decreases !eof, |remaining|
    {
      var n := if |remaining| < CHUNK then |remaining| else CHUNK;
      written := written + remaining[..n];
      remaining := remaining[n..];
      eof := n < CHUNK;
    }
  }

  /** The machine's file system, changed as entries are read. */
  class Machine {
    var disk: Disk

    constructor (d: Disk)
      ensures disk == d
    {
      disk := d;
    }

    method Uncompress(es: seq<Entry>, cwd: Path, dst: string) returns (error: Option<ExtractError>)
      modifies this
      ensures Extracted(disk, error) == Extract(old(disk), cwd, dst, es)
    {
      hide ValidRelPath, PrefixCheck, Locate, MkdirAll, Blocked;
      for i := 0 to |es|
        invariant Extract(disk, cwd, dst, es[i..]) == Extract(old(disk), cwd, dst, es)
      {
        var e := es[i];
        assert es[i..][1..] == es[i + 1..];
        if !ValidRelPath(e.name) {
          return Some(InvalidName);
        }
        var target := Locate(cwd, Joined(dst, e.name));
        if !PrefixCheck(dst, e.name) {
          return Some(Tainted);
        }
        match e.kind {
          case Directory =>
            if target !in disk {
              var made := MkdirAll(disk, target);
              if made.Err? {
                return Some(made.error);
              }
              disk := made.value;
            }
          case Regular =>
            var file := WriteFile(disk, target, "");
            if file.Err? {
              return Some(file.error);
            }
            ghost var before := disk;
            disk := file.value;
            var data := CopyContent(e.content);
            assert disk[target := DiskFile(data)] == before[target := DiskFile(data)];
            disk := disk[target := DiskFile(data)];
          case Other =>
        }
      }
      assert es[|es|..] == [];
      return None;
    }
  }
}
