/** Extracting what was archived reproduces the tree. */
module ArchiveRoundTrip {
  import opened Wrappers
  import opened Strings
  import opened Paths
  import opened Archive

  // --------------------------------------------------------------------- the tree

  /** The tree without the subtrees rooted at a directory with a skipped name. */
  function Prune(t: Tree, skip: set<string>): Tree
    decreases t
  {
    match t
    case File(_) => t
    case Dir(cs) => Dir(PruneChildren(cs, skip))
  }

  function PruneChildren(cs: seq<Child>, skip: set<string>): seq<Child>
    decreases cs
  {
    if cs == [] then []
    else if cs[0].tree.Dir? && cs[0].name in skip then PruneChildren(cs[1..], skip)
    else [Child(cs[0].name, Prune(cs[0].tree, skip))] + PruneChildren(cs[1..], skip)
  }

  function NodeOf(t: Tree): DiskNode {
    match t
    case File(content) => DiskFile(content)
    case Dir(_) => DiskDir
  }

  /** What the tree holds at a relative path. */
  function Lookup(t: Tree, rel: Path): Option<DiskNode>
    decreases t
  {
    if rel == [] then Some(NodeOf(t))
    else match t
      case File(_) => None
      case Dir(cs) => LookupIn(cs, rel)
  }

  function LookupIn(cs: seq<Child>, rel: Path): Option<DiskNode>
    requires rel != []
    decreases cs
  {
    if cs == [] then None
    else if cs[0].name == rel[0] then Lookup(cs[0].tree, rel[1..])
    else LookupIn(cs[1..], rel)
  }

  /** Every name is free of backslashes, and no directory that has children has a name
      ending in "..". */
  predicate Safe(name: string, t: Tree)
    decreases t
  {
    && !Contains(name, "\\")
    && (t.Dir? ==> (t.children != [] ==> !HasSuffix(name, "..")) && SafeChildren(t.children))
  }

  predicate SafeChildren(cs: seq<Child>)
    decreases cs
  {
    cs != [] ==> Safe(cs[0].name, cs[0].tree) && SafeChildren(cs[1..])
  }

  // ----------------------------------------------------------------------- pruning

  lemma {:induction false} WalkPruned(path: Path, t: Tree, skip: set<string>)
    requires path != [] && !(t.Dir? && path[|path| - 1] in skip)
    ensures Walk(path, t, skip) == Walk(path, Prune(t, skip), {})
    decreases t
  {
    if t.Dir? {
      WalkChildrenPruned(path, t.children, skip);
    }
  }

  lemma {:induction false} WalkChildrenPruned(path: Path, cs: seq<Child>, skip: set<string>)
    requires path != []
    ensures WalkChildren(path, cs, skip) == WalkChildren(path, PruneChildren(cs, skip), {})
    decreases cs
  {
    hide JoinSlash;
    if cs == [] {
    } else {
      var sub := path + [cs[0].name];
      WalkChildrenPruned(path, cs[1..], skip);
      if cs[0].tree.Dir? && cs[0].name in skip {
        assert Walk(sub, cs[0].tree, skip) == [];
      } else {
        WalkPruned(sub, cs[0].tree, skip);
        assert PruneChildren(cs, skip)[1..] == PruneChildren(cs[1..], skip);
      }
    }
  }

  lemma {:induction false} PrunedOk(t: Tree, skip: set<string>)
    requires TreeOk(t)
    ensures TreeOk(Prune(t, skip))
    decreases t
  {
    if t.Dir? {
      PrunedChildrenOk(t.children, skip);
    }
  }

  lemma {:induction false} PrunedChildrenOk(cs: seq<Child>, skip: set<string>)
    requires ChildrenOk(cs)
    ensures ChildrenOk(PruneChildren(cs, skip))
    ensures forall c | c in PruneChildren(cs, skip) :: exists d :: d in cs && d.name == c.name
    decreases cs
  {
    hide NameOk;
    if cs == [] {
    } else {
      PrunedChildrenOk(cs[1..], skip);
      PrunedOk(cs[0].tree, skip);
      var r := PruneChildren(cs, skip);
      assert cs[0] in cs && forall d | d in cs[1..] :: d in cs;
      if !(cs[0].tree.Dir? && cs[0].name in skip) {
        assert r[1..] == PruneChildren(cs[1..], skip);
        forall i | 1 <= i < |r|
          ensures r[i].name != r[0].name
        {
          assert r[i] in r[1..];
          var d :| d in cs[1..] && d.name == r[i].name;
          var j :| 0 <= j < |cs[1..]| && cs[1..][j] == d;
          assert cs[j + 1].name != cs[0].name;
        }
      }
    }
  }

  /** On the way down `rel` there is a directory whose name is skipped. */
  ghost predicate PassesSkipped(t: Tree, skip: set<string>, rel: Path) {
    exists n: nat :: 1 <= n <= |rel| && rel[n - 1] in skip && Lookup(t, rel[..n]) == Some(DiskDir)
  }

  ghost predicate ChildPassesSkipped(cs: seq<Child>, skip: set<string>, rel: Path) {
    exists n: nat :: 1 <= n <= |rel| && rel[n - 1] in skip && LookupIn(cs, rel[..n]) == Some(DiskDir)
  }

  /** What pruning leaves: everything that is not at or below a directory with a skipped
      name. A file with such a name stays. */
  lemma {:induction false} PrunedLookup(t: Tree, skip: set<string>, rel: Path)
    requires TreeOk(t)
    ensures Lookup(Prune(t, skip), rel) == if PassesSkipped(t, skip, rel) then None else Lookup(t, rel)
    decreases t
  {
    if rel == [] || t.File? {
    } else {
      PrunedChildLookup(t.children, skip, rel);
      assert forall n: nat | 1 <= n <= |rel| :: Lookup(t, rel[..n]) == LookupIn(t.children, rel[..n]);
    }
  }

  lemma {:induction false} NoSuchChild(cs: seq<Child>, rel: Path)
    requires rel != [] && forall c | c in cs :: c.name != rel[0]
    ensures LookupIn(cs, rel).None?
    decreases cs
  {
    if cs == [] {
    } else {
      NoSuchChild(cs[1..], rel);
    }
  }

  lemma {:induction false} PrunedChildLookup(cs: seq<Child>, skip: set<string>, rel: Path)
    requires ChildrenOk(cs) && rel != []
    ensures LookupIn(PruneChildren(cs, skip), rel)
         == if ChildPassesSkipped(cs, skip, rel) then None else LookupIn(cs, rel)
    decreases cs
  {
    hide NameOk;
    if cs == [] {
    } else if cs[0].name != rel[0] {
      PrunedChildLookup(cs[1..], skip, rel);
      assert forall n: nat | 1 <= n <= |rel| :: LookupIn(cs, rel[..n]) == LookupIn(cs[1..], rel[..n]);
      SkipsOther(cs, skip, rel);
    } else if cs[0].tree.Dir? && cs[0].name in skip {
      PrunedChildrenOk(cs[1..], skip);
      assert forall c | c in cs[1..] :: c.name != rel[0];
      NoSuchChild(PruneChildren(cs[1..], skip), rel);
      assert rel[..1][0] == rel[0] && rel[..1][1..] == [];
      assert LookupIn(cs, rel[..1]) == Some(DiskDir);
    } else {
      PrunedLookup(cs[0].tree, skip, rel[1..]);
      SkipsShift(cs, skip, rel);
    }
  }

  lemma SkipsOther(cs: seq<Child>, skip: set<string>, rel: Path)
    requires cs != [] && rel != [] && cs[0].name != rel[0]
    ensures LookupIn(PruneChildren(cs, skip), rel) == LookupIn(PruneChildren(cs[1..], skip), rel)
  {
    if !(cs[0].tree.Dir? && cs[0].name in skip) {
      assert PruneChildren(cs, skip)[1..] == PruneChildren(cs[1..], skip);
    }
  }

  lemma SkipsShift(cs: seq<Child>, skip: set<string>, rel: Path)
    requires cs != [] && rel != [] && cs[0].name == rel[0] && !(cs[0].tree.Dir? && cs[0].name in skip)
    ensures ChildPassesSkipped(cs, skip, rel) <==> PassesSkipped(cs[0].tree, skip, rel[1..])
  {
    forall n: nat | 1 <= n <= |rel|
      ensures LookupIn(cs, rel[..n]) == Lookup(cs[0].tree, rel[1..][..n - 1])
    {
      assert rel[..n][1..] == rel[1..][..n - 1];
    }
    if n: nat :| 1 <= n <= |rel| && rel[n - 1] in skip && LookupIn(cs, rel[..n]) == Some(DiskDir) {
      assert n > 1 ==> rel[1..][n - 2] == rel[n - 1];
    }
    if n: nat :| 1 <= n <= |rel[1..]| && rel[1..][n - 1] in skip
                 && Lookup(cs[0].tree, rel[1..][..n]) == Some(DiskDir) {
      assert LookupIn(cs, rel[..n + 1]) == Some(DiskDir);
    }
  }

  // ------------------------------------------------------------------ valid entries

  predicate NamesOk(path: Path) {
    forall i | 0 <= i < |path| :: NameOk(path[i])
  }

  ghost predicate AllValid(es: seq<Entry>) {
    forall e | e in es :: ValidRelPath(e.name)
  }

  /** The directories leading to an entry do not spoil its name. */
  predicate CleanFront(path: Path) {
    forall i | 0 <= i < |path| :: !Contains(path[i], "\\") && !HasSuffix(path[i], "..")
  }

  lemma {:induction false} BackslashInside(cs: seq<string>)
    requires cs != []
    ensures Contains(JoinSlash(cs), "\\") <==> exists i :: 0 <= i < |cs| && Contains(cs[i], "\\")
    decreases |cs|
  {
    hide Contains;
    if |cs| <= 1 {
    } else {
      BackslashInside(cs[1..]);
      BackslashHere(cs[0], JoinSlash(cs[1..]));
      assert forall i | 0 <= i < |cs| - 1 :: cs[1..][i] == cs[i + 1];
      if exists i :: 0 <= i < |cs| && Contains(cs[i], "\\") {
        var i :| 0 <= i < |cs| && Contains(cs[i], "\\");
        if i > 0 {
          assert Contains(cs[1..][i - 1], "\\");
        }
      }
    }
  }

  lemma BackslashHere(c: string, t: string)
    ensures Contains(c + ("/" + t), "\\") <==> Contains(c, "\\") || Contains(t, "\\")
  {
    hide Contains;
    BackslashIn(c);
    BackslashIn(t);
    BackslashIn(c + ("/" + t));
  }

  lemma {:induction false} JoinStart(cs: seq<string>)
    requires cs != [] && NamesOk(cs)
    ensures JoinSlash(cs) != "" && !("/" <= JoinSlash(cs))
  {
    assert NameOk(cs[0]);
    assert cs[0][0] in cs[0];
    assert JoinSlash(cs)[0] == cs[0][0];
  }

  /** When the name of an entry is accepted. */
  lemma ValidEntry(front: Path, name: string)
    requires NamesOk(front + [name])
    ensures CleanFront(front) ==> (ValidRelPath(JoinSlash(front + [name])) <==> !Contains(name, "\\"))
    ensures ValidRelPath(JoinSlash(front + [name])) ==> CleanFront(front)
  {
    var cs := front + [name];
    hide Contains, HasSuffix, JoinSlash;
    JoinStart(cs);
    BackslashInside(cs);
    assert SlashFree(cs) by {
      assert forall i | 0 <= i < |cs| :: NameOk(cs[i]);
    }
    DotsInside(cs);
    assert cs[|front|] == name;
    assert forall i | 0 <= i < |front| :: cs[i] == front[i];
  }

  lemma {:induction false} ValidIffSafe(front: Path, name: string, t: Tree)
    requires NamesOk(front + [name]) && TreeOk(t) && CleanFront(front)
    ensures AllValid(Walk(front + [name], t, {})) <==> Safe(name, t)
    decreases t
  {
    hide Contains, HasSuffix, JoinSlash, ValidRelPath, NameOk;
    var path := front + [name];
    ValidEntry(front, name);
    var e := EntryOf(path, t);
    var es := Walk(path, t, {});
    assert es[0] == e && e.name == JoinSlash(path);
    assert AllValid(es) ==> ValidRelPath(e.name);
    if t.Dir? && !Contains(name, "\\") {
      if t.children == [] {
        assert es == [e];
      } else {
        ValidIffSafeChildren(path, t.children);
        assert es == [e] + WalkChildren(path, t.children, {});
        assert AllValid(es) <==> AllValid(WalkChildren(path, t.children, {}));
      }
    }
  }

  lemma {:induction false} ValidIffSafeChildren(path: Path, cs: seq<Child>)
    requires path != [] && NamesOk(path) && ChildrenOk(cs) && cs != []
    requires CleanFront(path[..|path| - 1]) && !Contains(path[|path| - 1], "\\")
    ensures AllValid(WalkChildren(path, cs, {})) <==> !HasSuffix(path[|path| - 1], "..") && SafeChildren(cs)
    decreases cs
  {
    hide Contains, HasSuffix, JoinSlash, ValidRelPath, NameOk;
    var first := Walk(path + [cs[0].name], cs[0].tree, {});
    var rest := WalkChildren(path, cs[1..], {});
    assert AllValid(first + rest) <==> AllValid(first) && AllValid(rest);
    assert NameOk(cs[0].name) && NamesOk(path + [cs[0].name]);
    if HasSuffix(path[|path| - 1], "..") {
      ValidEntry(path, cs[0].name);
      var e := EntryOf(path + [cs[0].name], cs[0].tree);
      assert first[0] == e && e in first;
      assert !CleanFront(path);
    } else {
      assert CleanFront(path);
      ValidIffSafe(path, cs[0].name, cs[0].tree);
      if cs[1..] != [] {
        ValidIffSafeChildren(path, cs[1..]);
      }
    }
  }

  // ------------------------------------------------------------------- one entry

  lemma {:induction false} KeptAll(cs: seq<string>)
    requires forall i | 0 <= i < |cs| :: Ordinary(cs[i])
    ensures Kept(cs) == cs
    decreases |cs|
  {
    hide Ordinary;
    if cs == [] {
    } else {
      var last := |cs| - 1;
      var front := cs[..last];
      KeptAll(front);
      calc {
        Kept(cs);
        { assert Ordinary(cs[last]); }
        Kept(front) + [cs[last]];
        front + [cs[last]];
        cs;
      }
    }
  }

  /** The prefix check lets entries under `name` into `dst`: it does unless `dst` is the
      current directory, where it insists on a leading dot. */
  predicate Admits(dst: string, name: string) {
    Absolute(dst) || Components(dst) != [] || "." <= name
  }

  lemma TargetComponents(dst: string, path: Path)
    requires path != [] && NamesOk(path)
    ensures Absolute(Joined(dst, JoinSlash(path))) == Absolute(dst)
    ensures Components(Joined(dst, JoinSlash(path))) == Components(dst) + path
    ensures forall at :: Resolve(true, at, path) == at + path
  {
    hide Split, JoinSlash, Resolve, Joined;
    assert forall i | 0 <= i < |path| :: NameOk(path[i]);
    JoinStart(path);
    JoinComponents(dst, JoinSlash(path));
    SplitJoin(path);
    KeptAll(path);
    ResolveKept(Absolute(dst), Components(dst), path);
    forall at
      ensures Resolve(true, at, path) == at + path
    {
      ResolveKept(true, at, path);
    }
  }

  lemma TargetOf(cwd: Path, dst: string, path: Path)
    requires path != [] && NamesOk(path)
    ensures Locate(cwd, Joined(dst, JoinSlash(path))) == Locate(cwd, dst) + path
    ensures PrefixCheck(dst, JoinSlash(path)) <==> Admits(dst, path[0])
  {
    hide Split, JoinSlash, Render, Resolve, Joined, Components;
    TargetComponents(dst, path);
    ResolveAppend(true, cwd, Components(dst), path);
    if Absolute(dst) || Components(dst) != [] {
      RenderBelow(Absolute(dst), Components(dst), path);
    } else {
      assert NameOk(path[0]);
      assert PartsOk(false, path) by {
        assert forall i | 0 <= i < |path| :: NameOk(path[i]);
      }
      assert [] + path == path;
      NothingAbove();
      RenderDot(path);
    }
  }

  predicate AtOrBelow(p: Path, q: Path) {
    p <= q
  }

  /** Nothing is stored at `p` or below it. */
  predicate Free(d: Disk, p: Path) {
    forall q | q in d :: !AtOrBelow(p, q)
  }

  lemma {:induction false} DirsAbove(d: Disk, p: Path, i: nat)
    requires DiskOk(d) && IsDir(d, p) && i <= |p|
    ensures IsDir(d, p[..i])
    decreases |p|
  {
    if i < |p| {
      assert p[..|p| - 1][..i] == p[..i];
      DirsAbove(d, p[..|p| - 1], i);
    } else {
      assert p[..i] == p;
    }
  }

  lemma MkdirHere(d: Disk, p: Path)
    requires DiskOk(d) && p != [] && IsDir(d, p[..|p| - 1]) && p !in d
    ensures MkdirAll(d, p) == Ok(d[p := DiskDir])
  {
    forall i | 0 <= i < |p|
      ensures IsDir(d, p[..i])
    {
      assert p[..|p| - 1][..i] == p[..i];
      DirsAbove(d, p[..|p| - 1], i);
    }
    assert p[..|p|] == p;
    assert !Blocked(d, p);
    var made := map q | q in Ancestors(p) :: DiskDir;
    assert p in Ancestors(p) by {
      assert p[..|p|] == p;
    }
    assert d + made == d[p := DiskDir];
  }

  /** One entry, where there is nothing yet or something of the same kind: a file that is
      already there gets the new content, a directory stays. */
  lemma ExtractOne(d: Disk, cwd: Path, dst: string, path: Path, t: Tree)
    requires path != [] && NamesOk(path) && Admits(dst, path[0]) && DiskOk(d)
    requires IsDir(d, Locate(cwd, dst) + path[..|path| - 1]) && ValidRelPath(JoinSlash(path))
    requires var target := Locate(cwd, dst) + path; target in d ==> (d[target].DiskDir? <==> t.Dir?)
    ensures ExtractEntry(d, cwd, dst, EntryOf(path, t)) == Ok(d[Locate(cwd, dst) + path := NodeOf(t)])
    ensures DiskOk(d[Locate(cwd, dst) + path := NodeOf(t)])
  {
    hide Locate, JoinSlash, ValidRelPath, NamesOk, MkdirAll, DiskOk, Admits, ExtractEntry, EntryOf;
    EntryAdmitted(d, cwd, dst, path, t);
    var target := Locate(cwd, dst) + path;
    assert target[..|target| - 1] == Locate(cwd, dst) + path[..|path| - 1];
    if target !in d {
      MkdirHere(d, target);
    } else if t.Dir? {
      assert d[target := DiskDir] == d;
    }
    DiskOkAdd(d, target, NodeOf(t));
  }

  /** A file where a directory is ends the extraction; a directory where a file is does not,
      and leaves the file. */
  lemma KindsClash(d: Disk, cwd: Path, dst: string, path: Path, t: Tree)
    requires path != [] && NamesOk(path) && Admits(dst, path[0]) && ValidRelPath(JoinSlash(path))
    requires var target := Locate(cwd, dst) + path; target in d && (d[target].DiskDir? <==> t.File?)
    ensures ExtractEntry(d, cwd, dst, EntryOf(path, t)) == if t.File? then Err(OpenFailed) else Ok(d)
  {
    hide Locate, JoinSlash, ValidRelPath, NamesOk, MkdirAll, Admits, ExtractEntry, EntryOf;
    EntryAdmitted(d, cwd, dst, path, t);
  }

  /** What extracting an admitted entry does. */
  lemma EntryAdmitted(d: Disk, cwd: Path, dst: string, path: Path, t: Tree)
    requires path != [] && NamesOk(path) && Admits(dst, path[0]) && ValidRelPath(JoinSlash(path))
    ensures var target := Locate(cwd, dst) + path;
            ExtractEntry(d, cwd, dst, EntryOf(path, t))
            == if t.File? then WriteFile(d, target, t.content)
               else if target in d then Ok(d) else MkdirAll(d, target)
  {
    hide Locate, JoinSlash, ValidRelPath, PrefixCheck, NamesOk, MkdirAll, WriteFile, Joined, Admits;
    TargetOf(cwd, dst, path);
  }

  /** Entries that are neither files nor directories are passed over. */
  lemma OtherIgnored(d: Disk, cwd: Path, dst: string, name: string, content: Bytes, rest: seq<Entry>)
    requires ValidRelPath(name) && PrefixCheck(dst, name)
    ensures Extract(d, cwd, dst, [Entry(name, Other, content)] + rest) == Extract(d, cwd, dst, rest)
  {
    hide ValidRelPath, PrefixCheck;
    assert ([Entry(name, Other, content)] + rest)[1..] == rest;
  }

  lemma DiskOkAdd(d: Disk, p: Path, n: DiskNode)
    requires DiskOk(d) && p != [] && IsDir(d, p[..|p| - 1]) && (p in d ==> (d[p].DiskDir? <==> n.DiskDir?))
    ensures DiskOk(d[p := n])
  {
    var e := d[p := n];
    forall q | q in e && q != []
      ensures IsDir(e, q[..|q| - 1])
    {
      assert IsDir(d, q[..|q| - 1]);
    }
  }

  /** A file entry whose directory has not been extracted yet ends the extraction: the
      archive has to list parents first. */
  lemma FileNeedsParent(d: Disk, cwd: Path, dst: string, path: Path, content: Bytes, rest: seq<Entry>)
    requires path != [] && NamesOk(path)
    requires ValidRelPath(JoinSlash(path)) && !IsDir(d, Locate(cwd, dst) + path[..|path| - 1])
    ensures Extract(d, cwd, dst, [EntryOf(path, File(content))] + rest)
         == Extracted(d, Some(if Admits(dst, path[0]) then OpenFailed else Tainted))
  {
    hide Locate, JoinSlash, ValidRelPath, PrefixCheck, NamesOk, Joined, Admits;
    TargetOf(cwd, dst, path);
    var target := Locate(cwd, dst) + path;
    assert target[..|target| - 1] == Locate(cwd, dst) + path[..|path| - 1];
  }

  // ------------------------------------------------------------------ whole trees

  /** The part of the disk that holds the tree. */
  function Placed(at: Path, t: Tree): Disk
    decreases t
  {
    map[at := NodeOf(t)] + if t.Dir? then PlacedChildren(at, t.children) else map[]
  }

  function PlacedChildren(at: Path, cs: seq<Child>): Disk
    decreases cs
  {
    if cs == [] then map[]
    else Placed(at + [cs[0].name], cs[0].tree) + PlacedChildren(at, cs[1..])
  }

  lemma {:induction false} PlacedBelow(at: Path, t: Tree, p: Path)
    requires p in Placed(at, t)
    ensures at <= p
    decreases t
  {
    if p != at {
      PlacedChildrenBelow(at, t.children, p);
    }
  }

  lemma {:induction false} PlacedChildrenBelow(at: Path, cs: seq<Child>, p: Path)
    requires p in PlacedChildren(at, cs)
    ensures at <= p && |p| > |at| && exists c :: c in cs && c.name == p[|at|]
    decreases cs
  {
    var sub := at + [cs[0].name];
    if p in Placed(sub, cs[0].tree) {
      PlacedBelow(sub, cs[0].tree, p);
      assert sub <= p;
      assert cs[0] in cs && p[|at|] == sub[|at|];
    } else {
      PlacedChildrenBelow(at, cs[1..], p);
      var c :| c in cs[1..] && c.name == p[|at|];
      assert c in cs;
    }
  }

  /** The tree's part of the disk answers exactly as the tree does. */
  lemma {:induction false} PlacedIsLookup(at: Path, t: Tree, rel: Path)
    requires TreeOk(t)
    ensures at + rel in Placed(at, t) <==> Lookup(t, rel).Some?
    ensures at + rel in Placed(at, t) ==> Placed(at, t)[at + rel] == Lookup(t, rel).value
    decreases t
  {
    if rel == [] {
      assert at + rel == at;
      if t.Dir? && at in PlacedChildren(at, t.children) {
        PlacedChildrenBelow(at, t.children, at);
      }
    } else {
      assert at + rel != at;
      if t.Dir? {
        PlacedChildrenIsLookup(at, t.children, rel);
      }
    }
  }

  lemma {:induction false} PlacedChildrenIsLookup(at: Path, cs: seq<Child>, rel: Path)
    requires ChildrenOk(cs) && rel != []
    ensures at + rel in PlacedChildren(at, cs) <==> LookupIn(cs, rel).Some?
    ensures at + rel in PlacedChildren(at, cs) ==> PlacedChildren(at, cs)[at + rel] == LookupIn(cs, rel).value
    decreases cs
  {
    hide NameOk;
    if cs == [] {
    } else {
      var sub := at + [cs[0].name];
      var p := at + rel;
      assert sub[|at|] == cs[0].name && p[|at|] == rel[0];
      PlacedChildrenIsLookup(at, cs[1..], rel);
      if cs[0].name == rel[0] {
        assert p == sub + rel[1..];
        PlacedIsLookup(sub, cs[0].tree, rel[1..]);
        if p in PlacedChildren(at, cs[1..]) {
          PlacedChildrenBelow(at, cs[1..], p);
        }
      } else if p in Placed(sub, cs[0].tree) {
        PlacedBelow(sub, cs[0].tree, p);
      }
    }
  }

  /** Where both have something it is of the same kind. */
  predicate Fits(d: Disk, part: Disk) {
    forall p | p in d && p in part :: d[p].DiskDir? <==> part[p].DiskDir?
  }

  lemma FreeFits(d: Disk, at: Path, t: Tree)
    requires Free(d, at)
    ensures Fits(d, Placed(at, t))
  {
    hide Placed;
    forall p | p in Placed(at, t)
      ensures p !in d
    {
      PlacedBelow(at, t, p);
      assert AtOrBelow(at, p);
    }
  }

  lemma FitsBelow(d: Disk, at: Path, t: Tree)
    requires t.Dir? && Fits(d, Placed(at, t))
    ensures Fits(d[at := DiskDir], PlacedChildren(at, t.children))
  {
    hide PlacedChildren;
    forall p | p in PlacedChildren(at, t.children)
      ensures p != at
    {
      PlacedChildrenBelow(at, t.children, p);
    }
  }

  /** What the first child adds is apart from what the others add. */
  lemma ChildrenApart(at: Path, cs: seq<Child>)
    requires cs != [] && ChildrenOk(cs)
    ensures forall p | p in Placed(at + [cs[0].name], cs[0].tree) :: p !in PlacedChildren(at, cs[1..])
  {
    hide Placed, PlacedChildren, NameOk, TreeOk;
    var sub := at + [cs[0].name];
    forall p | p in Placed(sub, cs[0].tree)
      ensures p !in PlacedChildren(at, cs[1..])
    {
      PlacedBelow(sub, cs[0].tree, p);
      assert p[|at|] == sub[|at|];
      if p in PlacedChildren(at, cs[1..]) {
        PlacedChildrenBelow(at, cs[1..], p);
      }
    }
  }

  lemma {:induction false} ExtractAppend(d: Disk, cwd: Path, dst: string, a: seq<Entry>, b: seq<Entry>)
    requires Extract(d, cwd, dst, a).error.None?
    ensures Extract(d, cwd, dst, a + b) == Extract(Extract(d, cwd, dst, a).disk, cwd, dst, b)
    decreases |a|
  {
    hide ExtractEntry;
    if a == [] {
      assert a + b == b;
    } else {
      assert (a + b)[1..] == a[1..] + b;
      ExtractAppend(ExtractEntry(d, cwd, dst, a[0]).value, cwd, dst, a[1..], b);
    }
  }

  /** The tree's entries, extracted where nothing of another kind is in the way, add the
      tree to what is there. */
  lemma {:induction false} ExtractTree(d: Disk, cwd: Path, dst: string, path: Path, t: Tree)
    requires path != [] && NamesOk(path) && Admits(dst, path[0]) && TreeOk(t) && DiskOk(d)
    requires IsDir(d, Locate(cwd, dst) + path[..|path| - 1]) && Fits(d, Placed(Locate(cwd, dst) + path, t))
    requires AllValid(Walk(path, t, {}))
    ensures Extract(d, cwd, dst, Walk(path, t, {})) == Extracted(d + Placed(Locate(cwd, dst) + path, t), None)
    ensures DiskOk(d + Placed(Locate(cwd, dst) + path, t))
    decreases t
  {
    var at := Locate(cwd, dst) + path;
    var es := Walk(path, t, {});
    WalkSplits(path, t);
    assert at in d ==> (d[at].DiskDir? <==> t.Dir?) by {
      PlacedRoot(at, t);
    }
    hide Locate, Admits, JoinSlash, ValidRelPath, NamesOk, ExtractEntry, DiskOk, Walk, WalkChildren, IsDir;
    ExtractOne(d, cwd, dst, path, t);
    var d1 := d[at := NodeOf(t)];
    PlacedStep(d, at, t);
    if t.Dir? {
      FitsBelow(d, at, t);
      hide AllValid, Fits, PlacedChildren, Placed;
      assert IsDir(d1, at) by {
        NewDir(d, at, t);
      }
      ExtractChildren(d1, cwd, dst, path, t.children);
    }
  }

  lemma NewDir(d: Disk, at: Path, t: Tree)
    requires t.Dir?
    ensures IsDir(d[at := NodeOf(t)], at)
  {
  }

  lemma WalkSplits(path: Path, t: Tree)
    requires path != [] && AllValid(Walk(path, t, {}))
    ensures var es := Walk(path, t, {});
            && es != [] && es[0] == EntryOf(path, t) && ValidRelPath(JoinSlash(path))
            && AllValid(es[1..])
            && es[1..] == if t.Dir? then WalkChildren(path, t.children, {}) else []
  {
    hide ValidRelPath, JoinSlash;
    var es := Walk(path, t, {});
    assert es[0] == EntryOf(path, t) && es[0] in es;
    assert forall f | f in es[1..] :: f in es;
  }

  lemma PlacedStep(d: Disk, at: Path, t: Tree)
    ensures var d1 := d[at := NodeOf(t)];
            d + Placed(at, t) == if t.Dir? then d1 + PlacedChildren(at, t.children) else d1
  {
    hide PlacedChildren;
  }

  lemma PlacedRoot(at: Path, t: Tree)
    ensures at in Placed(at, t) && Placed(at, t)[at] == NodeOf(t)
  {
    hide PlacedChildren;
    if t.Dir? && at in PlacedChildren(at, t.children) {
      PlacedChildrenBelow(at, t.children, at);
    }
  }

  lemma {:induction false} ExtractChildren(d: Disk, cwd: Path, dst: string, path: Path, cs: seq<Child>)
    requires path != [] && NamesOk(path) && Admits(dst, path[0]) && ChildrenOk(cs) && DiskOk(d)
    requires IsDir(d, Locate(cwd, dst) + path)
    requires Fits(d, PlacedChildren(Locate(cwd, dst) + path, cs))
    requires AllValid(WalkChildren(path, cs, {}))
    ensures Extract(d, cwd, dst, WalkChildren(path, cs, {}))
         == Extracted(d + PlacedChildren(Locate(cwd, dst) + path, cs), None)
    ensures DiskOk(d + PlacedChildren(Locate(cwd, dst) + path, cs))
    decreases cs
  {
    hide Locate, Admits, JoinSlash, ValidRelPath, ExtractEntry, DiskOk, Walk, Placed;
    var at := Locate(cwd, dst) + path;
    if cs == [] {
      assert d + map[] == d;
    } else {
      var sub, name := path + [cs[0].name], cs[0].name;
      var first, rest := Walk(sub, cs[0].tree, {}), WalkChildren(path, cs[1..], {});
      assert forall f :: f in first || f in rest ==> f in first + rest;
      assert sub[..|sub| - 1] == path;
      assert Locate(cwd, dst) + sub == at + [name];
      assert NamesOk(sub) by {
        assert NameOk(name);
      }
      var here := Placed(at + [name], cs[0].tree);
      var d1 := d + here;
      ChildrenApart(at, cs);
      assert Fits(d, here) && Fits(d1, PlacedChildren(at, cs[1..]));
      hide Fits;
      ExtractTree(d, cwd, dst, sub, cs[0].tree);
      KeepsDir(d, at, name, cs[0].tree);
      ExtractChildren(d1, cwd, dst, path, cs[1..]);
      ExtractAppend(d, cwd, dst, first, rest);
      assert d + here + PlacedChildren(at, cs[1..]) == d + (here + PlacedChildren(at, cs[1..]));
    }
  }

  lemma KeepsDir(d: Disk, at: Path, name: string, t: Tree)
    requires IsDir(d, at)
    ensures IsDir(d + Placed(at + [name], t), at)
  {
    hide Placed;
    if at in Placed(at + [name], t) {
      PlacedBelow(at + [name], t, at);
    }
  }

  lemma {:induction false} SuccessMeansValid(d: Disk, cwd: Path, dst: string, es: seq<Entry>)
    requires Extract(d, cwd, dst, es).error.None?
    ensures AllValid(es) && forall e | e in es :: PrefixCheck(dst, e.name)
    decreases |es|
  {
    hide ValidRelPath, PrefixCheck, MkdirAll, WriteFile;
    if es == [] {
    } else {
      SuccessMeansValid(ExtractEntry(d, cwd, dst, es[0]).value, cwd, dst, es[1..]);
      forall e | e in es
        ensures ValidRelPath(e.name) && PrefixCheck(dst, e.name)
      {
        assert e == es[0] || e in es[1..];
      }
    }
  }

  // ------------------------------------------------------------------- main result

  /** At `at` and below, `disk` holds exactly the tree; elsewhere it is as `before`. */
  ghost predicate Reproduces(before: Disk, disk: Disk, at: Path, t: Tree) {
    forall p ::
      if AtOrBelow(at, p)
      then && (p in disk <==> Lookup(t, p[|at|..]).Some?)
           && (p in disk ==> disk[p] == Lookup(t, p[|at|..]).value)
      else (p in disk <==> p in before) && (p in disk ==> disk[p] == before[p])
  }

  /** `disk` is `before` with the tree laid over it at `at`. */
  ghost predicate Overlaid(before: Disk, disk: Disk, at: Path, t: Tree) {
    forall p ::
      if AtOrBelow(at, p) && Lookup(t, p[|at|..]).Some?
      then p in disk && disk[p] == Lookup(t, p[|at|..]).value
      else (p in disk <==> p in before) && (p in disk ==> disk[p] == before[p])
  }

  /** Where the tree has something and the disk too, both have a file or both a directory. */
  ghost predicate SameKinds(d: Disk, at: Path, t: Tree) {
    forall p | p in d && AtOrBelow(at, p) && Lookup(t, p[|at|..]).Some? ::
      d[p].DiskDir? <==> Lookup(t, p[|at|..]).value.DiskDir?
  }

  lemma PlacedAnswers(at: Path, t: Tree, p: Path)
    requires TreeOk(t)
    ensures p in Placed(at, t) <==> AtOrBelow(at, p) && Lookup(t, p[|at|..]).Some?
    ensures p in Placed(at, t) ==> Placed(at, t)[p] == Lookup(t, p[|at|..]).value
  {
    hide Placed, Lookup, TreeOk;
    if AtOrBelow(at, p) {
      assert p == at + p[|at|..];
      PlacedIsLookup(at, t, p[|at|..]);
    } else if p in Placed(at, t) {
      PlacedBelow(at, t, p);
    }
  }

  lemma PlacedOverlays(d: Disk, at: Path, t: Tree)
    requires TreeOk(t)
    ensures Overlaid(d, d + Placed(at, t), at, t)
    ensures Fits(d, Placed(at, t)) <==> SameKinds(d, at, t)
  {
    hide Placed, Lookup, TreeOk;
    forall p
      ensures p in Placed(at, t) <==> AtOrBelow(at, p) && Lookup(t, p[|at|..]).Some?
      ensures p in Placed(at, t) ==> Placed(at, t)[p] == Lookup(t, p[|at|..]).value
    {
      PlacedAnswers(at, t, p);
    }
  }

  lemma OverlaidOnNothing(d: Disk, disk: Disk, at: Path, t: Tree)
    requires Overlaid(d, disk, at, t) && Free(d, at)
    ensures Reproduces(d, disk, at, t)
  {
    hide Lookup;
  }

  /** Archiving a tree and extracting it into an empty directory `dst`, absolute or
      relative, succeeds exactly when the tree, without its skipped parts, is safe and `dst`
      admits its name. It then leaves everything outside the directory alone and puts in it,
      under the tree's name, exactly the tree without its skipped parts: same paths, same
      directories, same contents. A root that is itself skipped leaves nothing. */
  lemma RoundTrip(d: Disk, cwd: Path, dst: string, name: string, t: Tree, skip: set<string>)
    requires DiskOk(d) && IsDir(d, Locate(cwd, dst))
    requires forall q | q in d && AtOrBelow(Locate(cwd, dst), q) :: q == Locate(cwd, dst)
    requires NameOk(name) && TreeOk(t)
    ensures var r := Extract(d, cwd, dst, Walk([name], t, skip));
            if t.Dir? && name in skip then r == Extracted(d, None)
            else && (r.error.None? <==> Safe(name, Prune(t, skip)) && Admits(dst, name))
                 && (r.error.None? ==> Reproduces(d, r.disk, Locate(cwd, dst) + [name], Prune(t, skip)))
  {
    if t.Dir? && name in skip {
      assert [name][|[name]| - 1] == name;
      return;
    }
    var at, u := Locate(cwd, dst) + [name], Prune(t, skip);
    hide *;
    FreeInEmpty(d, Locate(cwd, dst), name);
    PrunedOk(t, skip);
    FreeFits(d, at, u);
    PlacedOverlays(d, at, u);
    ExtractOver(d, cwd, dst, name, t, skip);
    var r := Extract(d, cwd, dst, Walk([name], t, skip));
    if r.error.None? {
      OverlaidOnNothing(d, r.disk, at, u);
    }
  }

  /** Extracting over a directory that already holds something, for instance an earlier
      version: as long as no file meets a directory it succeeds under the same condition,
      and lays the tree over what is there. Files that were there get exactly the new
      content; those that the tree does not have stay. */
  lemma ExtractOver(d: Disk, cwd: Path, dst: string, name: string, t: Tree, skip: set<string>)
    requires DiskOk(d) && IsDir(d, Locate(cwd, dst)) && !(t.Dir? && name in skip)
    requires NameOk(name) && TreeOk(t) && SameKinds(d, Locate(cwd, dst) + [name], Prune(t, skip))
    ensures var r := Extract(d, cwd, dst, Walk([name], t, skip));
            && (r.error.None? <==> Safe(name, Prune(t, skip)) && Admits(dst, name))
            && (r.error.None? ==> && Overlaid(d, r.disk, Locate(cwd, dst) + [name], Prune(t, skip))
                                  && DiskOk(r.disk) && IsDir(r.disk, Locate(cwd, dst)))
  {
    var at, u := Locate(cwd, dst) + [name], Prune(t, skip);
    assert NamesOk([name]);
    hide *;
    WalkPruned([name], t, skip);
    PrunedOk(t, skip);
    PlacedOverlays(d, at, u);
    WholeTree(d, cwd, dst, name, u);
    KeepsDir(d, Locate(cwd, dst), name, u);
  }

  /** The case of `ExtractOver` without skipped parts. */
  lemma WholeTree(d: Disk, cwd: Path, dst: string, name: string, t: Tree)
    requires DiskOk(d) && IsDir(d, Locate(cwd, dst)) && Fits(d, Placed(Locate(cwd, dst) + [name], t))
    requires NamesOk([name]) && TreeOk(t)
    ensures var r := Extract(d, cwd, dst, Walk([name], t, {}));
            && (r.error.None? <==> Safe(name, t) && Admits(dst, name))
            && (r.error.None? ==> r.disk == d + Placed(Locate(cwd, dst) + [name], t) && DiskOk(r.disk))
  {
    var es := Walk([name], t, {});
    assert [] + [name] == [name] && CleanFront([]);
    hide *;
    FirstEntry([name], t);
    ValidIffSafe([], name, t);
    TargetOf(cwd, dst, [name]);
    if Extract(d, cwd, dst, es).error.None? {
      SuccessMeansValid(d, cwd, dst, es);
    }
    if Safe(name, t) && Admits(dst, name) {
      assert [name][..0] == [] && Locate(cwd, dst) + [] == Locate(cwd, dst);
      ExtractTree(d, cwd, dst, [name], t);
    }
  }

  /** Extracting the same archive a second time changes nothing. */
  lemma ExtractAgain(d: Disk, cwd: Path, dst: string, name: string, t: Tree, skip: set<string>)
    requires DiskOk(d) && IsDir(d, Locate(cwd, dst)) && !(t.Dir? && name in skip)
    requires NameOk(name) && TreeOk(t) && SameKinds(d, Locate(cwd, dst) + [name], Prune(t, skip))
    requires Extract(d, cwd, dst, Walk([name], t, skip)).error.None?
    ensures var once := Extract(d, cwd, dst, Walk([name], t, skip));
            Extract(once.disk, cwd, dst, Walk([name], t, skip)) == once
  {
    var at, u := Locate(cwd, dst) + [name], Prune(t, skip);
    var once := Extract(d, cwd, dst, Walk([name], t, skip));
    hide *;
    ExtractOver(d, cwd, dst, name, t, skip);
    OverlaidKinds(d, once.disk, at, u);
    ExtractOver(once.disk, cwd, dst, name, t, skip);
    OverlaidTwice(d, once.disk, Extract(once.disk, cwd, dst, Walk([name], t, skip)).disk, at, u);
  }

  lemma OverlaidKinds(d: Disk, disk: Disk, at: Path, t: Tree)
    requires Overlaid(d, disk, at, t)
    ensures SameKinds(disk, at, t)
  {
    hide Lookup;
  }

  lemma OverlaidTwice(d: Disk, once: Disk, twice: Disk, at: Path, t: Tree)
    requires Overlaid(d, once, at, t) && Overlaid(once, twice, at, t)
    ensures twice == once
  {
    hide Lookup;
  }

  /** The input that shows it: a repository extracted into "." is refused at its first entry. */
  lemma CurrentDirectoryRefused(d: Disk, cwd: Path, t: Tree)
    ensures Extract(d, cwd, ".", Walk(["repository"], t, {"keys", "staged"})) == Extracted(d, Some(Tainted))
  {
    hide *;
    RepositoryName();
    DotNotAdmitted();
    RepositoryValid();
    FirstRefused(d, cwd, ".", "repository", t, {"keys", "staged"});
  }

  /** A name that the destination does not admit is refused at the first entry. */
  lemma FirstRefused(d: Disk, cwd: Path, dst: string, name: string, t: Tree, skip: set<string>)
    requires NamesOk([name]) && ValidRelPath(JoinSlash([name])) && !Admits(dst, name) && name !in skip
    ensures Extract(d, cwd, dst, Walk([name], t, skip)) == Extracted(d, Some(Tainted))
  {
    var es := Walk([name], t, skip);
    assert [name][|[name]| - 1] == name;
    assert es == [EntryOf([name], t)] + es[1..];
    hide *;
    NotAdmitted(d, cwd, dst, [name], t, es[1..]);
  }

  lemma NotAdmitted(d: Disk, cwd: Path, dst: string, path: Path, t: Tree, rest: seq<Entry>)
    requires path != [] && NamesOk(path) && ValidRelPath(JoinSlash(path)) && !Admits(dst, path[0])
    ensures Extract(d, cwd, dst, [EntryOf(path, t)] + rest) == Extracted(d, Some(Tainted))
  {
    hide Locate, JoinSlash, ValidRelPath, PrefixCheck, NamesOk, Admits;
    TargetOf(cwd, dst, path);
  }

  lemma RepositoryName()
    ensures NamesOk(["repository"]) && "repository" !in {"keys", "staged"}
  {
    assert "repository"[0] == 'r' && "keys"[0] == 'k' && "staged"[0] == 's';
  }

  lemma DotNotAdmitted()
    ensures !Admits(".", "repository")
  {
    hide Components;
    DotComponents();
    assert "repository"[0] == 'r' && "."[0] == '.';
  }

  lemma DotComponents()
    ensures Components(".") == []
  {
    SplitPlain(".");
    assert ["."][..0] == [];
  }

  lemma RepositoryValid()
    ensures ValidRelPath(JoinSlash(["repository"]))
  {
    var name := "repository";
    assert '\\' !in name && '/' !in name;
    BackslashIn(name);
    NoDotsSlash(name);
    assert JoinSlash([name]) == name;
    assert name[0] != '/';
  }

  lemma FirstEntry(path: Path, t: Tree)
    requires path != []
    ensures exists e :: e in Walk(path, t, {}) && e.name == JoinSlash(path)
  {
    var es := Walk(path, t, {});
    assert es[0] == EntryOf(path, t) && es[0] in es;
  }

  lemma FreeInEmpty(d: Disk, at: Path, name: string)
    requires forall q | q in d && AtOrBelow(at, q) :: q == at
    ensures Free(d, at + [name])
  {
    forall q | q in d
      ensures !AtOrBelow(at + [name], q)
    {
      assert AtOrBelow(at, q) ==> q == at;
    }
  }
}
