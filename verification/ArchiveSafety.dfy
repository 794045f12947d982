/** What extraction does with any list of entries at all, well-formed archive or not: it
    touches nothing outside the destination. */
module ArchiveSafety {
  import opened Wrappers
  import opened Strings
  import opened Paths
  import opened Archive
  import opened ArchiveRoundTrip

  // ------------------------------------------------------------- where a path leads

  /** A step after cleaning leads where the same step leads before. */
  lemma EnterCleaned(cwd: Path, p: Path, c: string)
    requires PartsOk(false, p)
    ensures Resolve(true, cwd, Enter(false, p, c)) == Enter(true, Resolve(true, cwd, p), c)
  {
    if c == ".." && p != [] && p[|p| - 1] != ".." {
      assert Resolve(true, cwd, p) == Resolve(true, cwd, p[..|p| - 1]) + [p[|p| - 1]];
    } else if c != "" && c != "." {
      assert (p + [c])[..|p|] == p;
    }
  }

  lemma {:induction false} ResolveCleaned(cwd: Path, cs: seq<string>)
    ensures Resolve(true, cwd, Resolve(false, [], cs)) == Resolve(true, cwd, cs)
    decreases |cs|
  {
    if cs == [] {
    } else {
      var front := cs[..|cs| - 1];
      ResolveCleaned(cwd, front);
      ResolvedParts(false, [], front);
      EnterCleaned(cwd, Resolve(false, [], front), cs[|cs| - 1]);
    }
  }

  /** Cleaning a path does not change where it leads: from the root if it is absolute, and
      otherwise from the working directory, one component after the other. */
  lemma LocateExact(cwd: Path, s: string)
    ensures Locate(cwd, s) == Resolve(true, if Absolute(s) then [] else cwd, Split(s))
  {
    ResolveCleaned(cwd, Split(s));
  }

  /** A name that passes both checks leads to the destination, below it, or, from a loose
      destination, to the directory it is in. */
  lemma TargetNearby(cwd: Path, dst: string, name: string)
    requires ValidRelPath(name) && PrefixCheck(dst, name)
    ensures var l, target := Locate(cwd, dst), Locate(cwd, Joined(dst, name));
            l <= target || target <= l
  {
    var rooted, at, cs := Absolute(dst), Components(dst), Split(name);
    assert !Absolute(name);
    hide PrefixCheck, ValidRelPath, Components, Split, Resolve, Enter, Kept, Inside, LeadsOut, Locate;
    JoinComponents(dst, name);
    PrefixCheckExact(dst, name);
    ValidResolve(rooted, at, name);
    LeadsOutIff(name);
    var t := Components(Joined(dst, name));
    LocateComponents(cwd, dst);
    LocateComponents(cwd, Joined(dst, name));
    if Inside(at, t) {
      InsideLeads(cwd, rooted, at, t);
    } else {
      LooseUp(cwd, at, t);
    }
  }

  lemma LocateComponents(cwd: Path, s: string)
    ensures Locate(cwd, s) == if Absolute(s) then Components(s) else Resolve(true, cwd, Components(s))
  {
  }

  lemma InsideLeads(cwd: Path, rooted: bool, at: Path, t: Path)
    requires Inside(at, t)
    ensures (if rooted then at else Resolve(true, cwd, at)) <= if rooted then t else Resolve(true, cwd, t)
  {
    var rest := t[|at|..];
    assert t == at + rest;
    ResolveAppend(true, cwd, at, rest);
    assert forall c | c in rest :: c != "..";
    ResolveKept(true, Resolve(true, cwd, at), rest);
  }

  lemma LooseUp(cwd: Path, at: Path, t: Path)
    requires t == Enter(false, at + [], "..") && (at == [] || at[|at| - 1] == "..")
    ensures Resolve(true, cwd, t) <= Resolve(true, cwd, at)
  {
    assert at + [] == at;
    assert (at + [".."])[..|at|] == at;
  }

  // --------------------------------------------------------------------- one entry

  /** `after` is a disk, still has the directory `l`, and is as `before` outside of it. */
  ghost predicate Contained(before: Disk, after: Disk, l: Path) {
    && DiskOk(after) && IsDir(after, l)
    && forall p | !AtOrBelow(l, p) :: (p in after <==> p in before) && (p in after ==> after[p] == before[p])
  }

  /** os.MkdirAll succeeds exactly when no file is in the way, and then makes the directory
      and all those above it, and nothing else. */
  lemma MkdirExact(d: Disk, p: Path)
    ensures MkdirAll(d, p).Ok? <==> forall i | 0 <= i <= |p| && p[..i] in d :: d[p[..i]].DiskDir?
    ensures MkdirAll(d, p).Ok? ==>
              && (forall q | q <= p :: IsDir(MkdirAll(d, p).value, q))
              && (forall q | !(q <= p) :: (q in MkdirAll(d, p).value <==> q in d)
                                          && (q in d ==> MkdirAll(d, p).value[q] == d[q]))
    ensures MkdirAll(d, p).Err? ==> MkdirAll(d, p).error == MkdirFailed
  {
    forall q
      ensures q <= p <==> q in Ancestors(p)
    {
      if q <= p {
        assert p[..|q|] == q;
      }
    }
  }

  lemma MkdirContained(d: Disk, l: Path, p: Path)
    requires DiskOk(d) && IsDir(d, l) && l <= p && MkdirAll(d, p).Ok?
    ensures Contained(d, MkdirAll(d, p).value, l)
  {
    var made := MkdirAll(d, p).value;
    MkdirExact(d, p);
    hide MkdirAll;
    forall q | q in made && q != []
      ensures IsDir(made, q[..|q| - 1])
    {
      if q <= p {
        assert q[..|q| - 1] <= p;
      } else {
        assert IsDir(d, q[..|q| - 1]);
      }
    }
    forall q | q <= p && !AtOrBelow(l, q)
      ensures IsDir(d, q)
    {
      assert l[..|q|] == p[..|q|] == q;
      DirsAbove(d, l, |q|);
    }
  }

  lemma WriteContained(d: Disk, l: Path, p: Path, content: Bytes)
    requires DiskOk(d) && IsDir(d, l) && l <= p && WriteFile(d, p, content).Ok?
    ensures Contained(d, WriteFile(d, p, content).value, l)
  {
    DiskOkAdd(d, p, DiskFile(content));
  }

  lemma EntryContained(d: Disk, cwd: Path, dst: string, e: Entry)
    requires DiskOk(d) && IsDir(d, Locate(cwd, dst)) && ExtractEntry(d, cwd, dst, e).Ok?
    ensures Contained(d, ExtractEntry(d, cwd, dst, e).value, Locate(cwd, dst))
  {
    hide Locate, ValidRelPath, PrefixCheck, MkdirAll, DiskOk;
    var l, target := Locate(cwd, dst), Locate(cwd, Joined(dst, e.name));
    TargetNearby(cwd, dst, e.name);
    if target <= l {
      assert l[..|target|] == target;
      DirsAbove(d, l, |target|);
    } else if e.kind.Directory? && target !in d {
      MkdirContained(d, l, target);
    } else if e.kind.Regular? {
      WriteContained(d, l, target, e.content);
    }
  }

  // -------------------------------------------------------------------- main result

  /** For every list of entries, whatever their names, kinds and order, and also when the
      extraction ends early: nothing changes outside the destination, and what is inside it
      is still a tree of directories. */
  lemma {:induction false} ExtractContained(d: Disk, cwd: Path, dst: string, es: seq<Entry>)
    requires DiskOk(d) && IsDir(d, Locate(cwd, dst))
    ensures Contained(d, Extract(d, cwd, dst, es).disk, Locate(cwd, dst))
    decreases |es|
  {
    hide Locate, ExtractEntry, DiskOk;
    if es == [] {
    } else {
      var r := ExtractEntry(d, cwd, dst, es[0]);
      if r.Ok? {
        EntryContained(d, cwd, dst, es[0]);
        ExtractContained(r.value, cwd, dst, es[1..]);
      }
    }
  }
}
