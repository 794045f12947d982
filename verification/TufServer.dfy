/** Collecting the files of the certificate directory (initTUFRepo in
    tools/tuf/cmd/tuf/server/main.go), and the trusted root they lead to. */
module TufServer {
  import opened Wrappers
  import opened Strings
  import opened Sorting
  import opened Pem
  import opened PemConcat
  import opened CertChain
  import opened TrustedRoots
  import opened TrustPipeline

  datatype DirEntry = DirEntry(name: string, isDir: bool, content: Bytes)

  type Files = map<string, Bytes>

  /** Directories and Kubernetes' own ".." entries are passed over. */
  predicate Selected(e: DirEntry) {
    !e.isDir && !(".." <= e.name)
  }

  /** A file that is taken for a chain of certificates. */
  predicate TsaFile(e: DirEntry) {
    !e.isDir && !(".." <= e.name) && Contains(e.name, "tsa")
  }

  /** The files a chain is split into, with the first `k` positions entered. */
  function SplitMap(x: Codec, cs: seq<Certificate>, k: nat): Files
    requires k <= |cs|
  {
    if k == 0 then map[]
    else SplitMap(x, cs, k - 1)[NameAt(PREFIX, |cs|, k - 1) := EncodeCert(x, cs[k - 1])]
  }

  function Trimmed(m: Files): Files {
    map k | k in m :: TrimSpace(m[k])
  }

  function Readable(x: Codec, text: string): Result<seq<Certificate>, SplitError> {
    match ParseAll(x, text)
    case Err(e) => Err(Unreadable(e))
    case Ok(cs) => if |cs| < 2 then Err(TooShort(|cs|)) else Ok(cs)
  }

  function AddFile(x: Codec, files: Files, e: DirEntry): Result<Files, SplitError> {
    if !Selected(e) then Ok(files)
    else if Contains(e.name, "tsa") then
      match Readable(x, e.content)
      case Err(err) => Err(err)
      case Ok(cs) => Ok(files + Trimmed(SplitMap(x, cs, |cs|)))
    else Ok(files[e.name := e.content])
  }

  function FilesOf(x: Codec, entries: seq<DirEntry>): Result<Files, SplitError>
    decreases |entries|
  {
    if entries == [] then Ok(map[])
    else match FilesOf(x, entries[..|entries| - 1])
      case Err(err) => Err(err)
      case Ok(m) => AddFile(x, m, entries[|entries| - 1])
  }

  lemma {:induction false} SplitMapIsSplit(x: Codec, cs: seq<Certificate>, k: nat)
    requires k <= |cs|
    ensures forall s :: s in SplitMap(x, cs, k) ==> exists i: nat :: i < k && s == NameAt(PREFIX, |cs|, i)
    ensures forall i: nat | i < k ::
              && NameAt(PREFIX, |cs|, i) in SplitMap(x, cs, k)
              && SplitMap(x, cs, k)[NameAt(PREFIX, |cs|, i)] == EncodeCert(x, cs[i])
  {
    hide NameAt, EncodeCert;
    if k == 0 {
    } else {
      SplitMapIsSplit(x, cs, k - 1);
      forall i: nat | i < k - 1
        ensures NameAt(PREFIX, |cs|, i) != NameAt(PREFIX, |cs|, k - 1)
      {
        if NameAt(PREFIX, |cs|, i) == NameAt(PREFIX, |cs|, k - 1) {
          NameAtInjective(PREFIX, |cs|, i, k - 1);
        }
      }
    }
  }

  lemma SplitMapUnique(x: Codec, cs: seq<Certificate>, m: Files)
    requires IsSplit(x, cs, PREFIX, m)
    ensures m == SplitMap(x, cs, |cs|)
  {
    hide NameAt, EncodeCert, SplitMap;
    SplitMapIsSplit(x, cs, |cs|);
    var sm := SplitMap(x, cs, |cs|);
    forall s
      ensures s in m <==> s in sm
      ensures s in m ==> m[s] == sm[s]
    {
    }
  }

  method TrimInto(files: Files, split: Files) returns (r: Files)
    ensures r == files + Trimmed(split)
  {
    hide TrimSpace;
    r := files;
    var todo := split.Keys;
    ghost var done: set<string> := {};
    while todo != {}
      invariant todo + done == split.Keys && todo !! done
      invariant r == files + (map k | k in done :: TrimSpace(split[k]))
      decreases todo
    {
      var k :| k in todo;
      r := r[k := TrimSpace(split[k])];
      todo, done := todo - {k}, done + {k};
    }
    assert done == split.Keys;
  }

  method BuildFiles(x: Codec, entries: seq<DirEntry>) returns (r: Result<Files, SplitError>)
    ensures r == FilesOf(x, entries)
  {
    hide ParseAll, TrimSpace, IsSplit, SplitMap, Trimmed, Contains;
    var files: Files := map[];
    for i := 0 to |entries|
      invariant FilesOf(x, entries[..i]) == Ok(files)
    {
      var e := entries[i];
      assert entries[..i + 1][..i] == entries[..i];
      if Selected(e) {
        if Contains(e.name, "tsa") {
          var certFiles := SplitCertChain(x, e.content, PREFIX);
          if certFiles.Err? {
            ErrorStays(x, entries, i + 1);
            return Err(certFiles.error);
          }
          SplitMapUnique(x, ParseAll(x, e.content).value, certFiles.value);
          files := TrimInto(files, certFiles.value);
        } else {
          files := files[e.name := e.content];
        }
      }
    }
    assert entries[..|entries|] == entries;
    return Ok(files);
  }

  lemma {:induction false} ErrorStays(x: Codec, entries: seq<DirEntry>, n: nat)
    requires n <= |entries| && FilesOf(x, entries[..n]).Err?
    ensures FilesOf(x, entries) == FilesOf(x, entries[..n])
    decreases |entries|
  {
    hide AddFile;
    if n == |entries| {
      assert entries[..n] == entries;
    } else {
      var last := |entries| - 1;
      assert entries[..last][..n] == entries[..n];
      ErrorStays(x, entries[..last], n);
    }
  }

  /** The directory is accepted exactly when each TSA-named file holds a chain of two or
      more certificates; in particular a single TSA certificate in a file of its own is
      refused. */
  lemma {:induction false} AcceptedIff(x: Codec, entries: seq<DirEntry>)
    ensures FilesOf(x, entries).Ok? <==>
            forall i | 0 <= i < |entries| && TsaFile(entries[i]) ::
              ParseAll(x, entries[i].content).Ok? && |ParseAll(x, entries[i].content).value| >= 2
    decreases |entries|
  {
    hide ParseAll, Contains, SplitMap, Trimmed;
    if entries == [] {
    } else {
      var last := |entries| - 1;
      AcceptedIff(x, entries[..last]);
      assert forall i | 0 <= i < last :: entries[..last][i] == entries[i];
    }
  }

  // --------------------------------------------------------------------- plain files

  /** The entry is taken over as it is. */
  predicate PlainFile(e: DirEntry) {
    !e.isDir && !(".." <= e.name) && !Contains(e.name, "tsa")
  }

  lemma SplitNameHasTsa(n: nat, i: nat)
    requires i < n
    ensures Contains(NameAt(PREFIX, n, i), "tsa")
  {
    ContainsAt(NameAt(PREFIX, n, i), "tsa", 0);
  }

  lemma AddPlain(x: Codec, m: Files, e: DirEntry, s: string)
    requires AddFile(x, m, e).Ok? && !Contains(s, "tsa")
    ensures var r := AddFile(x, m, e).value;
            if PlainFile(e) && e.name == s then s in r && r[s] == e.content
            else (s in r <==> s in m) && (s in r ==> r[s] == m[s])
  {
    hide Contains, SplitMap, ParseAll, NameAt;
    if TsaFile(e) {
      var cs := Readable(x, e.content).value;
      SplitMapIsSplit(x, cs, |cs|);
      forall i: nat | i < |cs|
        ensures NameAt(PREFIX, |cs|, i) != s
      {
        SplitNameHasTsa(|cs|, i);
      }
    }
  }

  /** Among the names without "tsa", the files are exactly the plain entries of the
      directory, each under its own name with its own content. */
  lemma {:induction false} PlainFiles(x: Codec, entries: seq<DirEntry>, s: string)
    requires FilesOf(x, entries).Ok? && !Contains(s, "tsa")
    ensures var m := FilesOf(x, entries).value;
            && (s in m <==> exists j :: 0 <= j < |entries| && PlainFile(entries[j]) && entries[j].name == s)
            && (forall j | && 0 <= j < |entries| && PlainFile(entries[j]) && entries[j].name == s
                           && (forall l | j < l < |entries| && PlainFile(entries[l]) :: entries[l].name != s) ::
                  s in m && m[s] == entries[j].content)
    decreases |entries|
  {
    hide AddFile, PlainFile, Contains;
    if entries == [] {
    } else {
      var last := |entries| - 1;
      var front := entries[..last];
      PlainFiles(x, front, s);
      AddPlain(x, FilesOf(x, front).value, entries[last], s);
      assert forall j | 0 <= j < last :: front[j] == entries[j];
    }
  }

  /** `s` is one of the names under which the chain of this entry is stored. */
  ghost predicate ChainName(x: Codec, e: DirEntry, s: string) {
    && TsaFile(e) && Readable(x, e.content).Ok?
    && var n := |Readable(x, e.content).value|;
       exists i: nat :: i < n && s == NameAt(PREFIX, n, i)
  }

  lemma AddChain(x: Codec, m: Files, e: DirEntry, s: string)
    requires AddFile(x, m, e).Ok? && Contains(s, "tsa")
    ensures s in AddFile(x, m, e).value <==> s in m || ChainName(x, e, s)
  {
    hide Contains, SplitMap, ParseAll, NameAt, TrimSpace;
    if TsaFile(e) {
      var cs := Readable(x, e.content).value;
      SplitMapIsSplit(x, cs, |cs|);
    }
  }

  /** Among the names with "tsa", the files are exactly those that chains are split into. */
  lemma {:induction false} ChainFiles(x: Codec, entries: seq<DirEntry>, s: string)
    requires FilesOf(x, entries).Ok? && Contains(s, "tsa")
    ensures s in FilesOf(x, entries).value <==> exists j :: 0 <= j < |entries| && ChainName(x, entries[j], s)
    decreases |entries|
  {
    hide AddFile, ChainName, Contains;
    if entries == [] {
    } else {
      var last := |entries| - 1;
      var front := entries[..last];
      ChainFiles(x, front, s);
      AddChain(x, FilesOf(x, front).value, entries[last], s);
      assert forall j | 0 <= j < last :: front[j] == entries[j];
    }
  }

  lemma ChainNameRole(x: Codec, e: DirEntry, s: string)
    requires ChainName(x, e, s)
    ensures RoleOf(s) in {TsaLeaf, TsaIntermediate, TsaRoot}
  {
    var cs := Readable(x, e.content).value;
    hide RoleOf, TargetUsage, NameAt, ParseAll, Contains;
    var i: nat :| i < |cs| && s == NameAt(PREFIX, |cs|, i);
    EntryRole(x, cs, i);
  }

  /** A directory has no two entries of the same name. */
  ghost predicate DirectoryOk(entries: seq<DirEntry>) {
    forall i, j | 0 <= i < j < |entries| :: entries[i].name != entries[j].name
  }

  /** The files for log keys are plain files of the directory. */
  lemma KeyFiles(x: Codec, entries: seq<DirEntry>, t: Target)
    requires FilesOf(x, entries).Ok? && DirectoryOk(entries) && RoleOf(t.name) in {RekorKey, CtKey}
    ensures var m := FilesOf(x, entries).value;
            t.name in m && m[t.name] == t.value <==>
            exists j :: && 0 <= j < |entries| && PlainFile(entries[j])
                        && Named(entries[j].name, entries[j].content) == t
  {
    hide FilesOf, RoleOf, Contains, ChainName;
    if Contains(t.name, "tsa") {
      ChainFiles(x, entries, t.name);
      if j :| 0 <= j < |entries| && ChainName(x, entries[j], t.name) {
        ChainNameRole(x, entries[j], t.name);
      }
    } else {
      PlainFiles(x, entries, t.name);
    }
  }

  // ------------------------------------------------------------------------ end to end

  /** The only TSA-named entry is number `k`. */
  ghost predicate OneTsaFile(entries: seq<DirEntry>, k: nat) {
    && k < |entries| && TsaFile(entries[k])
    && forall j | 0 <= j < |entries| && j != k && Selected(entries[j]) ::
         !Contains(entries[j].name, "tsa") && TargetUsage(entries[j].name) != Tsa
  }

  /** Every TSA target of the map comes from the chain, and the whole chain is there. */
  ghost predicate HasChain(x: Codec, cs: seq<Certificate>, m: Files) {
    && (forall s | s in m && TargetUsage(s) == Tsa ::
          exists i: nat :: i < |cs| && EntryAt(x, cs, i) == Named(s, m[s]))
    && (forall i: nat | i < |cs| :: EntryAt(x, cs, i).name in m && m[EntryAt(x, cs, i).name] == EntryAt(x, cs, i).value)
  }

  ghost predicate NoTsaTargets(m: Files) {
    forall s | s in m :: TargetUsage(s) != Tsa
  }

  lemma SplitHasChain(x: Codec, cs: seq<Certificate>, m: Files)
    requires NoTsaTargets(m)
    ensures HasChain(x, cs, m + Trimmed(SplitMap(x, cs, |cs|)))
  {
    hide NameAt, EncodeCert, TrimSpace, TargetUsage, SplitMap;
    SplitMapIsSplit(x, cs, |cs|);
    var t := Trimmed(SplitMap(x, cs, |cs|));
    var r := m + t;
    forall s | s in r && TargetUsage(s) == Tsa
      ensures exists i: nat :: i < |cs| && EntryAt(x, cs, i) == Named(s, r[s])
    {
      assert s in t;
      var i: nat :| i < |cs| && s == NameAt(PREFIX, |cs|, i);
      assert EntryAt(x, cs, i) == Named(s, r[s]);
    }
  }

  lemma KeepsChain(x: Codec, cs: seq<Certificate>, m: Files, name: string, content: Bytes)
    requires HasChain(x, cs, m) && TargetUsage(name) != Tsa
    ensures HasChain(x, cs, m[name := content])
  {
    hide EntryAt, TargetUsage;
    forall i: nat | i < |cs|
      ensures EntryAt(x, cs, i).name != name
    {
      EntryRole(x, cs, i);
    }
  }

  lemma {:induction false} DirectoryHasChain(x: Codec, entries: seq<DirEntry>, k: nat, cs: seq<Certificate>, n: nat)
    requires OneTsaFile(entries, k) && Readable(x, entries[k].content) == Ok(cs) && n <= |entries|
    ensures FilesOf(x, entries[..n]).Ok?
    ensures var m := FilesOf(x, entries[..n]).value;
            if n <= k then NoTsaTargets(m) else HasChain(x, cs, m)
  {
    hide Readable, HasChain, TargetUsage, Contains, SplitMap, Trimmed;
    if n == 0 {
    } else {
      DirectoryHasChain(x, entries, k, cs, n - 1);
      assert entries[..n][..n - 1] == entries[..n - 1];
      var e := entries[n - 1];
      var m := FilesOf(x, entries[..n - 1]).value;
      if n - 1 == k {
        SplitHasChain(x, cs, m);
      } else if n - 1 > k && Selected(e) {
        KeepsChain(x, cs, m, e.name, e.content);
      }
    }
  }

  /** `listed` is one of the orders in which ranging over the map can list it. */
  ghost predicate Lists(listed: seq<Target>, m: Files) {
    && DistinctNames(listed)
    && forall s, v :: Named(s, v) in listed <==> s in m && m[s] == v
  }

  lemma ListedCarries(x: Codec, cs: seq<Certificate>, m: Files, listed: seq<Target>)
    requires HasChain(x, cs, m) && Lists(listed, m)
    ensures CarriesChain(x, cs, listed)
  {
    hide EntryAt, TargetUsage;
    forall t | t in listed && TargetUsage(t.name) == Tsa
      ensures exists i: nat :: i < |cs| && t == EntryAt(x, cs, i)
    {
      assert Named(t.name, t.value) in listed;
    }
    forall i: nat | i < |cs|
      ensures EntryAt(x, cs, i) in listed
    {
      var t := EntryAt(x, cs, i);
      assert Named(t.name, t.value) in listed;
    }
  }

  /** What the authority of a chain looks like after the pipeline. */
  ghost predicate CarriedOver(cs: seq<Certificate>, a: TsaAuthority)
    requires |cs| >= 2
  {
    && a.leaf == Some(cs[0]) && a.root == Some(cs[|cs| - 1])
    && |a.intermediates| == |cs| - 2
    && (forall c :: c in a.intermediates <==> c in cs[1..|cs| - 1])
    && (a.intermediates == cs[1..|cs| - 1] <==> |cs| - 2 <= 10)
    && a.start == cs[0].notBefore && a.end == cs[0].notAfter
  }

  /** From the directory to the trusted root: with one TSA chain file, the chain comes out
      with its leaf first and its root last for every map iteration order, and its
      intermediates are in the file's order exactly when there are at most ten. Building
      fails only for a log key or the Fulcio chain, never for the TSA chain. */
  lemma DirectoryToTrustedRoot(x: Codec, keyOf: KeyParser, entries: seq<DirEntry>, k: nat,
                               cs: seq<Certificate>, listed: seq<Target>, sorted: seq<Target>)
    requires Lawful(x) && OneTsaFile(entries, k)
    requires ParseAll(x, entries[k].content) == Ok(cs)
    requires |cs| >= 2 && Distinct(cs) && !cs[0].isCA
    requires FilesOf(x, entries).Ok? ==> Lists(listed, FilesOf(x, entries).value)
    requires Permutation(sorted, listed) && SortedByName(sorted)
    ensures FilesOf(x, entries).Ok?
    ensures var r := TrustedRootOf(x, keyOf, sorted);
            && (r.Ok? <==> FirstFailure(keyOf, sorted).None? && FulcioFrom(x, SlotsOf(keyOf, sorted)).Ok?)
            && (r.Err? ==> !r.error.TsaChain?)
            && (r.Ok? ==> r.value.tsa.Some? && CarriedOver(cs, r.value.tsa.value))
  {
    assert Readable(x, entries[k].content) == Ok(cs);
    ReadIsGenuine(x, TrimSpace(entries[k].content));
    assert AllGenuine(x, cs);
    hide SlotsOf, TsaFrom, FulcioFrom, FilesOf, Readable, ParseAll;
    DirectoryHasChain(x, entries, k, cs, |entries|);
    assert entries[..|entries|] == entries;
    ListedCarries(x, cs, FilesOf(x, entries).value, listed);
    TsaPipeline(x, keyOf, cs, listed, sorted);
    FailuresAreLogKeys(keyOf, sorted);
  }

  // ------------------------------------------------------------------- the program

  /** Ranging over the files map: targets in any order (repo.go:166-177). */
  method ListTargets(files: Files) returns (listed: seq<Target>)
    ensures Lists(listed, files)
  {
    listed := [];
    var todo := files.Keys;
    while todo != {}
      invariant todo <= files.Keys
      invariant DistinctNames(listed)
      invariant forall i | 0 <= i < |listed| :: listed[i].name in files.Keys - todo
      invariant forall s, v :: Named(s, v) in listed <==> s in files.Keys - todo && files[s] == v
      decreases todo
    {
      var k :| k in todo;
      ghost var before := listed;
      listed := listed + [Named(k, files[k])];
      todo := todo - {k};
      assert forall t :: t in listed <==> t in before || t == Named(k, files[k]);
    }
  }

  datatype InitError = BadChainFile(split: SplitError) | NoTrustedRoot(cause: Failure)

  /** `r` is what the sorted targets of `m` lead to. */
  ghost predicate TrustedRootFor(x: Codec, keyOf: KeyParser, m: Files, r: Result<TrustedRoot, InitError>) {
    exists listed: seq<Target>, sorted: seq<Target> ::
      && Lists(listed, m) && Permutation(sorted, listed) && SortedByName(sorted)
      && match TrustedRootOf(x, keyOf, sorted)
         case Ok(t) => r == Ok(t)
         case Err(e) => r == Err(NoTrustedRoot(e))
  }

  /** From the directory listing to the trusted root. */
  method InitTrustedRoot(x: Codec, keyOf: KeyParser, entries: seq<DirEntry>) returns (r: Result<TrustedRoot, InitError>)
    ensures match FilesOf(x, entries)
            case Err(e) => r == Err(BadChainFile(e))
            case Ok(m) => TrustedRootFor(x, keyOf, m, r)
  {
    hide FilesOf, TrustedRootOf, Lists, Permutation, SortedByName;
    var files := BuildFiles(x, entries);
    if files.Err? {
      return Err(BadChainFile(files.error));
    }
    var listed := ListTargets(files.value);
    var targets := new Target[|listed|](i requires 0 <= i < |listed| => listed[i]);
    assert targets[..] == listed;
    var t := ConstructTrustedRoot(x, keyOf, targets);
    ghost var sorted := targets[..];
    r := if t.Ok? then Ok(t.value) else Err(NoTrustedRoot(t.error));
    assert TrustedRootFor(x, keyOf, files.value, r);
  }

  /** The trusted root is a function of the directory: the map's iteration order and the
      sorting algorithm leave no trace in it. */
  lemma TrustedRootUnique(x: Codec, keyOf: KeyParser, m: Files,
                          r: Result<TrustedRoot, InitError>, q: Result<TrustedRoot, InitError>)
    requires TrustedRootFor(x, keyOf, m, r) && TrustedRootFor(x, keyOf, m, q)
    ensures r == q
  {
    var la: seq<Target>, sa: seq<Target> :|
      && Lists(la, m) && Permutation(sa, la) && SortedByName(sa)
      && match TrustedRootOf(x, keyOf, sa)
         case Ok(t) => r == Ok(t)
         case Err(e) => r == Err(NoTrustedRoot(e));
    var lb: seq<Target>, sb: seq<Target> :|
      && Lists(lb, m) && Permutation(sb, lb) && SortedByName(sb)
      && match TrustedRootOf(x, keyOf, sb)
         case Ok(t) => q == Ok(t)
         case Err(e) => q == Err(NoTrustedRoot(e));
    hide TrustedRootOf;
    PermutationDistinct(la, sa);
    PermutationDistinct(lb, sb);
    SortedDistinctIsStrict(sa);
    SortedDistinctIsStrict(sb);
    SameListing(la, lb, m);
    PermutationMembers(sa, la);
    PermutationMembers(sb, lb);
    SortedUnique(sa, sb);
  }

  lemma SameListing(a: seq<Target>, b: seq<Target>, m: Files)
    requires Lists(a, m) && Lists(b, m)
    ensures forall t :: t in a <==> t in b
  {
    forall t
      ensures t in a <==> t in b
    {
      assert t == Named(t.name, t.value);
    }
  }

  /** The same for what the program returns. */
  lemma ProgramCarriesChain(x: Codec, keyOf: KeyParser, entries: seq<DirEntry>, k: nat, cs: seq<Certificate>,
                            r: Result<TrustedRoot, InitError>)
    requires Lawful(x) && OneTsaFile(entries, k)
    requires ParseAll(x, entries[k].content) == Ok(cs)
    requires |cs| >= 2 && Distinct(cs) && !cs[0].isCA
    requires FilesOf(x, entries).Ok? ==> TrustedRootFor(x, keyOf, FilesOf(x, entries).value, r)
    ensures FilesOf(x, entries).Ok?
    ensures r.Err? ==> r.error.NoTrustedRoot? && !r.error.cause.TsaChain?
    ensures r.Ok? ==> r.value.tsa.Some? && CarriedOver(cs, r.value.tsa.value)
  {
    assert FilesOf(x, entries).Ok? by {
      hide Contains, ParseAll, TargetUsage;
      AcceptedIff(x, entries);
      assert forall i | 0 <= i < |entries| && TsaFile(entries[i]) :: i == k;
    }
    hide FilesOf, TrustedRootOf, ParseAll, OneTsaFile, FirstFailure, FulcioFrom;
    var listed: seq<Target>, sorted: seq<Target> :|
      && Lists(listed, FilesOf(x, entries).value) && Permutation(sorted, listed) && SortedByName(sorted)
      && match TrustedRootOf(x, keyOf, sorted)
         case Ok(t) => r == Ok(t)
         case Err(e) => r == Err(NoTrustedRoot(e));
    DirectoryToTrustedRoot(x, keyOf, entries, k, cs, listed, sorted);
  }

  /** The entry is a plain file with the key of this id, named for the log. */
  ghost predicate HoldsKey(keyOf: KeyParser, origin: string, role: Role, e: DirEntry, id: string) {
    PlainFile(e) && RoleOf(e.name) == role && HasId(keyOf, origin, Named(e.name, e.content), id)
  }

  /** The logs listed are those of the entries that hold a key for them. */
  ghost predicate LogsFrom(keyOf: KeyParser, origin: string, base: string, role: Role, entries: seq<DirEntry>,
                           logs: map<string, Log>, id: string)
  {
    && (id in logs <==> exists j :: 0 <= j < |entries| && HoldsKey(keyOf, origin, role, entries[j], id))
    && (id in logs ==>
        exists j :: && 0 <= j < |entries| && HoldsKey(keyOf, origin, role, entries[j], id)
                    && logs[id] == Log(base, keyOf(origin, entries[j].content).key))
  }

  lemma LogsOfEntries(keyOf: KeyParser, origin: string, base: string, role: Role, entries: seq<DirEntry>,
                      ts: seq<Target>, id: string)
    requires SortedByName(ts) && DistinctNames(ts)
    requires forall t: Target | RoleOf(t.name) == role ::
               t in ts <==> exists j :: && 0 <= j < |entries| && PlainFile(entries[j])
                                        && Named(entries[j].name, entries[j].content) == t
    ensures LogsFrom(keyOf, origin, base, role, entries, Logs(keyOf, origin, base, WithRole(role, ts)), id)
  {
    hide RoleOf, PlainFile, Logs, WithRole, Less;
    var logs := Logs(keyOf, origin, base, WithRole(role, ts));
    RoleLogs(role, keyOf, origin, base, ts, id);
    hide SortedByName, DistinctNames;
    if id in logs {
      var t :| DecidesLog(keyOf, origin, role, ts, t, id) && logs[id] == Log(base, keyOf(origin, t.value).key);
      var j :| && 0 <= j < |entries| && PlainFile(entries[j])
               && Named(entries[j].name, entries[j].content) == t;
      assert HoldsKey(keyOf, origin, role, entries[j], id);
    }
    if j :| 0 <= j < |entries| && HoldsKey(keyOf, origin, role, entries[j], id) {
      assert Named(entries[j].name, entries[j].content) in ts;
    }
  }

  /** The program trusts exactly the log keys in the plain files that are named for Rekor
      and for the CT log, each with the address of its log. */
  lemma ProgramLogKeys(x: Codec, keyOf: KeyParser, entries: seq<DirEntry>, root: TrustedRoot, id: string)
    requires FilesOf(x, entries).Ok? && DirectoryOk(entries)
    requires TrustedRootFor(x, keyOf, FilesOf(x, entries).value, Ok(root))
    ensures LogsFrom(keyOf, REKOR_URL, "http://" + REKOR_URL, RekorKey, entries, root.rekor, id)
    ensures LogsFrom(keyOf, CTLOG_URL, "", CtKey, entries, root.ctlog, id)
  {
    hide *;
    var sorted := SortedFiles(x, keyOf, FilesOf(x, entries).value, root);
    LogsOfRoot(x, keyOf, sorted);
    EntriesOfRole(x, entries, sorted, RekorKey);
    EntriesOfRole(x, entries, sorted, CtKey);
    RekorAddress();
    LogsOfEntries(keyOf, REKOR_URL, REKOR_BASE, RekorKey, entries, sorted, id);
    LogsOfEntries(keyOf, CTLOG_URL, "", CtKey, entries, sorted, id);
  }

  lemma RekorAddress()
    ensures REKOR_BASE == "http://" + REKOR_URL
  {
  }

  /** Among the targets made from a directory, those for a log are its plain files. */
  lemma EntriesOfRole(x: Codec, entries: seq<DirEntry>, ts: seq<Target>, role: Role)
    requires FilesOf(x, entries).Ok? && DirectoryOk(entries) && role in {RekorKey, CtKey}
    requires forall t: Target :: t in ts <==>
               t.name in FilesOf(x, entries).value && FilesOf(x, entries).value[t.name] == t.value
    ensures forall t: Target | RoleOf(t.name) == role ::
              t in ts <==> exists j :: && 0 <= j < |entries| && PlainFile(entries[j])
                                       && Named(entries[j].name, entries[j].content) == t
  {
    hide *;
    forall t: Target | RoleOf(t.name) == role
      ensures t in ts <==> exists j :: && 0 <= j < |entries| && PlainFile(entries[j])
                                       && Named(entries[j].name, entries[j].content) == t
    {
      KeyFiles(x, entries, t);
    }
  }

  /** The sorted targets a trusted root was made from. */
  lemma SortedFiles(x: Codec, keyOf: KeyParser, m: Files, root: TrustedRoot) returns (sorted: seq<Target>)
    requires TrustedRootFor(x, keyOf, m, Ok(root))
    ensures SortedByName(sorted) && DistinctNames(sorted) && TrustedRootOf(x, keyOf, sorted) == Ok(root)
    ensures forall t: Target :: t in sorted <==> t.name in m && m[t.name] == t.value
  {
    hide TrustedRootOf;
    var r: Result<TrustedRoot, InitError> := Ok(root);
    var listed: seq<Target>, ts: seq<Target> :|
      && Lists(listed, m) && Permutation(ts, listed) && SortedByName(ts)
      && match TrustedRootOf(x, keyOf, ts)
         case Ok(t) => r == Ok(t)
         case Err(e) => r == Err(NoTrustedRoot(e));
    sorted := ts;
    PermutationDistinct(listed, sorted);
    forall t: Target
      ensures t in sorted <==> t.name in m && m[t.name] == t.value
    {
      PermutationMembers(sorted, listed);
      assert t == Named(t.name, t.value);
    }
  }

  lemma LogsOfRoot(x: Codec, keyOf: KeyParser, ts: seq<Target>)
    requires TrustedRootOf(x, keyOf, ts).Ok?
    ensures TrustedRootOf(x, keyOf, ts).value.rekor == Logs(keyOf, REKOR_URL, REKOR_BASE, WithRole(RekorKey, ts))
    ensures TrustedRootOf(x, keyOf, ts).value.ctlog == Logs(keyOf, CTLOG_URL, "", WithRole(CtKey, ts))
  {
    hide FirstFailure, FulcioFrom, TsaFrom, Logs, WithRole;
  }
}
