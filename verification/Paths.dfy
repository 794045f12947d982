/** Slash-separated paths: filepath.Clean and filepath.Join, and the two checks that
    Uncompress makes on entry names (tools/tuf/pkg/repo/repo.go). */
module Paths {
  import opened Strings

  /** A cleaned path, as its components. */
  type Path = seq<string>

  // ------------------------------------------------------------ splitting and joining

  function Split(s: string): (r: seq<string>)
    ensures r != []
    ensures forall i | 0 <= i < |r| :: '/' !in r[i]
  {
    if s == "" then [""]
    else if s[0] == '/' then [""] + Split(s[1..])
    else
      var r := Split(s[1..]);
      [[s[0]] + r[0]] + r[1..]
  }

  /** The components with a slash between them. */
  function JoinSlash(cs: seq<string>): string
    requires cs != []
  {
    if |cs| == 1 then cs[0] else cs[0] + ("/" + JoinSlash(cs[1..]))
  }

  predicate SlashFree(cs: seq<string>) {
    forall i | 0 <= i < |cs| :: '/' !in cs[i]
  }

  lemma {:induction false} JoinSplit(s: string)
    ensures JoinSlash(Split(s)) == s
  {
    hide Split, JoinSlash;
    if s == "" {
      SplitEmpty();
    } else {
      JoinSplit(s[1..]);
      SplitStep(s);
      JoinFirst(Split(s[1..]), s[0]);
      assert s == [s[0]] + s[1..];
      assert s[0] == '/' ==> s == "" + ("/" + s[1..]);
    }
  }

  lemma SplitEmpty()
    ensures Split("") == [""] && JoinSlash([""]) == ""
  {
  }

  /** What one more character in front does to a joined path. */
  lemma JoinFirst(r: seq<string>, c: char)
    requires r != []
    ensures JoinSlash([""] + r) == "" + ("/" + JoinSlash(r))
    ensures JoinSlash([[c] + r[0]] + r[1..]) == [c] + JoinSlash(r)
  {
    assert ([""] + r)[1..] == r;
    assert ([[c] + r[0]] + r[1..])[1..] == r[1..];
    if |r| > 1 {
      assert ([c] + r[0]) + ("/" + JoinSlash(r[1..])) == [c] + (r[0] + ("/" + JoinSlash(r[1..])));
    }
  }

  lemma {:induction false} SplitSlash(c: string, t: string)
    requires '/' !in c
    ensures Split(c + ("/" + t)) == [c] + Split(t)
    decreases |c|
  {
    var s := c + ("/" + t);
    if c == "" {
      assert s[1..] == t;
    } else {
      assert s[1..] == c[1..] + ("/" + t);
      SplitSlash(c[1..], t);
      assert [c[0]] + c[1..] == c;
    }
  }

  lemma {:induction false} SplitPlain(c: string)
    requires '/' !in c
    ensures Split(c) == [c]
    decreases |c|
  {
    if c == "" {
    } else {
      SplitPlain(c[1..]);
      assert [c[0]] + c[1..] == c;
    }
  }

  lemma {:induction false} SplitJoin(cs: seq<string>)
    requires cs != [] && SlashFree(cs)
    ensures Split(JoinSlash(cs)) == cs
  {
    if |cs| == 1 {
      SplitPlain(cs[0]);
    } else {
      SplitJoin(cs[1..]);
      SplitSlash(cs[0], JoinSlash(cs[1..]));
      assert cs == [cs[0]] + cs[1..];
    }
  }

  /** Joining two strings with a slash joins their components. */
  lemma {:induction false} SplitConcat(a: string, b: string)
    ensures Split(a + ("/" + b)) == Split(a) + Split(b)
    decreases |a|
  {
    var s := a + ("/" + b);
    if a == "" {
      SplitSlash("", b);
      SplitPlain("");
    } else {
      hide Split;
      assert s[0] == a[0] && s[1..] == a[1..] + ("/" + b);
      SplitConcat(a[1..], b);
      SplitStep(a);
      SplitStep(s);
      PrependAppend(Split(a[1..]), Split(b), [a[0]]);
    }
  }

  lemma PrependAppend(r: seq<string>, t: seq<string>, c: string)
    requires r != []
    ensures [""] + (r + t) == ([""] + r) + t
    ensures [c + (r + t)[0]] + (r + t)[1..] == ([c + r[0]] + r[1..]) + t
  {
    assert (r + t)[1..] == r[1..] + t;
  }

  lemma SplitStep(s: string)
    requires s != ""
    ensures var r := Split(s[1..]);
            Split(s) == if s[0] == '/' then [""] + r else [[s[0]] + r[0]] + r[1..]
  {
  }

  // ------------------------------------------------------------------------ cleaning

  predicate Ordinary(c: string) {
    c != "" && c != "." && c != ".."
  }

  predicate Absolute(s: string) {
    s != "" && s[0] == '/'
  }

  /** One component of a path: ".." at the root stays there, and in a relative path it is
      kept when there is nothing to leave. */
  function Enter(rooted: bool, at: Path, c: string): Path {
    if c == "" || c == "." then at
    else if c != ".." then at + [c]
    else if !rooted && (at == [] || at[|at| - 1] == "..") then at + [c]
    else if at == [] then []
    else at[..|at| - 1]
  }

  function Resolve(rooted: bool, at: Path, cs: seq<string>): Path
    decreases |cs|
  {
    if cs == [] then at else Enter(rooted, Resolve(rooted, at, cs[..|cs| - 1]), cs[|cs| - 1])
  }

  function Components(s: string): Path {
    Resolve(Absolute(s), [], Split(s))
  }

  /** The string form of a cleaned path. */
  function Render(rooted: bool, p: Path): string {
    if p == [] then (if rooted then "/" else ".")
    else if rooted then Slashed(p)
    else
      SlashedStart(p);
      Slashed(p)[1..]
  }

  function Slashed(p: Path): string
    decreases |p|
  {
    if p == [] then "" else Slashed(p[..|p| - 1]) + ("/" + p[|p| - 1])
  }

  function Clean(s: string): string {
    Render(Absolute(s), Components(s))
  }

  /** What filepath.Join cleans for a destination and a non-empty name: an empty
      destination is left out. */
  function Joined(dst: string, name: string): string {
    if dst == "" then name else dst + ("/" + name)
  }

  function Join(dst: string, name: string): string {
    Clean(Joined(dst, name))
  }

  lemma {:induction false} ResolveAppend(rooted: bool, at: Path, a: seq<string>, b: seq<string>)
    ensures Resolve(rooted, at, a + b) == Resolve(rooted, Resolve(rooted, at, a), b)
    decreases |b|
  {
    if b == [] {
      assert a + b == a;
    } else {
      assert (a + b)[..|a + b| - 1] == a + b[..|b| - 1];
      ResolveAppend(rooted, at, a, b[..|b| - 1]);
    }
  }

  /** A relative name continues the destination's components. */
  lemma JoinComponents(dst: string, name: string)
    requires !Absolute(name)
    ensures Absolute(Joined(dst, name)) == Absolute(dst)
    ensures Components(Joined(dst, name)) == Resolve(Absolute(dst), Components(dst), Split(name))
  {
    if dst == "" {
      SplitEmpty();
      assert [""][..0] == [];
      assert Components("") == [];
    } else {
      SplitConcat(dst, name);
      ResolveAppend(Absolute(dst), [], Split(dst), Split(name));
    }
  }

  /** Cleaned components: none is empty or ".", and an absolute path has no "..". */
  predicate PartsOk(rooted: bool, p: Path) {
    forall i | 0 <= i < |p| :: p[i] != "" && p[i] != "." && (rooted ==> p[i] != "..")
  }

  lemma {:induction false} ResolvedParts(rooted: bool, at: Path, cs: seq<string>)
    requires PartsOk(rooted, at)
    ensures PartsOk(rooted, Resolve(rooted, at, cs))
    decreases |cs|
  {
    if cs == [] {
    } else {
      ResolvedParts(rooted, at, cs[..|cs| - 1]);
    }
  }

  lemma {:induction false} SlashedAppend(p: Path, q: Path)
    ensures Slashed(p + q) == Slashed(p) + Slashed(q)
    decreases |q|
  {
    if q == [] {
      assert p + q == p;
    } else {
      assert (p + q)[..|p + q| - 1] == p + q[..|q| - 1];
      SlashedAppend(p, q[..|q| - 1]);
    }
  }

  lemma {:induction false} SlashedStart(q: Path)
    requires q != []
    ensures Slashed(q) != "" && Slashed(q)[0] == '/'
    decreases |q|
  {
    if |q| == 1 {
    } else {
      SlashedStart(q[..|q| - 1]);
    }
  }

  /** Below a path, the string form starts with the path's, unless that is ".". */
  lemma RenderBelow(rooted: bool, p: Path, q: Path)
    requires rooted || p != []
    ensures Render(rooted, p) <= Render(rooted, p + q)
  {
    hide Slashed;
    SlashedAppend(p, q);
    if p == [] {
      assert p + q == q;
      if q != [] {
        SlashedStart(q);
      }
    } else {
      SlashedStart(p);
    }
  }

  /** One level up, the string form does not. */
  lemma RenderAbove(rooted: bool, p: Path)
    requires p != [] && PartsOk(rooted, p)
    ensures !(Render(rooted, p) <= Render(rooted, p[..|p| - 1]))
  {
    var front, last := p[..|p| - 1], p[|p| - 1];
    assert |last| > 0;
    SlashedStart(p);
    if front == [] {
      assert Slashed(p) == "/" + last;
    } else {
      SlashedStart(front);
    }
  }

  /** What starts with "." when rendered from the current directory. */
  lemma RenderDot(p: Path)
    requires PartsOk(false, p)
    ensures "." <= Render(false, p) <==> p == [] || p[0][0] == '.'
  {
    if p != [] {
      assert p == [p[0]] + p[1..];
      SlashedAppend([p[0]], p[1..]);
      assert [p[0]][..0] == [];
      assert Slashed([p[0]]) == "/" + p[0] && p[0] != "";
      SlashedStart(p);
      var r := Render(false, p);
      assert r[0] == Slashed(p)[1] == p[0][0];
      assert "."[0] == '.';
    }
  }

  // ------------------------------------------------------------------- the name checks

  /** validRelPath. */
  predicate ValidRelPath(p: string) {
    !(p == "" || Contains(p, "\\") || "/" <= p || Contains(p, "../"))
  }

  /** The check at repo.go:636. */
  predicate PrefixCheck(dst: string, name: string) {
    Clean(dst) <= Join(dst, name)
  }

  lemma DotsFound(c: string, t: string, i: nat)
    requires '/' !in c && i + 3 <= |c + ("/" + t)| && (c + ("/" + t))[i..i + 3] == "../"
    ensures HasSuffix(c, "..") || Contains(t, "../")
  {
    hide IndexOf;
    var s := c + ("/" + t);
    var found := s[i..i + 3];
    assert found[0] == s[i] == '.' && found[1] == s[i + 1] == '.' && found[2] == s[i + 2] == '/';
    assert s[|c|] == '/';
    if i + 2 == |c| {
      assert c[|c| - 2..] == "..";
    } else {
      var j := i - |c| - 1;
      assert j >= 0;
      assert t[j..j + 3] == found;
      ContainsAt(t, "../", j);
    }
  }

  lemma DotsHere(c: string, t: string)
    requires '/' !in c
    ensures Contains(c + ("/" + t), "../") <==> HasSuffix(c, "..") || Contains(t, "../")
  {
    var s := c + ("/" + t);
    var i, j := IndexOf(s, "../"), IndexOf(t, "../");
    hide IndexOf;
    if i >= 0 {
      DotsFound(c, t, i);
    }
    if HasSuffix(c, "..") {
      assert s[|c| - 2..|c| - 2 + 3] == "../";
      ContainsAt(s, "../", |c| - 2);
    }
    if j >= 0 {
      var k := |c| + 1 + j;
      assert s[k..k + 3] == t[j..j + 3];
      ContainsAt(s, "../", k);
    }
  }

  lemma NoDotsSlash(c: string)
    requires '/' !in c
    ensures !Contains(c, "../")
  {
    if Contains(c, "../") {
      assert "../"[2] == '/';
      ContainsChars(c, "../", '/');
    }
  }

  /** "../" occurs in a joined path exactly when a component before the last ends in "..". */
  lemma {:induction false} DotsInside(cs: seq<string>)
    requires cs != [] && SlashFree(cs)
    ensures Contains(JoinSlash(cs), "../") <==> exists i :: 0 <= i < |cs| - 1 && HasSuffix(cs[i], "..")
    decreases |cs|
  {
    hide Contains, HasSuffix;
    if |cs| == 1 {
      NoDotsSlash(cs[0]);
    } else {
      DotsInside(cs[1..]);
      DotsHere(cs[0], JoinSlash(cs[1..]));
      assert forall i | 0 <= i < |cs| - 1 :: cs[1..][i] == cs[i + 1];
      if exists i :: 0 <= i < |cs| - 1 && HasSuffix(cs[i], "..") {
        var i :| 0 <= i < |cs| - 1 && HasSuffix(cs[i], "..");
        if i > 0 {
          assert HasSuffix(cs[1..][i - 1], "..");
        }
      }
    }
  }

  /** The ordinary components. */
  function Kept(cs: seq<string>): (r: seq<string>)
    ensures forall c :: c in r <==> c in cs && Ordinary(c)
    decreases |cs|
  {
    if cs == [] then []
    else Kept(cs[..|cs| - 1]) + if Ordinary(cs[|cs| - 1]) then [cs[|cs| - 1]] else []
  }

  lemma {:induction false} ResolveKept(rooted: bool, at: Path, cs: seq<string>)
    requires forall c | c in cs :: c != ".."
    ensures Resolve(rooted, at, cs) == at + Kept(cs)
    decreases |cs|
  {
    if cs != [] {
      var front := cs[..|cs| - 1];
      assert cs[|cs| - 1] in cs && forall c | c in front :: c in cs;
      ResolveKept(rooted, at, front);
    } else {
      assert at + [] == at;
    }
  }

  /** Where a valid name leads: below the destination, one level up from there if the name
      ends in "..". */
  lemma ValidResolve(rooted: bool, at: Path, name: string)
    requires ValidRelPath(name)
    ensures var cs := Split(name);
            var front := cs[..|cs| - 1];
            Resolve(rooted, at, cs) == Enter(rooted, at + Kept(front), cs[|cs| - 1])
  {
    hide Split, Kept, ValidRelPath;
    var cs := Split(name);
    var front := cs[..|cs| - 1];
    forall c | c in front
      ensures c != ".."
    {
      var i :| 0 <= i < |front| && front[i] == c;
      ValidFront(name, i);
    }
    ResolveKept(rooted, at, front);
  }

  lemma ValidFront(name: string, i: nat)
    requires ValidRelPath(name) && i < |Split(name)| - 1
    ensures Split(name)[i] != ".."
  {
    var cs := Split(name);
    JoinSplit(name);
    DotsInside(cs);
    assert !HasSuffix(cs[i], "..");
    assert HasSuffix("..", "..");
  }

  lemma BackslashIn(s: string)
    ensures Contains(s, "\\") <==> '\\' in s
  {
    if '\\' in s {
      var i :| 0 <= i < |s| && s[i] == '\\';
      assert s[i..i + 1] == "\\";
      ContainsAt(s, "\\", i);
    }
    if Contains(s, "\\") {
      ContainsChars(s, "\\", '\\');
    }
  }

  /** The accepted names: not empty, no backslash, not absolute, and no component but the
      last ends in "..". */
  lemma ValidExact(name: string)
    ensures var cs := Split(name);
            ValidRelPath(name) <==>
            && name != "" && '\\' !in name && !Absolute(name)
            && forall i | 0 <= i < |cs| - 1 :: !HasSuffix(cs[i], "..")
  {
    hide Contains, HasSuffix;
    JoinSplit(name);
    DotsInside(Split(name));
    BackslashIn(name);
  }

  /** A name with no ordinary component that ends in "..". */
  predicate LeadsOut(name: string) {
    var cs := Split(name);
    cs[|cs| - 1] == ".." && forall i | 0 <= i < |cs| :: !Ordinary(cs[i])
  }

  lemma KeptEmpty(cs: seq<string>)
    requires cs != []
    ensures Kept(cs[..|cs| - 1]) == [] <==> forall i | 0 <= i < |cs| - 1 :: !Ordinary(cs[i])
  {
    var front := cs[..|cs| - 1];
    if Kept(front) != [] {
      assert Kept(front)[0] in Kept(front);
      var i :| 0 <= i < |front| && front[i] == Kept(front)[0];
      assert cs[i] == front[i];
    }
    if i :| 0 <= i < |cs| - 1 && Ordinary(cs[i]) {
      assert front[i] in front;
      assert front[i] in Kept(front);
    }
  }

  /** Relative destinations with nothing to leave: the current directory and those that end
      in "..". */
  predicate Loose(dst: string) {
    var at := Components(dst);
    !Absolute(dst) && (at == [] || at[|at| - 1] == "..")
  }

  /** `t` is `at` or below it. */
  predicate Inside(at: Path, t: Path) {
    at <= t && forall i | |at| <= i < |t| :: t[i] != ".."
  }

  /** What the prefix check does with a valid name, for every destination. From the root and
      from a relative destination that ends in ".." it accepts everything; from the current
      directory exactly the targets whose string starts with "."; from any other
      destination it rejects exactly the names that lead out. What it accepts is, component
      by component, at or below the destination, except for the names that lead out of a
      loose destination. */
  lemma PrefixCheckExact(dst: string, name: string)
    requires ValidRelPath(name)
    ensures var at, t := Components(dst), Components(Joined(dst, name));
            && (at != [] && !Loose(dst) ==> (!PrefixCheck(dst, name) <==> LeadsOut(name)))
            && (at == [] && Absolute(dst) ==> PrefixCheck(dst, name))
            && (at != [] && Loose(dst) ==> PrefixCheck(dst, name))
            && (at == [] && Loose(dst) ==> (PrefixCheck(dst, name) <==> t == [] || "." <= t[0]))
            && (PrefixCheck(dst, name) ==> (Inside(at, t) <==> !(Loose(dst) && LeadsOut(name))))
  {
    ValidExact(name);
    hide Render, Resolve, Kept, ValidRelPath, LeadsOut, PartsOk, Enter, Inside, Split, HasSuffix, Joined;
    var rooted, at, cs := Absolute(dst), Components(dst), Split(name);
    JoinComponents(dst, name);
    ValidResolve(rooted, at, name);
    assert PartsOk(rooted, []) by {
      NoParts(rooted);
    }
    ResolvedParts(rooted, [], Split(dst));
    ResolvedParts(rooted, at, Split(name));
    LeadsOutIff(name);
    KeptOrdinary(cs[..|cs| - 1]);
    CheckAt(rooted, at, Kept(cs[..|cs| - 1]), cs[|cs| - 1]);
  }

  lemma NoParts(rooted: bool)
    ensures PartsOk(rooted, [])
  {
  }

  lemma KeptOrdinary(cs: seq<string>)
    ensures forall i | 0 <= i < |Kept(cs)| :: Ordinary(Kept(cs)[i])
  {
    hide Ordinary;
    assert forall i | 0 <= i < |Kept(cs)| :: Kept(cs)[i] in Kept(cs);
  }

  lemma CheckAt(rooted: bool, at: Path, kept: seq<string>, last: string)
    requires PartsOk(rooted, at) && PartsOk(rooted, Enter(rooted, at + kept, last))
    requires forall i | 0 <= i < |kept| :: Ordinary(kept[i])
    ensures var t := Enter(rooted, at + kept, last);
            var loose := !rooted && (at == [] || at[|at| - 1] == "..");
            var out := last == ".." && kept == [];
            && (at != [] && !loose ==> (!(Render(rooted, at) <= Render(rooted, t)) <==> out))
            && ((rooted && at == []) || (loose && at != []) ==> Render(rooted, at) <= Render(rooted, t))
            && (at == [] && loose ==> (Render(rooted, at) <= Render(rooted, t) <==> t == [] || "." <= t[0]))
            && (Render(rooted, at) <= Render(rooted, t) ==> (Inside(at, t) <==> !(loose && out)))
  {
    hide Render;
    var t := Enter(rooted, at + kept, last);
    if last == ".." && kept == [] {
      assert at + kept == at;
      if at == [] {
        NothingAbove();
        assert t == if rooted then [] else [".."];
        assert ".."[..1] == ".";
      } else if !rooted && at[|at| - 1] == ".." {
        RenderBelow(rooted, at, [".."]);
        assert t[|at|] == "..";
      } else {
        RenderAbove(rooted, at);
      }
    } else {
      StaysBelow(rooted, at, kept, last);
      assert t == at + t[|at|..];
      if rooted || at != [] {
        RenderBelow(rooted, at, t[|at|..]);
      } else {
        NothingAbove();
        RenderDot(t);
      }
    }
  }

  lemma NothingAbove()
    ensures Render(false, []) == "." && Render(false, [".."]) == ".."
    ensures Render(true, []) == "/"
  {
    assert [".."][..0] == [];
    assert Slashed([".."]) == "/..";
  }

  lemma LeadsOutIff(name: string)
    ensures LeadsOut(name) <==>
            Split(name)[|Split(name)| - 1] == ".." && Kept(Split(name)[..|Split(name)| - 1]) == []
  {
    hide Split, Kept;
    KeptEmpty(Split(name));
  }

  lemma StaysBelow(rooted: bool, at: Path, kept: seq<string>, last: string)
    requires last != ".." || kept != []
    requires forall i | 0 <= i < |kept| :: Ordinary(kept[i])
    ensures Inside(at, Enter(rooted, at + kept, last))
  {
  }
}
