/** Building the trusted root from named targets (constructTrustedRoot and the functions it
    calls in tools/tuf/pkg/repo/repo.go). */
module TrustedRoots {
  import opened Wrappers
  import opened Strings
  import opened Sorting
  import opened Pem
  import opened PemText
  import opened PemConcat

  type Target = Named<Bytes>

  // --------------------------------------------------------------- classification

  datatype Usage = Fulcio | Rekor | Ctfe | Tsa | Unknown

  /** getTargetUsage: the first known target type the lower-cased name contains. */
  function TargetUsage(name: string): Usage {
    var lower := ToLower(name);
    if Contains(lower, "fulcio") then Fulcio
    else if Contains(lower, "rekor") then Rekor
    else if Contains(lower, "ctfe") then Ctfe
    else if Contains(lower, "tsa") then Tsa
    else Unknown
  }

  /** `word` occurs in the name, in whatever case. */
  ghost predicate Mentions(name: string, word: string) {
    exists before, found, after :: name == before + found + after && ToLower(found) == word
  }

  lemma LowerSlice(name: string, i: nat, j: nat)
    requires i <= j <= |name|
    ensures ToLower(name)[i..j] == ToLower(name[i..j])
  {
  }

  lemma MentionsIff(name: string, word: string)
    ensures Contains(ToLower(name), word) <==> Mentions(name, word)
  {
    hide ToLowerChar;
    var lower := ToLower(name);
    if Contains(lower, word) {
      var i := IndexOf(lower, word);
      var found := name[i..i + |word|];
      assert name == name[..i] + found + name[i + |word|..];
      LowerSlice(name, i, i + |word|);
    }
    if before, found, after :| name == before + found + after && ToLower(found) == word {
      var i := |before|;
      LowerSlice(name, i, i + |word|);
      assert name[i..i + |word|] == found;
      ContainsAt(lower, word, i);
    }
  }

  datatype Role =
    | FulcioIntermediate | FulcioRoot
    | TsaLeaf | TsaIntermediate | TsaRoot
    | RekorKey | CtKey | Ignored

  function RoleOf(name: string): Role {
    match TargetUsage(name)
    case Fulcio => if Contains(name, "intermediate") then FulcioIntermediate else FulcioRoot
    case Tsa =>
      if Contains(name, "leaf") then TsaLeaf
      else if Contains(name, "intermediate") then TsaIntermediate
      else TsaRoot
    case Rekor => RekorKey
    case Ctfe => CtKey
    case Unknown => Ignored
  }

  /** The role of every name, by the words in it: "fulcio" goes before "rekor", "rekor"
      before "ctfe", "ctfe" before "tsa", and each of them in any case; "leaf" and
      "intermediate" count only as written. */
  lemma RoleByWords(name: string)
    ensures var fulcio, rekor := Mentions(name, "fulcio"), Mentions(name, "rekor");
            var ctfe, tsa := Mentions(name, "ctfe"), Mentions(name, "tsa");
            && (RoleOf(name) == FulcioRoot <==> fulcio && !Contains(name, "intermediate"))
            && (RoleOf(name) == FulcioIntermediate <==> fulcio && Contains(name, "intermediate"))
            && (RoleOf(name) == RekorKey <==> rekor && !fulcio)
            && (RoleOf(name) == CtKey <==> ctfe && !rekor && !fulcio)
            && (RoleOf(name) in {TsaLeaf, TsaIntermediate, TsaRoot} <==> tsa && !ctfe && !rekor && !fulcio)
            && (RoleOf(name) == Ignored <==> !tsa && !ctfe && !rekor && !fulcio)
  {
    hide Contains, Mentions;
    MentionsIff(name, "fulcio");
    MentionsIff(name, "rekor");
    MentionsIff(name, "ctfe");
    MentionsIff(name, "tsa");
  }

  /** The targets of a basic set-up. */
  lemma DefaultRoles()
    ensures RoleOf("fulcio_v1.crt.pem") == FulcioRoot
    ensures RoleOf("rekor.pub") == RekorKey
    ensures RoleOf("ctfe.pub") == CtKey
  {
    hide RoleOf, Contains, Mentions;
    FulcioWords();
    RekorWords();
    CtfeWords();
    RoleByWords("fulcio_v1.crt.pem");
    RoleByWords("rekor.pub");
    RoleByWords("ctfe.pub");
  }

  lemma FulcioWords()
    ensures Mentions("fulcio_v1.crt.pem", "fulcio") && !Contains("fulcio_v1.crt.pem", "intermediate")
  {
    hide Contains, Mentions;
    assert "intermediate"[7] == 'd';
    assert "fulcio" + "_v1.crt.pem" == "fulcio_v1.crt.pem";
    MentionsStart("fulcio", "_v1.crt.pem");
    Lacks("fulcio_v1.crt.pem", "intermediate", 'd');
  }

  lemma RekorWords()
    ensures Mentions("rekor.pub", "rekor") && !Mentions("rekor.pub", "fulcio")
  {
    hide Contains, Mentions;
    assert "fulcio"[0] == 'f';
    assert "rekor" + ".pub" == "rekor.pub";
    MentionsStart("rekor", ".pub");
    NotMentioned("rekor.pub", "fulcio", 'f');
  }

  lemma CtfeWords()
    ensures Mentions("ctfe.pub", "ctfe") && !Mentions("ctfe.pub", "fulcio") && !Mentions("ctfe.pub", "rekor")
  {
    hide Contains, Mentions;
    assert "fulcio"[2] == 'l' && "rekor"[0] == 'r';
    assert "ctfe" + ".pub" == "ctfe.pub";
    MentionsStart("ctfe", ".pub");
    NotMentioned("ctfe.pub", "fulcio", 'l');
    NotMentioned("ctfe.pub", "rekor", 'r');
  }

  lemma MentionsStart(word: string, rest: string)
    requires ToLower(word) == word
    ensures Mentions(word + rest, word)
  {
    assert word + rest == "" + word + rest;
  }

  lemma NotMentioned(name: string, word: string, c: char)
    requires c in word && c !in ToLower(name)
    ensures !Mentions(name, word)
  {
    hide Mentions, Contains;
    MentionsIff(name, word);
    Lacks(ToLower(name), word, c);
  }

  /** Reading a log's public key for an origin: the log id and key, an error, or no PEM
      block at all, which the program dereferences. */
  datatype KeyParse = LogKey(id: string, key: Bytes) | BadKey | NoBlock

  type KeyParser = (string, Bytes) -> KeyParse

  datatype Log = Log(baseUrl: string, key: Bytes)

  const REKOR_URL := "rekor.rekor-system.svc"
  const CTLOG_URL := "ctlog.ctlog-system.svc"
  const REKOR_BASE := "http://rekor.rekor-system.svc"

  datatype ChainError = Malformed(cause: ParseError) | NoCertificates

  datatype Failure =
    | RekorKeyUnreadable | CtKeyUnreadable | NilDereference
    | FulcioChain(cause: ChainError) | TsaChain(cause: ChainError)

  datatype Slots = Slots(
    fulcioIntermediates: seq<Bytes>, fulcioRoot: Bytes,
    tsaLeaf: Bytes, tsaIntermediates: seq<Bytes>, tsaRoot: Bytes,
    rekor: map<string, Log>, ctlog: map<string, Log>)

  // The declarative reading of the loop: one filter per slot.

  function HasRole(role: Role): Target -> bool {
    (t: Target) => RoleOf(t.name) == role
  }

  function WithRole(role: Role, ts: seq<Target>): seq<Target> {
    Filter(HasRole(role), ts)
  }

  function Values(ts: seq<Target>): (r: seq<Bytes>)
    ensures |r| == |ts| && forall i | 0 <= i < |ts| :: r[i] == ts[i].value
  {
    seq(|ts|, i requires 0 <= i < |ts| => ts[i].value)
  }

  /** The bytes of the last target, or nothing. */
  function LastValue(ts: seq<Target>): Bytes {
    if ts == [] then "" else ts[|ts| - 1].value
  }

  function KeyFailure(keyOf: KeyParser, t: Target): Option<Failure> {
    match RoleOf(t.name)
    case RekorKey =>
      (match keyOf(REKOR_URL, t.value)
       case LogKey(_, _) => None case BadKey => Some(RekorKeyUnreadable) case NoBlock => Some(NilDereference))
    case CtKey =>
      (match keyOf(CTLOG_URL, t.value)
       case LogKey(_, _) => None case BadKey => Some(CtKeyUnreadable) case NoBlock => Some(NilDereference))
    case _ => None
  }

  /** The failure of the first unreadable log key. */
  function FirstFailure(keyOf: KeyParser, ts: seq<Target>): Option<Failure>
    decreases |ts|
  {
    if ts == [] then None
    else
      var before := FirstFailure(keyOf, ts[..|ts| - 1]);
      if before.Some? then before else KeyFailure(keyOf, ts[|ts| - 1])
  }

  function AddLog(m: map<string, Log>, base: string, k: KeyParse): map<string, Log> {
    match k
    case LogKey(id, key) => m[id := Log(base, key)]
    case _ => m
  }

  /** Log ids to logs; a later key with the same id replaces an earlier one. */
  function Logs(keyOf: KeyParser, origin: string, base: string, ts: seq<Target>): map<string, Log>
    decreases |ts|
  {
    if ts == [] then map[]
    else
      AddLog(Logs(keyOf, origin, base, ts[..|ts| - 1]), base, keyOf(origin, ts[|ts| - 1].value))
  }

  function SlotsOf(keyOf: KeyParser, ts: seq<Target>): Slots {
    Slots(Values(WithRole(FulcioIntermediate, ts)), LastValue(WithRole(FulcioRoot, ts)),
          LastValue(WithRole(TsaLeaf, ts)), Values(WithRole(TsaIntermediate, ts)),
          LastValue(WithRole(TsaRoot, ts)),
          Logs(keyOf, REKOR_URL, REKOR_BASE, WithRole(RekorKey, ts)),
          Logs(keyOf, CTLOG_URL, "", WithRole(CtKey, ts)))
  }

  /** What one more target does to the slots. */
  function Fill(keyOf: KeyParser, s: Slots, t: Target): Slots {
    match RoleOf(t.name)
    case FulcioIntermediate => s.(fulcioIntermediates := s.fulcioIntermediates + [t.value])
    case FulcioRoot => s.(fulcioRoot := t.value)
    case TsaLeaf => s.(tsaLeaf := t.value)
    case TsaIntermediate => s.(tsaIntermediates := s.tsaIntermediates + [t.value])
    case TsaRoot => s.(tsaRoot := t.value)
    case RekorKey => s.(rekor := AddLog(s.rekor, REKOR_BASE, keyOf(REKOR_URL, t.value)))
    case CtKey => s.(ctlog := AddLog(s.ctlog, "", keyOf(CTLOG_URL, t.value)))
    case Ignored => s
  }

  lemma RoleAppend(role: Role, ts: seq<Target>, t: Target)
    ensures WithRole(role, ts + [t]) == if RoleOf(t.name) == role then WithRole(role, ts) + [t] else WithRole(role, ts)
  {
    hide RoleOf;
    FilterAppend(HasRole(role), ts, t);
    assert WithRole(role, ts) + [] == WithRole(role, ts);
  }

  lemma ValuesAppend(role: Role, ts: seq<Target>, t: Target)
    ensures var v := Values(WithRole(role, ts));
            Values(WithRole(role, ts + [t])) == if RoleOf(t.name) == role then v + [t.value] else v
    ensures LastValue(WithRole(role, ts + [t])) ==
            if RoleOf(t.name) == role then t.value else LastValue(WithRole(role, ts))
  {
    hide RoleOf, WithRole;
    RoleAppend(role, ts, t);
  }

  lemma LogsAppend(role: Role, keyOf: KeyParser, origin: string, base: string, ts: seq<Target>, t: Target)
    ensures var m := Logs(keyOf, origin, base, WithRole(role, ts));
            Logs(keyOf, origin, base, WithRole(role, ts + [t])) ==
            if RoleOf(t.name) == role then AddLog(m, base, keyOf(origin, t.value)) else m
  {
    hide RoleOf, WithRole;
    RoleAppend(role, ts, t);
    var f := WithRole(role, ts);
    assert (f + [t])[..|f|] == f;
  }

  lemma SlotsAppend(keyOf: KeyParser, ts: seq<Target>, t: Target)
    ensures SlotsOf(keyOf, ts + [t]) == Fill(keyOf, SlotsOf(keyOf, ts), t)
  {
    hide RoleOf, WithRole, Logs, Values, LastValue;
    ValuesAppend(FulcioIntermediate, ts, t);
    ValuesAppend(FulcioRoot, ts, t);
    ValuesAppend(TsaLeaf, ts, t);
    ValuesAppend(TsaIntermediate, ts, t);
    ValuesAppend(TsaRoot, ts, t);
    LogsAppend(RekorKey, keyOf, REKOR_URL, REKOR_BASE, ts, t);
    LogsAppend(CtKey, keyOf, CTLOG_URL, "", ts, t);
  }

  /** The switch in the loop body, on the variables it assigns. */
  method Classify(keyOf: KeyParser, targets: seq<Target>) returns (r: Result<Slots, Failure>)
    ensures r == match FirstFailure(keyOf, targets)
                 case Some(e) => Err(e)
                 case None => Ok(SlotsOf(keyOf, targets))
  {
    hide RoleOf, SlotsOf;
    var s := Slots([], "", "", [], "", map[], map[]);
    NoSlots(keyOf);
    for i := 0 to |targets|
      invariant FirstFailure(keyOf, targets[..i]).None?
      invariant s == SlotsOf(keyOf, targets[..i])
    {
      var t := targets[i];
      assert targets[..i + 1] == targets[..i] + [t];
      SlotsAppend(keyOf, targets[..i], t);
      FailureAppend(keyOf, targets[..i], t);
      var failure := KeyFailure(keyOf, t);
      if failure.Some? {
        FailurePrefix(keyOf, targets, i + 1);
        return Err(failure.value);
      }
      s := Fill(keyOf, s, t);
    }
    assert targets[..|targets|] == targets;
    return Ok(s);
  }

  lemma NoSlots(keyOf: KeyParser)
    ensures SlotsOf(keyOf, []) == Slots([], "", "", [], "", map[], map[])
  {
  }

  lemma FailureAppend(keyOf: KeyParser, ts: seq<Target>, t: Target)
    ensures FirstFailure(keyOf, ts + [t]) ==
            if FirstFailure(keyOf, ts).Some? then FirstFailure(keyOf, ts) else KeyFailure(keyOf, t)
  {
    assert (ts + [t])[..|ts|] == ts;
  }

  lemma {:induction false} FailurePrefix(keyOf: KeyParser, ts: seq<Target>, n: nat)
    requires n <= |ts| && FirstFailure(keyOf, ts[..n]).Some?
    ensures FirstFailure(keyOf, ts) == FirstFailure(keyOf, ts[..n])
    decreases |ts|
  {
    if n == |ts| {
      assert ts[..n] == ts;
    } else {
      var last := |ts| - 1;
      assert ts[..last][..n] == ts[..n];
      FailurePrefix(keyOf, ts[..last], n);
    }
  }

  /** Among the sorted targets, each single-valued slot holds the bytes of the matching
      target with the greatest name, and is empty when no target matches. */
  lemma SlotIsGreatest(role: Role, ts: seq<Target>)
    requires SortedByName(ts) && DistinctNames(ts)
    ensures var v := LastValue(WithRole(role, ts));
            if exists t :: t in ts && RoleOf(t.name) == role
            then exists t :: t in ts && RoleOf(t.name) == role && t.value == v
                             && forall u | u in ts && RoleOf(u.name) == role :: !Less(t.name, u.name)
            else v == ""
  {
    hide RoleOf;
    SortedDistinctIsStrict(ts);
    FilterSorted(HasRole(role), ts);
    var f := WithRole(role, ts);
    if f != [] {
      var t := f[|f| - 1];
      assert t in f;
      forall u | u in ts && RoleOf(u.name) == role
        ensures !Less(t.name, u.name)
      {
        assert u in f;
        var i :| 0 <= i < |f| && f[i] == u;
        NotLater(f, |f| - 1, i);
      }
    }
  }

  /** If the target is named for a log, its key can be read. */
  predicate KeyReadable(keyOf: KeyParser, t: Target) {
    && (RoleOf(t.name) == RekorKey ==> keyOf(REKOR_URL, t.value).LogKey?)
    && (RoleOf(t.name) == CtKey ==> keyOf(CTLOG_URL, t.value).LogKey?)
  }

  lemma KeyFailureIff(keyOf: KeyParser, t: Target)
    ensures KeyFailure(keyOf, t).None? <==> KeyReadable(keyOf, t)
  {
    hide RoleOf;
  }

  /** No failure exactly when every log key among the targets can be read. */
  lemma {:induction false} NoFailureIff(keyOf: KeyParser, ts: seq<Target>)
    ensures FirstFailure(keyOf, ts).None? <==> forall i | 0 <= i < |ts| :: KeyReadable(keyOf, ts[i])
    decreases |ts|
  {
    hide KeyFailure, KeyReadable;
    if ts == [] {
    } else {
      var last := |ts| - 1;
      NoFailureIff(keyOf, ts[..last]);
      KeyFailureIff(keyOf, ts[last]);
      assert forall i | 0 <= i < last :: ts[..last][i] == ts[i];
    }
  }

  /** Otherwise the first unreadable key decides: without a PEM block it is a nil
      dereference, and else the error of the log it is for. */
  lemma FailureExact(keyOf: KeyParser, ts: seq<Target>, i: nat)
    requires i < |ts| && !KeyReadable(keyOf, ts[i]) && forall j | 0 <= j < i :: KeyReadable(keyOf, ts[j])
    ensures var origin := if RoleOf(ts[i].name) == RekorKey then REKOR_URL else CTLOG_URL;
            FirstFailure(keyOf, ts) == Some(
              if keyOf(origin, ts[i].value).NoBlock? then NilDereference
              else if RoleOf(ts[i].name) == RekorKey then RekorKeyUnreadable else CtKeyUnreadable)
  {
    hide RoleOf;
    assert ts[..i + 1] == ts[..i] + [ts[i]];
    NoFailureIff(keyOf, ts[..i]);
    FailureAppend(keyOf, ts[..i], ts[i]);
    FailurePrefix(keyOf, ts, i + 1);
  }

  predicate HasId(keyOf: KeyParser, origin: string, t: Target, id: string) {
    keyOf(origin, t.value).LogKey? && keyOf(origin, t.value).id == id
  }

  lemma LogsStep(keyOf: KeyParser, origin: string, base: string, ts: seq<Target>, id: string)
    requires ts != []
    ensures var last := ts[|ts| - 1];
            var before, m := Logs(keyOf, origin, base, ts[..|ts| - 1]), Logs(keyOf, origin, base, ts);
            if HasId(keyOf, origin, last, id)
            then id in m && m[id] == Log(base, keyOf(origin, last.value).key)
            else (id in m <==> id in before) && (id in m ==> m[id] == before[id])
  {
  }

  /** A log id is listed exactly when some target has it. */
  lemma {:induction false} LogsExact(keyOf: KeyParser, origin: string, base: string, ts: seq<Target>, id: string)
    ensures id in Logs(keyOf, origin, base, ts) <==> exists i :: 0 <= i < |ts| && HasId(keyOf, origin, ts[i], id)
    decreases |ts|
  {
    hide Logs, HasId;
    if ts != [] {
      var last := |ts| - 1;
      LogsExact(keyOf, origin, base, ts[..last], id);
      LogsStep(keyOf, origin, base, ts, id);
      assert forall i | 0 <= i < last :: ts[..last][i] == ts[i];
    } else {
      NoLogs(keyOf, origin, base);
    }
  }

  lemma NoLogs(keyOf: KeyParser, origin: string, base: string)
    ensures Logs(keyOf, origin, base, []) == map[]
  {
  }

  /** For a repeated log id the last target's key is kept. */
  lemma {:induction false} LastLogKept(keyOf: KeyParser, origin: string, base: string,
                                       ts: seq<Target>, id: string, i: nat)
    requires i < |ts| && HasId(keyOf, origin, ts[i], id)
    requires forall j | i < j < |ts| :: !HasId(keyOf, origin, ts[j], id)
    ensures id in Logs(keyOf, origin, base, ts)
    ensures Logs(keyOf, origin, base, ts)[id] == Log(base, keyOf(origin, ts[i].value).key)
    decreases |ts|
  {
    hide Logs, HasId;
    var last := |ts| - 1;
    LogsStep(keyOf, origin, base, ts, id);
    if i == last {
    } else {
      LastLogKept(keyOf, origin, base, ts[..last], id, i);
    }
  }

  /** Target `t` has the key with this id, and of those in `ts` with the role it has the
      greatest name. */
  ghost predicate DecidesLog(keyOf: KeyParser, origin: string, role: Role, ts: seq<Target>, t: Target, id: string) {
    && t in ts && RoleOf(t.name) == role && HasId(keyOf, origin, t, id)
    && forall u | u in ts && RoleOf(u.name) == role && HasId(keyOf, origin, u, id) :: !Less(t.name, u.name)
  }

  /** Where the log of an id comes from: the last target that has it. */
  lemma {:induction false} LogSource(keyOf: KeyParser, origin: string, base: string, ts: seq<Target>, id: string)
    returns (i: nat)
    requires id in Logs(keyOf, origin, base, ts)
    ensures i < |ts| && HasId(keyOf, origin, ts[i], id)
    ensures forall j | i < j < |ts| :: !HasId(keyOf, origin, ts[j], id)
    ensures Logs(keyOf, origin, base, ts)[id] == Log(base, keyOf(origin, ts[i].value).key)
    decreases |ts|
  {
    var last := |ts| - 1;
    hide HasId;
    LogsStep(keyOf, origin, base, ts, id);
    if HasId(keyOf, origin, ts[last], id) {
      i := last;
    } else {
      i := LogSource(keyOf, origin, base, ts[..last], id);
    }
  }

  /** The logs of a role: an id is listed exactly when a target of the role has it, with the
      key of the one that has the greatest name. */
  lemma RoleLogs(role: Role, keyOf: KeyParser, origin: string, base: string, ts: seq<Target>, id: string)
    requires SortedByName(ts) && DistinctNames(ts)
    ensures var m := Logs(keyOf, origin, base, WithRole(role, ts));
            && (id in m <==> exists t :: t in ts && RoleOf(t.name) == role && HasId(keyOf, origin, t, id))
            && (id in m ==> exists t :: DecidesLog(keyOf, origin, role, ts, t, id)
                                        && m[id] == Log(base, keyOf(origin, t.value).key))
  {
    hide RoleOf, HasId, Logs, Less;
    var f := WithRole(role, ts);
    assert forall t :: t in f <==> t in ts && RoleOf(t.name) == role;
    LogsExact(keyOf, origin, base, f, id);
    if id in Logs(keyOf, origin, base, f) {
      var i := LogSource(keyOf, origin, base, f, id);
      SortedDistinctIsStrict(ts);
      FilterSorted(HasRole(role), ts);
      forall u | u in f && HasId(keyOf, origin, u, id)
        ensures !Less(f[i].name, u.name)
      {
        var j :| 0 <= j < |f| && f[j] == u;
        NotLater(f, i, j);
      }
      assert f[i] in f;
      assert DecidesLog(keyOf, origin, role, ts, f[i], id);
    }
  }

  lemma NotLater(f: seq<Target>, i: nat, j: nat)
    requires StrictlySorted(f) && j <= i < |f|
    ensures !Less(f[i].name, f[j].name)
  {
    LessIrreflexive(f[i].name);
    if Less(f[i].name, f[j].name) {
      LessTransitive(f[i].name, f[j].name, f[i].name);
    }
  }

  /** The logs of a trusted root. A Rekor id is listed exactly when a target whose name
      mentions "rekor" and not "fulcio" has it, with Rekor's address and the key of the one
      with the greatest name; a CT log id, when one that mentions "ctfe" and neither of the
      others has it, without an address. */
  lemma LogKeysExact(x: Codec, keyOf: KeyParser, ts: seq<Target>, id: string)
    requires SortedByName(ts) && DistinctNames(ts) && TrustedRootOf(x, keyOf, ts).Ok?
    ensures var rekor := TrustedRootOf(x, keyOf, ts).value.rekor;
            && (id in rekor <==> exists t :: && t in ts && Mentions(t.name, "rekor") && !Mentions(t.name, "fulcio")
                                             && HasId(keyOf, REKOR_URL, t, id))
            && (id in rekor ==> exists t :: DecidesLog(keyOf, REKOR_URL, RekorKey, ts, t, id)
                                            && rekor[id] == Log(REKOR_BASE, keyOf(REKOR_URL, t.value).key))
    ensures var ctlog := TrustedRootOf(x, keyOf, ts).value.ctlog;
            && (id in ctlog <==> exists t :: && t in ts && Mentions(t.name, "ctfe") && !Mentions(t.name, "rekor")
                                             && !Mentions(t.name, "fulcio") && HasId(keyOf, CTLOG_URL, t, id))
            && (id in ctlog ==> exists t :: DecidesLog(keyOf, CTLOG_URL, CtKey, ts, t, id)
                                            && ctlog[id] == Log("", keyOf(CTLOG_URL, t.value).key))
  {
    hide RoleOf, Mentions, Contains, HasId, Logs, Less, FulcioFrom, TsaFrom, WithRole, DecidesLog;
    forall t: Target
      ensures RoleOf(t.name) == RekorKey <==> Mentions(t.name, "rekor") && !Mentions(t.name, "fulcio")
      ensures RoleOf(t.name) == CtKey <==>
              Mentions(t.name, "ctfe") && !Mentions(t.name, "rekor") && !Mentions(t.name, "fulcio")
    {
      RoleByWords(t.name);
    }
    RoleLogs(RekorKey, keyOf, REKOR_URL, REKOR_BASE, ts, id);
    RoleLogs(CtKey, keyOf, CTLOG_URL, "", ts, id);
  }

  // ------------------------------------------------------------------- authorities

  datatype TsaAuthority = TsaAuthority(
    leaf: Option<Certificate>, intermediates: seq<Certificate>, root: Option<Certificate>,
    start: int, end: int)

  datatype CertAuthority = CertAuthority(
    intermediates: seq<Certificate>, root: Option<Certificate>, start: int, end: int)

  function TsaOf(chain: seq<Certificate>): TsaAuthority
    requires chain != []
  {
    var n := |chain|;
    var from := if chain[0].isCA then 0 else 1;
    TsaAuthority(
      if from == 1 then Some(chain[0]) else None,
      if from < n then chain[from..n - 1] else [],
      if from < n then Some(chain[n - 1]) else None,
      chain[0].notBefore, chain[0].notAfter)
  }

  function FulcioOf(chain: seq<Certificate>): CertAuthority
    requires chain != []
  {
    var n := |chain|;
    CertAuthority(chain[..n - 1], Some(chain[n - 1]), chain[0].notBefore, chain[0].notAfter)
  }

  function Listed(c: Option<Certificate>): seq<Certificate> {
    if c.Some? then [c.value] else []
  }

  /** Leaf, intermediates and root together are the chain, in order. The leaf is the first
      certificate exactly when that is not a CA; the root is missing exactly for a single
      certificate that is not a CA; the validity period is the first certificate's. */
  lemma TsaConserves(chain: seq<Certificate>)
    requires chain != []
    ensures var a := TsaOf(chain);
            && Listed(a.leaf) + a.intermediates + Listed(a.root) == chain
            && (a.leaf.Some? <==> !chain[0].isCA)
            && (a.root.None? <==> |chain| == 1 && !chain[0].isCA)
            && a.start == chain[0].notBefore && a.end == chain[0].notAfter
  {
  }

  lemma FulcioConserves(chain: seq<Certificate>)
    requires chain != []
    ensures var a := FulcioOf(chain);
            && a.intermediates + Listed(a.root) == chain && a.root.Some?
            && a.start == chain[0].notBefore && a.end == chain[0].notAfter
  {
  }

  function ReadNonEmpty(x: Codec, text: string): Result<seq<Certificate>, ChainError> {
    match ParseAll(x, text)
    case Err(e) => Err(Malformed(e))
    case Ok(cs) => if cs == [] then Err(NoCertificates) else Ok(cs)
  }

  method CertChainToTimestampingAuthority(x: Codec, text: string) returns (r: Result<TsaAuthority, ChainError>)
    ensures r == match ReadNonEmpty(x, text)
                 case Err(e) => Err(e)
                 case Ok(cs) => Ok(TsaOf(cs))
  {
    hide ParseAll;
    var parsed := ReadChain(x, text);
    if parsed.Err? {
      return Err(Malformed(parsed.error));
    }
    var chain := parsed.value;
    if |chain| == 0 {
      return Err(NoCertificates);
    }
    var leaf: Option<Certificate>, root: Option<Certificate> := None, None;
    var intermediates: seq<Certificate> := [];
    var n := |chain|;
    ghost var from := if chain[0].isCA then 0 else 1;
    for i := 0 to n
      invariant leaf == if i > 0 && from == 1 then Some(chain[0]) else None
      invariant intermediates == if i <= from then [] else if i < n then chain[from..i] else chain[from..n - 1]
      invariant root == if i == n && from < n then Some(chain[n - 1]) else None
    {
      if i == 0 && !chain[i].isCA {
        leaf := Some(chain[i]);
      } else if i < n - 1 {
        intermediates := intermediates + [chain[i]];
      } else {
        root := Some(chain[i]);
      }
    }
    return Ok(TsaAuthority(leaf, intermediates, root, chain[0].notBefore, chain[0].notAfter));
  }

  method CertChainToCertificateAuthority(x: Codec, text: string) returns (r: Result<CertAuthority, ChainError>)
    ensures r == match ReadNonEmpty(x, text)
                 case Err(e) => Err(e)
                 case Ok(cs) => Ok(FulcioOf(cs))
  {
    hide ParseAll;
    var parsed := ReadChain(x, text);
    if parsed.Err? {
      return Err(Malformed(parsed.error));
    }
    var chain := parsed.value;
    if |chain| == 0 {
      return Err(NoCertificates);
    }
    var root: Option<Certificate> := None;
    var intermediates: seq<Certificate> := [];
    var n := |chain|;
    for i := 0 to n
      invariant intermediates == if i < n then chain[..i] else chain[..n - 1]
      invariant root == if i == n then Some(chain[n - 1]) else None
    {
      if i < n - 1 {
        intermediates := intermediates + [chain[i]];
      } else {
        root := Some(chain[i]);
      }
    }
    return Ok(CertAuthority(intermediates, root, chain[0].notBefore, chain[0].notAfter));
  }

  // ------------------------------------------------------------------ trusted root

  datatype TrustedRoot = TrustedRoot(
    fulcio: Option<CertAuthority>, tsa: Option<TsaAuthority>,
    rekor: map<string, Log>, ctlog: map<string, Log>)

  /** The TSA authority of filled slots; an empty concatenation means there is none. */
  function TsaFrom(x: Codec, s: Slots): Result<Option<TsaAuthority>, ChainError> {
    var text := Concatenated(s.tsaLeaf, s.tsaIntermediates, s.tsaRoot);
    if text == "" then Ok(None)
    else match ReadNonEmpty(x, text)
      case Err(e) => Err(e)
      case Ok(cs) => Ok(Some(TsaOf(cs)))
  }

  function FulcioFrom(x: Codec, s: Slots): Result<Option<CertAuthority>, ChainError> {
    var text := Concatenated("", s.fulcioIntermediates, s.fulcioRoot);
    if text == "" then Ok(None)
    else match ReadNonEmpty(x, text)
      case Err(e) => Err(e)
      case Ok(cs) => Ok(Some(FulcioOf(cs)))
  }

  function TrustedRootOf(x: Codec, keyOf: KeyParser, sorted: seq<Target>): Result<TrustedRoot, Failure> {
    match FirstFailure(keyOf, sorted)
    case Some(e) => Err(e)
    case None =>
      var s := SlotsOf(keyOf, sorted);
      match FulcioFrom(x, s)
      case Err(e) => Err(FulcioChain(e))
      case Ok(fulcio) =>
        match TsaFrom(x, s)
        case Err(e) => Err(TsaChain(e))
        case Ok(tsa) => Ok(TrustedRoot(fulcio, tsa, s.rekor, s.ctlog))
  }

  /** With well-formed files holding any number of certificates each, none included, the TSA
      authority is the leaf file's certificates, the intermediate files' in name order, and
      the root file's: nothing is dropped, added or moved. In particular a whole chain may
      come in one file. */
  lemma TsaChainConserved(x: Codec, s: Slots, leaf: Piece, intermediates: seq<Piece>, root: Piece)
    requires WellFormed(x, leaf) && WellFormed(x, root) && AllWellFormed(x, intermediates)
    requires s.tsaLeaf == Text(leaf) && s.tsaIntermediates == Texts(intermediates) && s.tsaRoot == Text(root)
    requires Certs(x, leaf.blocks) + AllCerts(x, intermediates) + Certs(x, root.blocks) != []
    ensures var r := TsaFrom(x, s);
            && r.Ok? && r.value.Some?
            && Listed(r.value.value.leaf) + r.value.value.intermediates + Listed(r.value.value.root)
               == Certs(x, leaf.blocks) + AllCerts(x, intermediates) + Certs(x, root.blocks)
  {
    hide Text, Texts, Concatenated, ParseAll, TsaOf;
    ConcatenatedReads(x, leaf, intermediates, root);
    var text := Concatenated(s.tsaLeaf, s.tsaIntermediates, s.tsaRoot);
    NothingParsed(x);
    TsaConserves(Certs(x, leaf.blocks) + AllCerts(x, intermediates) + Certs(x, root.blocks));
  }

  /** The same for Fulcio, which has no leaf. */
  lemma FulcioChainConserved(x: Codec, s: Slots, intermediates: seq<Piece>, root: Piece)
    requires WellFormed(x, root) && AllWellFormed(x, intermediates)
    requires s.fulcioIntermediates == Texts(intermediates) && s.fulcioRoot == Text(root)
    requires AllCerts(x, intermediates) + Certs(x, root.blocks) != []
    ensures var r := FulcioFrom(x, s);
            && r.Ok? && r.value.Some?
            && r.value.value.intermediates + Listed(r.value.value.root)
               == AllCerts(x, intermediates) + Certs(x, root.blocks)
  {
    var none := Piece("", []);
    assert Text(none) == "" && Certs(x, none.blocks) == [];
    assert [] + AllCerts(x, intermediates) == AllCerts(x, intermediates);
    hide Text, Texts, Concatenated, ParseAll, FulcioOf;
    ConcatenatedReads(x, none, intermediates, root);
    NothingParsed(x);
    FulcioConserves(AllCerts(x, intermediates) + Certs(x, root.blocks));
  }

  /** Hence the Fulcio authority of a trusted root has exactly the certificates of the
      targets for it, in name order, and is never the reason why there is no trusted root. */
  lemma FulcioTrusted(x: Codec, keyOf: KeyParser, ts: seq<Target>, intermediates: seq<Piece>, root: Piece)
    requires WellFormed(x, root) && AllWellFormed(x, intermediates)
    requires Values(WithRole(FulcioIntermediate, ts)) == Texts(intermediates)
    requires LastValue(WithRole(FulcioRoot, ts)) == Text(root)
    requires AllCerts(x, intermediates) + Certs(x, root.blocks) != []
    ensures var r := TrustedRootOf(x, keyOf, ts);
            && (r.Err? ==> !r.error.FulcioChain?)
            && (r.Ok? ==> && r.value.fulcio.Some?
                          && r.value.fulcio.value.intermediates + Listed(r.value.fulcio.value.root)
                             == AllCerts(x, intermediates) + Certs(x, root.blocks))
  {
    FailuresAreLogKeys(keyOf, ts);
    hide RoleOf, Text, Texts, FulcioFrom, TsaFrom, FirstFailure, WithRole, Logs, Certs, AllCerts;
    FulcioChainConserved(x, SlotsOf(keyOf, ts), intermediates, root);
  }

  /** The same for the TSA authority, once the keys and the Fulcio chain can be read. */
  lemma TsaTrusted(x: Codec, keyOf: KeyParser, ts: seq<Target>, leaf: Piece, intermediates: seq<Piece>, root: Piece)
    requires WellFormed(x, leaf) && WellFormed(x, root) && AllWellFormed(x, intermediates)
    requires LastValue(WithRole(TsaLeaf, ts)) == Text(leaf) && LastValue(WithRole(TsaRoot, ts)) == Text(root)
    requires Values(WithRole(TsaIntermediate, ts)) == Texts(intermediates)
    requires Certs(x, leaf.blocks) + AllCerts(x, intermediates) + Certs(x, root.blocks) != []
    ensures var r := TrustedRootOf(x, keyOf, ts);
            && (r.Err? ==> !r.error.TsaChain?)
            && (r.Ok? ==> && r.value.tsa.Some?
                          && var a := r.value.tsa.value;
                             Listed(a.leaf) + a.intermediates + Listed(a.root)
                             == Certs(x, leaf.blocks) + AllCerts(x, intermediates) + Certs(x, root.blocks))
  {
    FailuresAreLogKeys(keyOf, ts);
    hide RoleOf, Text, Texts, FulcioFrom, TsaFrom, FirstFailure, WithRole, Logs, Certs, AllCerts;
    TsaChainConserved(x, SlotsOf(keyOf, ts), leaf, intermediates, root);
  }

  lemma {:induction false} FailuresAreLogKeys(keyOf: KeyParser, ts: seq<Target>)
    ensures var f := FirstFailure(keyOf, ts); f.Some? ==> !f.value.TsaChain? && !f.value.FulcioChain?
    decreases |ts|
  {
    hide RoleOf;
    if ts == [] {
    } else {
      FailuresAreLogKeys(keyOf, ts[..|ts| - 1]);
    }
  }

  lemma {:induction false} NobodyHasRole(role: Role, ts: seq<Target>)
    requires forall t | t in ts :: RoleOf(t.name) != role
    ensures WithRole(role, ts) == []
  {
    hide RoleOf;
    if ts == [] {
    } else {
      NobodyHasRole(role, ts[1..]);
    }
  }

  /** Without a target that mentions "fulcio" there is no Fulcio authority, and without one
      that is classified as TSA no timestamping authority. */
  lemma NoAuthority(x: Codec, keyOf: KeyParser, ts: seq<Target>)
    requires TrustedRootOf(x, keyOf, ts).Ok?
    ensures (forall t | t in ts :: !Mentions(t.name, "fulcio")) ==> TrustedRootOf(x, keyOf, ts).value.fulcio.None?
    ensures (forall t | t in ts :: RoleOf(t.name) !in {TsaLeaf, TsaIntermediate, TsaRoot}) ==>
              TrustedRootOf(x, keyOf, ts).value.tsa.None?
  {
    hide RoleOf, Mentions, Contains, FirstFailure, WithRole, Logs, ParseAll;
    assert Concatenated("", [], "") == "";
    if forall t | t in ts :: !Mentions(t.name, "fulcio") {
      forall t | t in ts
        ensures RoleOf(t.name) !in {FulcioIntermediate, FulcioRoot}
      {
        RoleByWords(t.name);
      }
      NobodyHasRole(FulcioIntermediate, ts);
      NobodyHasRole(FulcioRoot, ts);
    }
    if forall t | t in ts :: RoleOf(t.name) !in {TsaLeaf, TsaIntermediate, TsaRoot} {
      NobodyHasRole(TsaLeaf, ts);
      NobodyHasRole(TsaIntermediate, ts);
      NobodyHasRole(TsaRoot, ts);
    }
  }

  /** A file for an authority that is there but has no certificate in it is an error. */
  lemma BlankRefused(x: Codec, text: string)
    requires White(text)
    ensures ReadNonEmpty(x, text) == Err(NoCertificates)
  {
    TrimSpaceAllWhite(text);
  }

  /** Which error there is: an unreadable log key before the Fulcio chain, the Fulcio chain
      before the TSA chain. */
  lemma ErrorOrder(x: Codec, keyOf: KeyParser, ts: seq<Target>)
    ensures var fulcio := Concatenated("", Values(WithRole(FulcioIntermediate, ts)),
                                       LastValue(WithRole(FulcioRoot, ts)));
            var tsa := Concatenated(LastValue(WithRole(TsaLeaf, ts)), Values(WithRole(TsaIntermediate, ts)),
                                    LastValue(WithRole(TsaRoot, ts)));
            var badFulcio := fulcio != "" && ReadNonEmpty(x, fulcio).Err?;
            var badTsa := tsa != "" && ReadNonEmpty(x, tsa).Err?;
            var r, key := TrustedRootOf(x, keyOf, ts), FirstFailure(keyOf, ts);
            && (key.Some? ==> r == Err(key.value))
            && (key.None? && badFulcio ==> r == Err(FulcioChain(ReadNonEmpty(x, fulcio).error)))
            && (key.None? && !badFulcio && badTsa ==> r == Err(TsaChain(ReadNonEmpty(x, tsa).error)))
            && (key.None? && !badFulcio && !badTsa ==> r.Ok?)
  {
    hide RoleOf, FirstFailure, WithRole, Logs, ReadNonEmpty, Concatenated, Values, LastValue;
  }

  lemma NothingParsed(x: Codec)
    ensures ParseAll(x, "") == Ok([])
  {
    EmptyLine();
  }

  /** The sort of lines 217-219, in place; an insertion sort stands in for sort.Slice. */
  method SortTargets(a: array<Target>)
    modifies a
    ensures Permutation(a[..], old(a[..])) && SortedByName(a[..])
  {
    for i := 0 to a.Length
      invariant SortedByName(a[..i])
      invariant Permutation(a[..], old(a[..]))
    {
      InsertLast(a, i);
    }
    assert a[..a.Length] == a[..];
  }

  ghost predicate SortedExcept(s: seq<Target>, j: nat) {
    && (forall p, q | 0 <= p < q < |s| && p != j && q != j :: !Less(s[q].name, s[p].name))
    && (forall q | j < q < |s| && j < |s| :: !Less(s[q].name, s[j].name))
  }

  /** Moves the item at `i` down to its place among the sorted items before it. */
  method InsertLast(a: array<Target>, i: nat)
    requires i < a.Length && SortedByName(a[..i])
    modifies a
    ensures SortedByName(a[..i + 1]) && Permutation(a[..], old(a[..]))
    ensures a[i + 1..] == old(a[i + 1..])
  {
    hide Less;
    var j := i;
    assert SortedExcept(a[..i + 1], j);
    while j > 0 && Less(a[j].name, a[j - 1].name)
      invariant 0 <= j <= i
      invariant SortedExcept(a[..i + 1], j)
      invariant Permutation(a[..], old(a[..]))
      invariant a[i + 1..] == old(a[i + 1..])
    {
      ghost var before := a[..i + 1];
      a[j], a[j - 1] := a[j - 1], a[j];
      SwapDown(before, a[..i + 1], j);
      j := j - 1;
    }
    StopSorted(a[..i + 1], j);
  }

  lemma SwapDown(s: seq<Target>, t: seq<Target>, j: nat)
    requires 0 < j < |s| && SortedExcept(s, j) && Less(s[j].name, s[j - 1].name)
    requires t == s[j := s[j - 1]][j - 1 := s[j]]
    ensures SortedExcept(t, j - 1)
  {
    hide Less;
    LessAsymmetric(s[j].name, s[j - 1].name);
  }

  lemma StopSorted(s: seq<Target>, j: nat)
    requires j < |s| && SortedExcept(s, j)
    requires j == 0 || !Less(s[j].name, s[j - 1].name)
    ensures SortedByName(s)
  {
    hide Less;
    forall p | 0 <= p < j
      ensures !Less(s[j].name, s[p].name)
    {
      if p < j - 1 {
        NotLessTransitive(s[p].name, s[j - 1].name, s[j].name);
      }
    }
  }

  lemma LessAsymmetric(a: string, b: string)
    requires Less(a, b)
    ensures !Less(b, a)
  {
    if Less(b, a) {
      LessTransitive(a, b, a);
      LessIrreflexive(a);
    }
  }

  lemma NotLessTransitive(a: string, b: string, c: string)
    requires !Less(b, a) && !Less(c, b)
    ensures !Less(c, a)
  {
    LessTotal(a, b);
    LessTotal(b, c);
    if Less(c, a) {
      if Less(a, b) {
        LessTransitive(c, a, b);
      }
    }
  }

  method ConstructTrustedRoot(x: Codec, keyOf: KeyParser, targets: array<Target>)
    returns (r: Result<TrustedRoot, Failure>)
    modifies targets
    ensures Permutation(targets[..], old(targets[..])) && SortedByName(targets[..])
    ensures r == TrustedRootOf(x, keyOf, targets[..])
  {
    hide ParseAll, SlotsOf, FirstFailure, Concatenated, FulcioOf, TsaOf, SortedByName, Permutation;
    SortTargets(targets);
    var slots := Classify(keyOf, targets[..]);
    if slots.Err? {
      return Err(slots.error);
    }
    var s := slots.value;
    var fulcioText := ConcatCertChain("", s.fulcioIntermediates, s.fulcioRoot);
    var fulcio: Option<CertAuthority> := None;
    if |fulcioText| > 0 {
      var a := CertChainToCertificateAuthority(x, fulcioText);
      if a.Err? {
        return Err(FulcioChain(a.error));
      }
      fulcio := Some(a.value);
    }
    var tsaText := ConcatCertChain(s.tsaLeaf, s.tsaIntermediates, s.tsaRoot);
    var tsa: Option<TsaAuthority> := None;
    if |tsaText| > 0 {
      var a := CertChainToTimestampingAuthority(x, tsaText);
      if a.Err? {
        return Err(TsaChain(a.error));
      }
      tsa := Some(a.value);
    }
    return Ok(TrustedRoot(fulcio, tsa, s.rekor, s.ctlog));
  }

  /** The result, errors included, does not depend on the order in which targets with
      distinct names are listed. */
  lemma OrderIndependent(x: Codec, keyOf: KeyParser,
                         a: seq<Target>, b: seq<Target>, sortedA: seq<Target>, sortedB: seq<Target>)
    requires DistinctNames(a) && Permutation(a, b)
    requires Permutation(sortedA, a) && SortedByName(sortedA)
    requires Permutation(sortedB, b) && SortedByName(sortedB)
    ensures TrustedRootOf(x, keyOf, sortedA) == TrustedRootOf(x, keyOf, sortedB)
  {
    SortedPermutationUnique(a, b, sortedA, sortedB);
  }
}
