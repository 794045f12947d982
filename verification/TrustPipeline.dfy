/** The whole way of a TSA chain: split, trim, list in any order, sort, classify,
    concatenate, read back, partition. */
module TrustPipeline {
  import opened Wrappers
  import opened Strings
  import opened Sorting
  import opened Pem
  import opened PemText
  import opened PemConcat
  import opened CertChain
  import opened TrustedRoots

  const PREFIX := "tsa"

  /** The target that position `i` of the chain becomes. */
  function EntryAt(x: Codec, cs: seq<Certificate>, i: nat): Target
    requires i < |cs|
  {
    Named(NameAt(PREFIX, |cs|, i), TrimSpace(EncodeCert(x, cs[i])))
  }

  /** The TSA targets among `ts` are exactly those of the chain. */
  ghost predicate CarriesChain(x: Codec, cs: seq<Certificate>, ts: seq<Target>) {
    && (forall t | t in ts && TargetUsage(t.name) == Tsa :: exists i: nat :: i < |cs| && t == EntryAt(x, cs, i))
    && (forall i: nat | i < |cs| :: EntryAt(x, cs, i) in ts)
  }

  // ------------------------------------------------------------- roles of the names

  lemma {:induction false} LowerFixed(s: string)
    requires forall i | 0 <= i < |s| :: !('A' <= s[i] <= 'Z')
    ensures ToLower(s) == s
  {
  }

  /** Names that start with "tsa" and lack the letters of the other usages. */
  lemma TsaUsage(name: string)
    requires PREFIX <= name
    requires forall i | 0 <= i < |name| :: !('A' <= name[i] <= 'Z')
    requires 'u' !in name && 'k' !in name && !Contains(name, "ctfe")
    ensures TargetUsage(name) == Tsa
  {
    assert "fulcio"[1] == 'u' && "rekor"[2] == 'k';
    LowerFixed(name);
    Lacks(name, "fulcio", 'u');
    Lacks(name, "rekor", 'k');
    assert IndexOf(name, "tsa") == 0;
  }

  lemma LeafUsage()
    ensures TargetUsage(LeafName(PREFIX)) == Tsa
  {
    hide IndexOf, TargetUsage;
    var name := LeafName(PREFIX);
    assert name == "tsa_leaf.crt.pem";
    NoPair(name, "ctfe");
    TsaUsage(name);
  }

  lemma LeafRole()
    ensures RoleOf(LeafName(PREFIX)) == TsaLeaf && TargetUsage(LeafName(PREFIX)) == Tsa
  {
    hide IndexOf, TargetUsage;
    var name := LeafName(PREFIX);
    LeafUsage();
    assert name[4..4 + 4] == "leaf";
    hide LeafName;
    ContainsAt(name, "leaf", 4);
  }

  lemma SliceAt(s: string, i: nat, n: nat, k: nat)
    requires i + n <= |s| && k < n
    ensures s[i..i + n][k] == s[i + k]
  {
  }

  /** A string where 'c' is never followed by 't' does not contain "ctfe". */
  lemma NoPair(s: string, sub: string)
    requires |sub| >= 2
    requires forall i | 0 <= i < |s| - 1 :: s[i] == sub[0] ==> s[i + 1] != sub[1]
    ensures !Contains(s, sub)
  {
    var i := IndexOf(s, sub);
    if i >= 0 {
      SliceAt(s, i, |sub|, 0);
      SliceAt(s, i, |sub|, 1);
    }
  }

  lemma RootUsage()
    ensures TargetUsage(RootName(PREFIX)) == Tsa
  {
    hide IndexOf, TargetUsage;
    var name := RootName(PREFIX);
    assert name == "tsa_root.crt.pem";
    NoPair(name, "ctfe");
    TsaUsage(name);
  }

  lemma RootRole()
    ensures RoleOf(RootName(PREFIX)) == TsaRoot && TargetUsage(RootName(PREFIX)) == Tsa
  {
    hide IndexOf, TargetUsage;
    var name := RootName(PREFIX);
    RootUsage();
    assert 'l' !in name && 'i' !in name;
    assert "leaf"[0] == 'l' && "intermediate"[0] == 'i';
    hide RootName;
    Lacks(name, "leaf", 'l');
    Lacks(name, "intermediate", 'i');
  }

  lemma IntermediateRole(i: nat)
    ensures RoleOf(IntermediateName(PREFIX, i)) == TsaIntermediate
    ensures TargetUsage(IntermediateName(PREFIX, i)) == Tsa
  {
    hide IndexOf, TargetUsage;
    var name := IntermediateName(PREFIX, i);
    assert name[4..4 + 12] == "intermediate";
    hide IntermediateName;
    IntermediateChars(i, 'u');
    IntermediateChars(i, 'k');
    IntermediateChars(i, 'f');
    IntermediateChars(i, 'l');
    assert "ctfe"[2] == 'f' && "leaf"[0] == 'l';
    Lacks(name, "ctfe", 'f');
    TsaUsage(name);
    Lacks(name, "leaf", 'l');
    ContainsAt(name, "intermediate", 4);
  }

  lemma IntermediateChars(i: nat, c: char)
    requires c == 'u' || c == 'k' || c == 'f' || c == 'l'
    ensures c !in IntermediateName(PREFIX, i)
    ensures PREFIX <= IntermediateName(PREFIX, i)
    ensures forall j | 0 <= j < |IntermediateName(PREFIX, i)| :: !('A' <= IntermediateName(PREFIX, i)[j] <= 'Z')
  {
    var head := "tsa_intermediate_";
    assert IntermediateName(PREFIX, i) == head + Decimal(i) + SUFFIX;
    assert c !in head && c !in SUFFIX;
    hide IntermediateName, Decimal;
    assert forall j | 0 <= j < |Decimal(i)| :: IsDigit(Decimal(i)[j]);
  }

  /** Which slot each position of the chain lands in. */
  lemma EntryRole(x: Codec, cs: seq<Certificate>, i: nat)
    requires i < |cs|
    ensures TargetUsage(EntryAt(x, cs, i).name) == Tsa
    ensures RoleOf(EntryAt(x, cs, i).name) ==
            if i == 0 then TsaLeaf else if i == |cs| - 1 then TsaRoot else TsaIntermediate
  {
    hide RoleOf, TargetUsage, LeafName, RootName, IntermediateName, EncodeCert;
    LeafRole();
    RootRole();
    if 0 < i < |cs| - 1 {
      IntermediateRole(i - 1);
    }
  }

  // ------------------------------------------------------------ order of the numbers

  /** Single digits sort as numbers do. */
  lemma DigitsInOrder(i: nat, j: nat)
    requires i < j < 10
    ensures Less(IntermediateName(PREFIX, i), IntermediateName(PREFIX, j))
  {
    LessPrefix(PREFIX, "_intermediate_" + (Decimal(i) + SUFFIX), "_intermediate_" + (Decimal(j) + SUFFIX));
    LessPrefix("_intermediate_", Decimal(i) + SUFFIX, Decimal(j) + SUFFIX);
    assert (Decimal(i) + SUFFIX)[0] == Digit(i) < Digit(j) == (Decimal(j) + SUFFIX)[0];
  }

  /** Name 10 sorts after names 0 and 1 and before the other single digits. */
  lemma TenAmongDigits(m: nat)
    requires m < 10
    ensures m <= 1 ==> Less(IntermediateName(PREFIX, m), IntermediateName(PREFIX, 10))
    ensures m > 1 ==> Less(IntermediateName(PREFIX, 10), IntermediateName(PREFIX, m))
  {
    var ten, dig := Decimal(10) + SUFFIX, Decimal(m) + SUFFIX;
    LessPrefix(PREFIX, "_intermediate_" + ten, "_intermediate_" + dig);
    LessPrefix("_intermediate_", ten, dig);
    LessPrefix(PREFIX, "_intermediate_" + dig, "_intermediate_" + ten);
    LessPrefix("_intermediate_", dig, ten);
    assert Decimal(10) == Decimal(1) + [Digit(0)];
    assert ten[0] == '1' && ten[1] == '0' && dig[0] == Digit(m) && dig[1] == '.';
    if m == 1 {
      assert ten[1..][0] == '0' && dig[1..][0] == '.';
    }
  }

  // ------------------------------------------------------------------- the TSA slots

  lemma RoleMembers(x: Codec, cs: seq<Certificate>, ts: seq<Target>, role: Role, t: Target)
    requires CarriesChain(x, cs, ts) && |cs| >= 2
    requires role == TsaLeaf || role == TsaIntermediate || role == TsaRoot
    ensures t in WithRole(role, ts) <==>
            exists i: nat :: i < |cs| && t == EntryAt(x, cs, i)
              && role == (if i == 0 then TsaLeaf else if i == |cs| - 1 then TsaRoot else TsaIntermediate)
  {
    hide EntryAt, TargetUsage;
    if t in WithRole(role, ts) {
      assert t in ts && RoleOf(t.name) == role;
      assert TargetUsage(t.name) == Tsa;
      var i: nat :| i < |cs| && t == EntryAt(x, cs, i);
      EntryRole(x, cs, i);
    }
    forall i: nat | i < |cs|
      ensures RoleOf(EntryAt(x, cs, i).name) ==
              if i == 0 then TsaLeaf else if i == |cs| - 1 then TsaRoot else TsaIntermediate
    {
      EntryRole(x, cs, i);
    }
  }

  lemma SingleMember(ts: seq<Target>, t: Target)
    requires StrictlySorted(ts) && forall u :: u in ts <==> u == t
    ensures ts == [t]
  {
    hide Less;
    SortedUnique(ts, [t]);
  }

  lemma OuterSlots(x: Codec, cs: seq<Certificate>, ts: seq<Target>)
    requires CarriesChain(x, cs, ts) && |cs| >= 2 && StrictlySorted(ts)
    ensures WithRole(TsaLeaf, ts) == [EntryAt(x, cs, 0)]
    ensures WithRole(TsaRoot, ts) == [EntryAt(x, cs, |cs| - 1)]
  {
    hide EntryAt, RoleOf, CarriesChain;
    FilterSorted(HasRole(TsaLeaf), ts);
    FilterSorted(HasRole(TsaRoot), ts);
    hide StrictlySorted, WithRole;
    forall t
      ensures t in WithRole(TsaLeaf, ts) <==> t == EntryAt(x, cs, 0)
      ensures t in WithRole(TsaRoot, ts) <==> t == EntryAt(x, cs, |cs| - 1)
    {
      RoleMembers(x, cs, ts, TsaLeaf, t);
      RoleMembers(x, cs, ts, TsaRoot, t);
    }
    SingleMember(WithRole(TsaLeaf, ts), EntryAt(x, cs, 0));
    SingleMember(WithRole(TsaRoot, ts), EntryAt(x, cs, |cs| - 1));
  }

  /** The intermediates of the chain as targets, in chain order. */
  function Middle(x: Codec, cs: seq<Certificate>): (r: seq<Target>)
    requires |cs| >= 2
    ensures |r| == |cs| - 2
    ensures forall k | 0 <= k < |r| :: r[k] == EntryAt(x, cs, k + 1)
  {
    seq(|cs| - 2, k requires 0 <= k < |cs| - 2 => EntryAt(x, cs, k + 1))
  }

  lemma MiddleMembers(x: Codec, cs: seq<Certificate>, ts: seq<Target>)
    requires CarriesChain(x, cs, ts) && |cs| >= 2 && StrictlySorted(ts)
    ensures forall t :: t in WithRole(TsaIntermediate, ts) <==> t in Middle(x, cs)
    ensures StrictlySorted(WithRole(TsaIntermediate, ts))
  {
    hide EntryAt, RoleOf, CarriesChain, Less;
    FilterSorted(HasRole(TsaIntermediate), ts);
    forall t
      ensures t in WithRole(TsaIntermediate, ts) <==> t in Middle(x, cs)
    {
      RoleMembers(x, cs, ts, TsaIntermediate, t);
      if t in WithRole(TsaIntermediate, ts) {
        var i: nat :| 0 < i < |cs| - 1 && t == EntryAt(x, cs, i);
        assert Middle(x, cs)[i - 1] == t;
      }
    }
  }

  lemma MiddleNames(x: Codec, cs: seq<Certificate>, k: nat)
    requires |cs| >= 2 && k < |cs| - 2
    ensures Middle(x, cs)[k].name == IntermediateName(PREFIX, k)
  {
    hide IntermediateName, EncodeCert;
  }

  /** Up to ten intermediates sort into chain order. */
  lemma FewInOrder(x: Codec, cs: seq<Certificate>, ts: seq<Target>)
    requires CarriesChain(x, cs, ts) && 2 <= |cs| <= 12 && StrictlySorted(ts)
    ensures WithRole(TsaIntermediate, ts) == Middle(x, cs)
  {
    hide EntryAt, IntermediateName, WithRole, CarriesChain, Less, Middle;
    MiddleMembers(x, cs, ts);
    var m := Middle(x, cs);
    forall i, j | 0 <= i < j < |m|
      ensures Less(m[i].name, m[j].name)
    {
      MiddleNames(x, cs, i);
      MiddleNames(x, cs, j);
      DigitsInOrder(i, j);
    }
    SortedUnique(WithRole(TsaIntermediate, ts), m);
  }

  /** More than ten never do. */
  lemma ManyOutOfOrder(x: Codec, cs: seq<Certificate>, ts: seq<Target>)
    requires |cs| > 12 && StrictlySorted(WithRole(TsaIntermediate, ts))
    ensures WithRole(TsaIntermediate, ts) != Middle(x, cs)
  {
    hide EntryAt, IntermediateName, WithRole, Less;
    if WithRole(TsaIntermediate, ts) == Middle(x, cs) {
      MiddleNames(x, cs, 2);
      MiddleNames(x, cs, 10);
      TenAmongDigits(2);
      LessAsymmetric(IntermediateName(PREFIX, 10), IntermediateName(PREFIX, 2));
    }
  }

  // ------------------------------------------------------------------ reading it back

  ghost predicate Holds(x: Codec, t: Target, c: Certificate) {
    Genuine(x, c) && t.value == Text(CertPiece(x, c, ""))
  }

  lemma EntryHolds(x: Codec, cs: seq<Certificate>, i: nat)
    requires Lawful(x) && i < |cs| && Genuine(x, cs[i])
    ensures Holds(x, EntryAt(x, cs, i), cs[i])
  {
    hide Text, EncodeCert, TrimSpace, NameAt;
    EncodedIsPiece(x, cs[i]);
  }

  /** A file holds at most one certificate. */
  lemma HoldsUnique(x: Codec, t: Target, c: Certificate, d: Certificate)
    requires Lawful(x) && Holds(x, t, c) && Holds(x, t, d)
    ensures c == d
  {
    hide Text, EncodeCert, TrimSpace, ParseAll;
    EncodedIsPiece(x, c);
    EncodedIsPiece(x, d);
    ParsePiece(x, CertPiece(x, c, ""));
    ParsePiece(x, CertPiece(x, d, ""));
  }

  function Pieces(x: Codec, cs: seq<Certificate>): (r: seq<Piece>)
    ensures |r| == |cs| && forall i | 0 <= i < |cs| :: r[i] == CertPiece(x, cs[i], "")
  {
    seq(|cs|, i requires 0 <= i < |cs| => CertPiece(x, cs[i], ""))
  }

  lemma {:induction false} PiecesRead(x: Codec, cs: seq<Certificate>)
    requires Lawful(x) && AllGenuine(x, cs)
    ensures AllWellFormed(x, Pieces(x, cs)) && AllCerts(x, Pieces(x, cs)) == cs
  {
    hide WellFormed, Certs, CertPiece;
    if cs == [] {
    } else {
      PiecesRead(x, cs[1..]);
      EncodedIsPiece(x, cs[0]);
      assert Pieces(x, cs)[1..] == Pieces(x, cs[1..]);
      assert forall i | 1 <= i < |cs| :: Pieces(x, cs)[i] == Pieces(x, cs[1..])[i - 1];
    }
  }

  lemma {:induction false} TextsAre(x: Codec, ps: seq<Piece>, vs: seq<string>)
    requires |ps| == |vs| && forall i | 0 <= i < |ps| :: vs[i] == Text(ps[i])
    ensures Texts(ps) == vs
  {
    hide Text;
    if ps == [] {
    } else {
      TextsAre(x, ps[1..], vs[1..]);
      assert vs == [vs[0]] + vs[1..];
    }
  }

  /** Concatenating the files of single certificates and reading them gives those
      certificates. */
  lemma FilesRead(x: Codec, leaf: Target, middle: seq<Target>, root: Target,
                  c: Certificate, ms: seq<Certificate>, d: Certificate)
    requires Lawful(x) && Holds(x, leaf, c) && Holds(x, root, d)
    requires |middle| == |ms| && forall k | 0 <= k < |ms| :: Holds(x, middle[k], ms[k])
    ensures ParseAll(x, Concatenated(leaf.value, Values(middle), root.value)) == Ok([c] + ms + [d])
    ensures Concatenated(leaf.value, Values(middle), root.value) != ""
  {
    hide Text, WellFormed, Certs, ParseAll, Concatenated, Texts, CertPiece;
    EncodedIsPiece(x, c);
    EncodedIsPiece(x, d);
    PiecesRead(x, ms);
    TextsAre(x, Pieces(x, ms), Values(middle));
    ConcatenatedReads(x, CertPiece(x, c, ""), Pieces(x, ms), CertPiece(x, d, ""));
    if Concatenated(leaf.value, Values(middle), root.value) == "" {
      NothingParsed(x);
    }
  }

  // -------------------------------------------------------------------- main results

  /** Whatever order the targets were listed in, the authority's leaf is the first
      certificate of the chain and its root the last; its intermediates are those of the
      chain, and they are in chain order exactly when there are at most ten of them. */
  lemma TsaPipeline(x: Codec, keyOf: KeyParser, cs: seq<Certificate>, listed: seq<Target>, sorted: seq<Target>)
    requires Lawful(x) && AllGenuine(x, cs) && Distinct(cs) && |cs| >= 2 && !cs[0].isCA
    requires CarriesChain(x, cs, listed) && DistinctNames(listed)
    requires Permutation(sorted, listed) && SortedByName(sorted)
    ensures var r := TsaFrom(x, SlotsOf(keyOf, sorted));
            && r.Ok? && r.value.Some?
            && r.value.value.leaf == Some(cs[0])
            && r.value.value.root == Some(cs[|cs| - 1])
            && |r.value.value.intermediates| == |cs| - 2
            && (forall c :: c in r.value.value.intermediates <==> c in cs[1..|cs| - 1])
            && (r.value.value.intermediates == cs[1..|cs| - 1] <==> |cs| - 2 <= 10)
            && r.value.value.start == cs[0].notBefore && r.value.value.end == cs[0].notAfter
  {
    SortedCarries(x, cs, listed, sorted);
    hide *;
    OuterSlots(x, cs, sorted);
    MiddleMembers(x, cs, sorted);
    var ms := MiddleCerts(x, cs, sorted);
    SlotsRead(x, keyOf, cs, sorted, ms);
    if |cs| <= 12 {
      FewInOrder(x, cs, sorted);
    } else {
      ManyOutOfOrder(x, cs, sorted);
    }
  }

  /** The order in which the files of eleven intermediates are read: 0, 1, 10, 2 and so on. */
  function Eleven(k: nat): nat
    requires k < 11
  {
    if k < 2 then k else if k == 2 then 10 else k - 1
  }

  lemma ElevenSorted(i: nat, j: nat)
    requires i < j < 11
    ensures Less(IntermediateName(PREFIX, Eleven(i)), IntermediateName(PREFIX, Eleven(j)))
  {
    hide IntermediateName, Less;
    if i == 2 {
      TenAmongDigits(Eleven(j));
    } else if j == 2 {
      TenAmongDigits(Eleven(i));
    } else {
      DigitsInOrder(Eleven(i), Eleven(j));
    }
  }

  function ElevenFiles(x: Codec, cs: seq<Certificate>): (r: seq<Target>)
    requires |cs| == 13
    ensures |r| == 11 && forall k | 0 <= k < 11 :: r[k] == Middle(x, cs)[Eleven(k)]
  {
    seq(11, k requires 0 <= k < 11 => Middle(x, cs)[Eleven(k)])
  }

  lemma ElevenInFiles(x: Codec, cs: seq<Certificate>, t: Target)
    requires |cs| == 13
    ensures t in ElevenFiles(x, cs) <==> t in Middle(x, cs)
  {
    hide Middle;
    var m, f := Middle(x, cs), ElevenFiles(x, cs);
    if t in m {
      var i :| 0 <= i < 11 && m[i] == t;
      var k := if i < 2 then i else if i == 10 then 2 else i + 1;
      assert Eleven(k) == i;
      assert f[k] == t;
    }
  }

  /** The first chain that goes wrong: with eleven intermediates the eleventh is read in
      third place. */
  lemma ElevenScrambled(x: Codec, keyOf: KeyParser, cs: seq<Certificate>, listed: seq<Target>, sorted: seq<Target>)
    requires Lawful(x) && AllGenuine(x, cs) && |cs| == 13 && !cs[0].isCA
    requires CarriesChain(x, cs, listed) && DistinctNames(listed)
    requires Permutation(sorted, listed) && SortedByName(sorted)
    ensures var r := TsaFrom(x, SlotsOf(keyOf, sorted));
            && r.Ok? && r.value.Some?
            && r.value.value.intermediates == [cs[1], cs[2], cs[11]] + cs[3..11]
  {
    SortedCarries(x, cs, listed, sorted);
    hide *;
    OuterSlots(x, cs, sorted);
    MiddleMembers(x, cs, sorted);
    ElevenOrder(x, cs, WithRole(TsaIntermediate, sorted));
    ElevenHold(x, cs);
    SlotsRead(x, keyOf, cs, sorted, [cs[1], cs[2], cs[11]] + cs[3..11]);
  }

  lemma ElevenOrder(x: Codec, cs: seq<Certificate>, ts: seq<Target>)
    requires |cs| == 13 && StrictlySorted(ts) && forall t :: t in ts <==> t in Middle(x, cs)
    ensures ts == ElevenFiles(x, cs)
  {
    hide EntryAt, Middle, IntermediateName, Less;
    var f := ElevenFiles(x, cs);
    forall i, j | 0 <= i < j < 11
      ensures Less(f[i].name, f[j].name)
    {
      MiddleNames(x, cs, Eleven(i));
      MiddleNames(x, cs, Eleven(j));
      ElevenSorted(i, j);
    }
    hide ElevenFiles;
    forall t
      ensures t in f <==> t in ts
    {
      ElevenInFiles(x, cs, t);
    }
    SortedUnique(ts, f);
  }

  lemma ElevenHold(x: Codec, cs: seq<Certificate>)
    requires Lawful(x) && AllGenuine(x, cs) && |cs| == 13
    ensures var ms := [cs[1], cs[2], cs[11]] + cs[3..11];
            |ms| == 11 && forall k | 0 <= k < 11 :: Holds(x, ElevenFiles(x, cs)[k], ms[k])
  {
    hide EntryAt, Holds;
    var ms := [cs[1], cs[2], cs[11]] + cs[3..11];
    forall k | 0 <= k < 11
      ensures Holds(x, ElevenFiles(x, cs)[k], ms[k])
    {
      EntryHolds(x, cs, Eleven(k) + 1);
      assert ms[k] == cs[Eleven(k) + 1];
    }
  }

  lemma SortedCarries(x: Codec, cs: seq<Certificate>, listed: seq<Target>, sorted: seq<Target>)
    requires CarriesChain(x, cs, listed) && DistinctNames(listed)
    requires Permutation(sorted, listed) && SortedByName(sorted)
    ensures CarriesChain(x, cs, sorted) && StrictlySorted(sorted)
  {
    hide EntryAt, TargetUsage, Less;
    PermutationMembers(sorted, listed);
    PermutationDistinct(listed, sorted);
    SortedDistinctIsStrict(sorted);
  }

  /** The certificates in the sorted intermediate files, and when they are in chain order. */
  lemma MiddleCerts(x: Codec, cs: seq<Certificate>, ts: seq<Target>) returns (ms: seq<Certificate>)
    requires Lawful(x) && AllGenuine(x, cs) && Distinct(cs) && |cs| >= 2
    requires StrictlySorted(WithRole(TsaIntermediate, ts))
    requires forall t :: t in WithRole(TsaIntermediate, ts) <==> t in Middle(x, cs)
    ensures |ms| == |WithRole(TsaIntermediate, ts)| == |cs| - 2
    ensures forall k | 0 <= k < |ms| :: Holds(x, WithRole(TsaIntermediate, ts)[k], ms[k])
    ensures forall c :: c in ms <==> c in cs[1..|cs| - 1]
    ensures ms == cs[1..|cs| - 1] <==> WithRole(TsaIntermediate, ts) == Middle(x, cs)
  {
    hide WithRole, EntryAt, Less, Holds, Middle;
    var f := WithRole(TsaIntermediate, ts);
    ms := PositionCerts(x, cs, f);
    SameCount(x, cs, f);
    AllCovered(x, cs, f, ms);
    if f == Middle(x, cs) {
      InOrderCerts(x, cs, f, ms);
    }
    if ms == cs[1..|cs| - 1] {
      InOrderFiles(x, cs, f, ms);
    }
  }

  lemma AllCovered(x: Codec, cs: seq<Certificate>, f: seq<Target>, ms: seq<Certificate>)
    requires Lawful(x) && AllGenuine(x, cs) && |cs| >= 2
    requires forall t :: t in Middle(x, cs) ==> t in f
    requires |ms| == |f| && forall k | 0 <= k < |ms| :: Holds(x, f[k], ms[k])
    ensures forall c :: c in cs[1..|cs| - 1] ==> c in ms
  {
    hide EntryAt, Holds;
    var middle := cs[1..|cs| - 1];
    forall c | c in middle
      ensures c in ms
    {
      var i :| 0 <= i < |middle| && middle[i] == c;
      assert Middle(x, cs)[i] in f;
      var k :| 0 <= k < |f| && f[k] == Middle(x, cs)[i];
      EntryHolds(x, cs, i + 1);
      HoldsUnique(x, f[k], ms[k], c);
    }
  }

  lemma InOrderCerts(x: Codec, cs: seq<Certificate>, f: seq<Target>, ms: seq<Certificate>)
    requires Lawful(x) && AllGenuine(x, cs) && |cs| >= 2 && f == Middle(x, cs)
    requires |ms| == |f| && forall k | 0 <= k < |ms| :: Holds(x, f[k], ms[k])
    ensures ms == cs[1..|cs| - 1]
  {
    hide EntryAt, Holds;
    forall k | 0 <= k < |ms|
      ensures ms[k] == cs[k + 1]
    {
      EntryHolds(x, cs, k + 1);
      HoldsUnique(x, f[k], ms[k], cs[k + 1]);
    }
  }

  lemma InOrderFiles(x: Codec, cs: seq<Certificate>, f: seq<Target>, ms: seq<Certificate>)
    requires Lawful(x) && AllGenuine(x, cs) && Distinct(cs) && |cs| >= 2
    requires forall t :: t in f ==> t in Middle(x, cs)
    requires |ms| == |f| && forall k | 0 <= k < |ms| :: Holds(x, f[k], ms[k])
    requires ms == cs[1..|cs| - 1]
    ensures f == Middle(x, cs)
  {
    hide EntryAt, Holds;
    var m := Middle(x, cs);
    forall k | 0 <= k < |f|
      ensures f[k] == m[k]
    {
      assert f[k] in m;
      var j :| 0 <= j < |m| && m[j] == f[k];
      EntryHolds(x, cs, j + 1);
      HoldsUnique(x, f[k], ms[k], cs[j + 1]);
      assert cs[j + 1] == cs[k + 1];
    }
  }

  lemma PositionCerts(x: Codec, cs: seq<Certificate>, f: seq<Target>) returns (ms: seq<Certificate>)
    requires Lawful(x) && AllGenuine(x, cs) && |cs| >= 2
    requires forall t :: t in f ==> t in Middle(x, cs)
    ensures |ms| == |f|
    ensures forall k | 0 <= k < |ms| :: Holds(x, f[k], ms[k]) && ms[k] in cs[1..|cs| - 1]
  {
    hide EntryAt, Holds;
    ms := [];
    for n := 0 to |f|
      invariant |ms| == n
      invariant forall k | 0 <= k < n :: Holds(x, f[k], ms[k]) && ms[k] in cs[1..|cs| - 1]
    {
      assert f[n] in Middle(x, cs);
      var j :| 0 <= j < |cs| - 2 && Middle(x, cs)[j] == f[n];
      EntryHolds(x, cs, j + 1);
      assert cs[1..|cs| - 1][j] == cs[j + 1];
      ms := ms + [cs[j + 1]];
    }
  }

  /** Two duplicate-free lists with the same members have the same length. */
  lemma SameCount(x: Codec, cs: seq<Certificate>, f: seq<Target>)
    requires |cs| >= 2 && StrictlySorted(f)
    requires forall t :: t in f <==> t in Middle(x, cs)
    ensures |f| == |cs| - 2
  {
    hide EntryAt;
    var m := Middle(x, cs);
    forall i, j | 0 <= i < j < |f|
      ensures f[i] != f[j]
    {
      LessIrreflexive(f[i].name);
    }
    forall i, j | 0 <= i < j < |m|
      ensures m[i] != m[j]
    {
      MiddleNames(x, cs, i);
      MiddleNames(x, cs, j);
      if m[i] == m[j] {
        IntermediateNameDistinct(PREFIX, i, j);
      }
    }
    DistinctCount(f, m);
    DistinctCount(m, f);
  }

  lemma {:induction false} DistinctCount(a: seq<Target>, b: seq<Target>)
    requires Distinct(a) && forall t :: t in a ==> t in b
    ensures |a| <= |b|
    decreases |a|
  {
    if a == [] {
    } else {
      var last := |a| - 1;
      var t := a[last];
      assert t in a;
      var k :| 0 <= k < |b| && b[k] == t;
      var rest := b[..k] + b[k + 1..];
      forall u | u in a[..last]
        ensures u in rest
      {
        assert u in a;
        var j :| 0 <= j < |b| && b[j] == u;
        assert j != k;
        if j < k { assert rest[j] == u; } else { assert rest[j - 1] == u; }
      }
      DistinctCount(a[..last], rest);
    }
  }

  lemma SlotsRead(x: Codec, keyOf: KeyParser, cs: seq<Certificate>, ts: seq<Target>, ms: seq<Certificate>)
    requires Lawful(x) && AllGenuine(x, cs) && |cs| >= 2 && !cs[0].isCA
    requires WithRole(TsaLeaf, ts) == [EntryAt(x, cs, 0)]
    requires WithRole(TsaRoot, ts) == [EntryAt(x, cs, |cs| - 1)]
    requires |ms| == |WithRole(TsaIntermediate, ts)|
    requires forall k | 0 <= k < |ms| :: Holds(x, WithRole(TsaIntermediate, ts)[k], ms[k])
    ensures TsaFrom(x, SlotsOf(keyOf, ts)) ==
            Ok(Some(TsaAuthority(Some(cs[0]), ms, Some(cs[|cs| - 1]), cs[0].notBefore, cs[0].notAfter)))
  {
    var leaf, root := EntryAt(x, cs, 0), EntryAt(x, cs, |cs| - 1);
    hide WithRole, EntryAt, Logs, ParseAll, Concatenated, Holds;
    EntryHolds(x, cs, 0);
    EntryHolds(x, cs, |cs| - 1);
    FilesRead(x, leaf, WithRole(TsaIntermediate, ts), root, cs[0], ms, cs[|cs| - 1]);
    var chain := [cs[0]] + ms + [cs[|cs| - 1]];
    assert chain[1..|chain| - 1] == ms;
  }
}
