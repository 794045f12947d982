/** Functions that obey the laws the other modules ask of base64, X.509, encryption and the
    protocol buffer text form, and with them the runs that break a promise. */
module Witness {
  import opened Wrappers
  import opened Strings
  import opened Sorting
  import opened Pem
  import opened PemConcat
  import opened Secrets
  import opened CtlogConfig
  import opened CtlogRuns
  import opened CtlogInvariants
  import opened CtlogOverlap

  // -------------------------------------------------------------------- inverses

  ghost predicate Injective<A(!new)>(f: A -> string) {
    forall a, b :: f(a) == f(b) ==> a == b
  }

  ghost function Inverse<A(!new)>(f: A -> string): string -> Option<A> {
    (s: string) => if exists a :: f(a) == s then Some(var a :| f(a) == s; a) else None
  }

  lemma InverseLaw<A(!new)>(f: A -> string)
    requires Injective(f)
    ensures forall a :: Inverse(f)(f(a)) == Some(a)
  {
    forall a
      ensures Inverse(f)(f(a)) == Some(a)
    {
    }
  }

  // ----------------------------------------------------------------------- base64

  /** Text without dashes that determines the bytes. */
  function Escape(d: Bytes): string {
    if d == "" then ""
    else (if d[0] == '-' then "+m" else if d[0] == '+' then "++" else [d[0]]) + Escape(d[1..])
  }

  lemma {:induction false} EscapeNoDash(d: Bytes)
    ensures '-' !in Escape(d)
  {
    if d == "" {
    } else {
      EscapeNoDash(d[1..]);
    }
  }

  lemma {:induction false} EscapeInjective(a: Bytes, b: Bytes)
    requires Escape(a) == Escape(b)
    ensures a == b
    decreases |a|
  {
    if a == "" || b == "" {
    } else {
      assert Escape(a)[0] == Escape(b)[0];
      var n := if a[0] == '-' || a[0] == '+' then 2 else 1;
      assert Escape(a)[n..] == Escape(a[1..]) && Escape(b)[n..] == Escape(b[1..]) by {
        if n == 2 {
          assert Escape(a)[1] == Escape(b)[1];
        }
      }
      EscapeInjective(a[1..], b[1..]);
      if n == 2 {
        assert Escape(a)[1] == Escape(b)[1];
      }
      assert a == [a[0]] + a[1..] && b == [b[0]] + b[1..];
    }
  }

  ghost function SomeCodec(): Codec {
    Codec(Escape, Inverse(Escape), (d: Bytes) => Some(Certificate(d, false, 0, 0)))
  }

  lemma SomeCodecLawful()
    ensures Lawful(SomeCodec())
  {
    forall a, b | Escape(a) == Escape(b)
      ensures a == b
    {
      EscapeInjective(a, b);
    }
    InverseLaw(Escape);
    forall d
      ensures '-' !in Escape(d)
    {
      EscapeNoDash(d);
    }
  }

  // ------------------------------------------------------------- a text form of protos

  function Ones(n: nat): string {
    if n == 0 then "0" else "1" + Ones(n - 1)
  }

  /** `a`, preceded by its length, and then `b`. */
  function Pair(a: string, b: string): string {
    Ones(|a|) + a + b
  }

  lemma {:induction false} OnesPrefix(m: nat, n: nat, s: string, t: string)
    requires Ones(m) + s == Ones(n) + t
    ensures m == n && s == t
  {
    assert (Ones(m) + s)[0] == Ones(m)[0] && (Ones(n) + t)[0] == Ones(n)[0];
    if m > 0 && n > 0 {
      assert (Ones(m) + s)[1..] == Ones(m - 1) + s && (Ones(n) + t)[1..] == Ones(n - 1) + t;
      OnesPrefix(m - 1, n - 1, s, t);
    } else if m == 0 && n == 0 {
      assert (Ones(m) + s)[1..] == s && (Ones(n) + t)[1..] == t;
    }
  }

  lemma PairInjective(a: string, b: string, c: string, d: string)
    requires Pair(a, b) == Pair(c, d)
    ensures a == c && b == d
  {
    assert Pair(a, b) == Ones(|a|) + (a + b) && Pair(c, d) == Ones(|c|) + (c + d);
    OnesPrefix(|a|, |c|, a + b, c + d);
    assert (a + b)[..|a|] == a && (c + d)[..|a|] == c && (a + b)[|a|..] == b && (c + d)[|a|..] == d;
  }

  function IntText(n: int): string {
    if n < 0 then "-" + Decimal(-n) else Decimal(n)
  }

  lemma IntTextInjective(m: int, n: int)
    requires IntText(m) == IntText(n)
    ensures m == n
  {
    assert IsDigit(Decimal(if m < 0 then -m else m)[0]) && IsDigit(Decimal(if n < 0 then -n else n)[0]);
    if m < 0 && n < 0 {
      assert IntText(m)[1..] == Decimal(-m) && IntText(n)[1..] == Decimal(-n);
      DecimalInjective(-m, -n);
    } else if m >= 0 && n >= 0 {
      DecimalInjective(m, n);
    }
  }

  function ListText(ss: seq<string>): string {
    if ss == [] then "" else Pair(ss[0], ListText(ss[1..]))
  }

  lemma {:induction false} ListTextInjective(a: seq<string>, b: seq<string>)
    requires ListText(a) == ListText(b)
    ensures a == b
  {
    if a != [] && b != [] {
      PairInjective(a[0], ListText(a[1..]), b[0], ListText(b[1..]));
      ListTextInjective(a[1..], b[1..]);
      assert a == [a[0]] + a[1..] && b == [b[0]] + b[1..];
    } else {
      PairNonEmpty(a);
      PairNonEmpty(b);
    }
  }

  lemma PairNonEmpty(a: seq<string>)
    ensures ListText(a) == "" ==> a == []
  {
  }

  function KeyText(k: KeyMessage): string {
    match k
    case PemKeyFile(path, password) => ListText(["k", path, password])
    case OtherMessage => ListText(["o"])
    case Undecodable => ListText(["u"])
  }

  function LogText(l: LogConfig): string {
    ListText([IntText(l.logId), l.prefix, ListText(l.rootsPemFile), KeyText(l.privateKey),
              l.publicKeyDer, l.backendName, ListText(l.extKeyUsages)])
  }

  function LogTexts(ls: seq<LogConfig>): (r: seq<string>)
    ensures |r| == |ls| && forall i | 0 <= i < |ls| :: r[i] == LogText(ls[i])
  {
    seq(|ls|, i requires 0 <= i < |ls| => LogText(ls[i]))
  }

  function BackendTexts(bs: seq<Backend>): (r: seq<string>)
    ensures |r| == |bs| && forall i | 0 <= i < |bs| :: r[i] == ListText([bs[i].name, bs[i].spec])
  {
    seq(|bs|, i requires 0 <= i < |bs| => ListText([bs[i].name, bs[i].spec]))
  }

  function ProtoText(m: MultiConfig): string {
    ListText([if m.logConfigs.None? then "" else ListText(["s", ListText(LogTexts(m.logConfigs.value))]),
              if m.backends.None? then "" else ListText(["s", ListText(BackendTexts(m.backends.value))])])
  }

  lemma KeyTextInjective(a: KeyMessage, b: KeyMessage)
    requires KeyText(a) == KeyText(b)
    ensures a == b
  {
    hide ListText;
    var sa := if a.PemKeyFile? then ["k", a.path, a.password] else if a.OtherMessage? then ["o"] else ["u"];
    var sb := if b.PemKeyFile? then ["k", b.path, b.password] else if b.OtherMessage? then ["o"] else ["u"];
    ListTextInjective(sa, sb);
    assert sa[0] == sb[0];
    assert |sa| == 3 ==> sa[1] == sb[1] && sa[2] == sb[2];
  }

  lemma LogTextInjective(a: LogConfig, b: LogConfig)
    requires LogText(a) == LogText(b)
    ensures a == b
  {
    hide ListText, KeyText, IntText;
    var sa := [IntText(a.logId), a.prefix, ListText(a.rootsPemFile), KeyText(a.privateKey),
               a.publicKeyDer, a.backendName, ListText(a.extKeyUsages)];
    var sb := [IntText(b.logId), b.prefix, ListText(b.rootsPemFile), KeyText(b.privateKey),
               b.publicKeyDer, b.backendName, ListText(b.extKeyUsages)];
    ListTextInjective(sa, sb);
    assert sa[0] == sb[0] && sa[1] == sb[1] && sa[2] == sb[2] && sa[3] == sb[3] && sa[4] == sb[4] && sa[5] == sb[5]
        && sa[6] == sb[6];
    IntTextInjective(a.logId, b.logId);
    ListTextInjective(a.rootsPemFile, b.rootsPemFile);
    KeyTextInjective(a.privateKey, b.privateKey);
    ListTextInjective(a.extKeyUsages, b.extKeyUsages);
  }

  lemma LogTextsInjective(a: seq<LogConfig>, b: seq<LogConfig>)
    requires LogTexts(a) == LogTexts(b)
    ensures a == b
  {
    hide LogText;
    forall i | 0 <= i < |a|
      ensures a[i] == b[i]
    {
      assert LogTexts(a)[i] == LogTexts(b)[i];
      LogTextInjective(a[i], b[i]);
    }
    assert |a| == |LogTexts(a)| == |b|;
  }

  lemma BackendTextsInjective(a: seq<Backend>, b: seq<Backend>)
    requires BackendTexts(a) == BackendTexts(b)
    ensures a == b
  {
    hide ListText;
    assert |a| == |BackendTexts(a)| == |b|;
    forall i | 0 <= i < |a|
      ensures a[i] == b[i]
    {
      assert BackendTexts(a)[i] == BackendTexts(b)[i];
      var sa, sb := [a[i].name, a[i].spec], [b[i].name, b[i].spec];
      ListTextInjective(sa, sb);
      assert sa[0] == sb[0] && sa[1] == sb[1];
    }
  }

  lemma SomeTextInjective(s: string, t: string)
    requires ListText(["s", s]) == ListText(["s", t])
    ensures s == t
  {
    ListTextInjective(["s", s], ["s", t]);
    assert ["s", s][1] == ["s", t][1];
  }

  lemma ProtoTextInjective(a: MultiConfig, b: MultiConfig)
    requires ProtoText(a) == ProtoText(b)
    ensures a == b
  {
    hide ListText;
    var la := if a.logConfigs.None? then "" else ListText(["s", ListText(LogTexts(a.logConfigs.value))]);
    var lb := if b.logConfigs.None? then "" else ListText(["s", ListText(LogTexts(b.logConfigs.value))]);
    var ba := if a.backends.None? then "" else ListText(["s", ListText(BackendTexts(a.backends.value))]);
    var bb := if b.backends.None? then "" else ListText(["s", ListText(BackendTexts(b.backends.value))]);
    ListTextInjective([la, ba], [lb, bb]);
    assert [la, ba][0] == [lb, bb][0] && [la, ba][1] == [lb, bb][1];
    forall s
      ensures ListText(["s", s]) != ""
    {
      PairNonEmpty(["s", s]);
    }
    if a.logConfigs.Some? && b.logConfigs.Some? {
      SomeTextInjective(ListText(LogTexts(a.logConfigs.value)), ListText(LogTexts(b.logConfigs.value)));
      ListTextInjective(LogTexts(a.logConfigs.value), LogTexts(b.logConfigs.value));
      LogTextsInjective(a.logConfigs.value, b.logConfigs.value);
    }
    if a.backends.Some? && b.backends.Some? {
      SomeTextInjective(ListText(BackendTexts(a.backends.value)), ListText(BackendTexts(b.backends.value)));
      ListTextInjective(BackendTexts(a.backends.value), BackendTexts(b.backends.value));
      BackendTextsInjective(a.backends.value, b.backends.value);
    }
  }

  // ------------------------------------------------------------------------- keys

  function PrivText(k: PrivKey): string {
    Decimal(k.id)
  }

  function PubText(k: PubKey): string {
    Decimal(k.id)
  }

  ghost function SomeCrypto(): Crypto {
    Crypto(
      SomeCodec(),
      (k: PrivKey) => PubKey(k.id),
      (k: PrivKey, pw: string, n: nat) => PrivText(k),
      (b: Bytes, pw: string) => Inverse(PrivText)(b),
      PubText,
      Inverse(PubText),
      PubText,
      (m: MultiConfig, n: nat) => ProtoText(m),
      (b: Bytes) => if b == "" then Some(MultiConfig(None, None)) else Inverse(ProtoText)(b))
  }

  /** The laws are consistent: there are functions that obey them. */
  lemma SomeCryptoSound()
    ensures Sound(SomeCrypto())
  {
    SomeCodecLawful();
    forall a, b | PrivText(a) == PrivText(b)
      ensures a == b
    {
      DecimalInjective(a.id, b.id);
    }
    forall a, b | PubText(a) == PubText(b)
      ensures a == b
    {
      DecimalInjective(a.id, b.id);
    }
    forall a, b | ProtoText(a) == ProtoText(b)
      ensures a == b
    {
      ProtoTextInjective(a, b);
    }
    hide SomeCodec, ProtoText, Lawful;
    InverseLaw(PrivText);
    InverseLaw(PubText);
    InverseLaw(ProtoText);
    ProtoTextNonEmpty();
  }

  lemma ProtoTextNonEmpty()
    ensures forall m :: ProtoText(m) != ""
  {
  }

  // -------------------------------------------------------------- an overlap that loses

  function RunWith(chain: Bytes): Input {
    Input(Generated(None), "test", 1, "log", "addr", chain, 0, 0)
  }

  function FirstSettings(c: Crypto, certs: seq<Bytes>): Settings {
    Settings(PrivKey(0), "test", c.pub(PrivKey(0)), 1, "log", "addr", certs)
  }

  function SentBy(c: Crypto, certs: seq<Bytes>, i: Input): Data {
    WithoutKeys(Marshalled(c, FirstSettings(c, WithRoot(c, certs, i.chain)), i.nonce, i.salt))
  }

  lemma ChainOf(c: Crypto, cert: Certificate)
    requires Sound(c) && Genuine(c.x, cert)
    ensures ExtractFulcioRoot(c.x, EncodeCert(c.x, cert)) == Root(EncodeCert(c.x, cert))
  {
    hide ParseAll, EncodeCert;
    EncodeThenRead(c.x, cert);
  }

  /** A fresh configuration can be updated by any run that brings a certificate. */
  lemma FirstUpdate(c: Crypto, certs: seq<Bytes>, i: Input)
    requires Sound(c) && Distinct(certs) && ExtractFulcioRoot(c.x, i.chain).Root?
    ensures var d := Marshalled(c, FirstSettings(c, certs), 0, 0);
            && d != map[] && !NeedsCreate(None, d) && FulcioRoots(d) == SetOf(certs)
            && Updates(c, None, i, d, certs, SentBy(c, certs, i))
  {
    var s := FirstSettings(c, certs);
    var d := Marshalled(c, s, 0, 0);
    MarshalThenUnmarshal(c, s, 0, 0);
    MarshalledEntries(c, s, 0, 0);
    hide Marshalled, ExtractFulcioRoot, DecodedSettings, FulcioRoots, WithRoot, SetOf;
    assert Enumerates(certs, FulcioRoots(d));
    assert s.(fulcioCerts := []).(fulcioCerts := WithRoot(c, certs, i.chain))
        == FirstSettings(c, WithRoot(c, certs, i.chain));
  }

  lemma NonEmptySucceeds(d: Data, m: Data)
    requires d != map[]
    ensures Reconcile(Some(d), m).0.Success() && Reconcile(Some(d), m).1.Some?
  {
  }

  /** Two runs read the same initialised secret, both reconcile successfully, and the
      first one's root is gone. */
  lemma OverlapHappens() returns (c: Crypto, d: Data, a: Input, b: Input, mA: Data, mB: Data, dA: Data, dB: Data)
    ensures Sound(c) && !NeedsCreate(None, d)
    ensures Updates(c, None, a, d, [], mA) && Updates(c, None, b, d, [], mB)
    ensures Reconcile(Some(d), mA) == (Updated, Some(dA)) && Reconcile(Some(dA), mB) == (Updated, Some(dB))
    ensures var x := ExtractFulcioRoot(c.x, a.chain);
            x.Root? && x.pem in FulcioValues(dA) && x.pem !in FulcioValues(dB)
  {
    c := SomeCrypto();
    SomeCryptoSound();
    var certA, certB := Certificate("a", false, 0, 0), Certificate("b", false, 0, 0);
    assert Genuine(c.x, certA) && Genuine(c.x, certB);
    hide *;
    a, b := RunWith(EncodeCert(c.x, certA)), RunWith(EncodeCert(c.x, certB));
    RunChain(EncodeCert(c.x, certA));
    RunChain(EncodeCert(c.x, certB));
    ChainOf(c, certA);
    ChainOf(c, certB);
    d := Marshalled(c, FirstSettings(c, []), 0, 0);
    NoneListed();
    FirstUpdate(c, [], a);
    FirstUpdate(c, [], b);
    mA, mB := SentBy(c, [], a), SentBy(c, [], b);
    NonEmptySucceeds(d, mA);
    dA := Reconcile(Some(d), mA).1.value;
    Grows(d, mA, dA, c, a);
    NonEmptySucceeds(dA, mB);
    dB := Reconcile(Some(dA), mB).1.value;
    assert EncodeCert(c.x, certA) != EncodeCert(c.x, certB) by {
      if EncodeCert(c.x, certA) == EncodeCert(c.x, certB) {
        EncodeInjective(c.x, certA, certB);
      }
    }
    FirstLost(c, d, a, b, mA, mB, dA, dB);
    NoRoots(d);
    ChangeHappens(d, mA, dA);
    ChangeHappens(dA, mB, dB);
  }

  /** `OverlapLosesRoot` where neither root was there. */
  lemma FirstLost(c: Crypto, d: Data, a: Input, b: Input, mA: Data, mB: Data, dA: Data, dB: Data)
    requires Sound(c) && FulcioRoots(d) == {}
    requires Updates(c, None, a, d, [], mA) && Updates(c, None, b, d, [], mB)
    requires Reconcile(Some(d), mA).0.Success() && Reconcile(Some(d), mA).1 == Some(dA)
    requires Reconcile(Some(dA), mB).0.Success() && Reconcile(Some(dA), mB).1 == Some(dB)
    requires ExtractFulcioRoot(c.x, a.chain).Root? && ExtractFulcioRoot(c.x, b.chain).Root?
    requires ExtractFulcioRoot(c.x, a.chain) != ExtractFulcioRoot(c.x, b.chain)
    ensures ExtractFulcioRoot(c.x, a.chain).pem !in FulcioValues(dB)
  {
    hide *;
    OverlapLosesRoot(c, None, d, a, b, [], [], mA, mB, dA, dB);
    OnlyRoot(c, a.chain);
    OnlyRoot(c, b.chain);
  }

  lemma NoneListed()
    ensures Distinct<Bytes>([]) && SetOf([]) == {}
  {
  }

  lemma OneListed(r: Bytes)
    ensures Distinct([r]) && SetOf([r]) == {r}
  {
  }

  /** Two runs read a secret with one root; the first brings another root, the second brings
      the one that is there. Afterwards the new root is stored and no longer trusted. */
  lemma OverlapStrands()
    returns (c: Crypto, d: Data, a: Input, b: Input, order: seq<Bytes>,
             mA: Data, mB: Data, dA: Data, dB: Data, r: Bytes)
    ensures Sound(c) && !NeedsCreate(None, d)
    ensures Updates(c, None, a, d, order, mA) && Updates(c, None, b, d, order, mB)
    ensures Reconcile(Some(d), mA).0.Success() && Reconcile(Some(d), mA).1 == Some(dA) && Trusts(c, dA, r)
    ensures Reconcile(Some(dA), mB) == (Updated, Some(dB)) && r in FulcioValues(dB) && !Trusts(c, dB, r)
  {
    c := SomeCrypto();
    SomeCryptoSound();
    var certA, certB := Certificate("a", false, 0, 0), Certificate("b", false, 0, 0);
    assert Genuine(c.x, certA) && Genuine(c.x, certB);
    hide *;
    r := EncodeCert(c.x, certA);
    var t := EncodeCert(c.x, certB);
    assert r != t by {
      if r == t {
        EncodeInjective(c.x, certA, certB);
      }
    }
    EncodedNonEmpty(c.x, certA);
    a, b, order := RunWith(r), RunWith(t), [t];
    RunChain(r);
    RunChain(t);
    ChainOf(c, certA);
    ChainOf(c, certB);
    OneListed(t);
    d := Marshalled(c, FirstSettings(c, [t]), 0, 0);
    FirstUpdate(c, [t], a);
    FirstUpdate(c, [t], b);
    mA, mB := SentBy(c, [t], a), SentBy(c, [t], b);
    NonEmptySucceeds(d, mA);
    dA := Reconcile(Some(d), mA).1.value;
    OnlyRoot(c, r);
    OnlyRoot(c, t);
    UpdateTrusts(c, None, a, d, order, mA, d, dA, r);
    TrustedNotEmpty(c, dA, r);
    NonEmptySucceeds(dA, mB);
    dB := Reconcile(Some(dA), mB).1.value;
    OverlapTrusts(c, None, d, a, b, order, order, mA, mB, dA, dB);
    ChangeHappens(dA, mB, dB);
  }

  lemma TrustedNotEmpty(c: Crypto, d: Data, r: Bytes)
    requires Trusts(c, d, r)
    ensures d != map[]
  {
  }

  /** A reconciliation that changes something was an update. */
  lemma ChangeHappens(d: Data, m: Data, d': Data)
    requires Reconcile(Some(d), m).0.Success() && Reconcile(Some(d), m).1 == Some(d') && d' != d
    ensures Reconcile(Some(d), m) == (Updated, Some(d'))
  {
    hide Overlay;
  }

  lemma RunChain(chain: Bytes)
    ensures RunWith(chain).chain == chain
  {
  }

  lemma NoRoots(d: Data)
    requires FulcioRoots(d) == {}
    ensures FulcioValues(d) == {}
  {
    assert FulcioValues(d) <= FulcioRoots(d);
  }

  lemma Grows(d: Data, m: Data, d': Data, c: Crypto, i: Input)
    requires Sound(c) && Updates(c, None, i, d, [], m) && ExtractFulcioRoot(c.x, i.chain).Root?
    requires Reconcile(Some(d), m).0.Success() && Reconcile(Some(d), m).1 == Some(d')
    ensures d' != map[] && ExtractFulcioRoot(c.x, i.chain).pem in FulcioValues(d')
  {
    var r := ExtractFulcioRoot(c.x, i.chain).pem;
    hide *;
    UpdateWrites(c, None, i, d, [], m);
    OnlyRoot(c, i.chain);
    ReconciledOverwrites(d, m, d');
    ExtractIdempotent(c.x, i.chain);
    ListedSurvives(d, m, d', [r], r);
    HoldsSomething(d', r);
  }

  lemma OnlyRoot(c: Crypto, chain: Bytes)
    requires ExtractFulcioRoot(c.x, chain).Root?
    ensures WithRoot(c, [], chain) == [ExtractFulcioRoot(c.x, chain).pem]
    ensures NewRoots(c, chain) == {ExtractFulcioRoot(c.x, chain).pem}
  {
    hide ExtractFulcioRoot;
  }

  lemma HoldsSomething(d: Data, r: Bytes)
    requires r in FulcioValues(d)
    ensures d != map[]
  {
  }

  // ------------------------------------------------------------ a creation that drops

  function CreatingRun(key: PrivKey, chain: Bytes): Input {
    Input(Generated(Some(key)), "test", 1, "log", "addr", chain, 0, 0)
  }

  function CreatedBy(c: Crypto, i: Input, key: PrivKey): Data {
    Marshalled(c, NewSettings(c, i, key), i.nonce, i.salt)
  }

  lemma CreatingRunCreates(c: Crypto, key: PrivKey, chain: Bytes)
    requires ExtractFulcioRoot(c.x, chain).Root?
    ensures var i := CreatingRun(key, chain);
            i.chain == chain && NewKey(c, i) == Some(key) && Creates(c, i, CreatedBy(c, i, key))
  {
    hide Marshalled, ExtractFulcioRoot, NewSettings;
  }

  lemma OnlyRootStored(r: Bytes)
    ensures var d := map[FulcioKey(0) := r];
            && d != map[] && NeedsCreate(None, d) && r in FulcioValues(d)
            && forall k | k in d && FULCIO <= k && d[k] == r :: k == FulcioKey(0)
  {
    FulcioKeyApart(0);
    var d := map[FulcioKey(0) := r];
    assert FulcioKey(0) in d && d[FulcioKey(0)] == r;
    hide FulcioKey;
  }

  /** A secret that holds a root but no keys: the run that creates the configuration
      succeeds, and the root is gone. */
  lemma CreateDropHappens() returns (c: Crypto, d: Data, i: Input, m: Data, d': Data, r: Bytes)
    ensures Sound(c) && NeedsCreate(None, d) && Creates(c, i, m)
    ensures Reconcile(Some(d), m) == (Updated, Some(d'))
    ensures r in FulcioValues(d) && r !in FulcioValues(d')
  {
    c := SomeCrypto();
    SomeCryptoSound();
    var certA, certB := Certificate("a", false, 0, 0), Certificate("b", false, 0, 0);
    assert Genuine(c.x, certA) && Genuine(c.x, certB);
    hide *;
    r := EncodeCert(c.x, certA);
    var t := EncodeCert(c.x, certB);
    d := map[FulcioKey(0) := r];
    OnlyRootStored(r);
    ChainOf(c, certB);
    CreatingRunCreates(c, PrivKey(0), t);
    i := CreatingRun(PrivKey(0), t);
    m := CreatedBy(c, i, PrivKey(0));
    NonEmptySucceeds(d, m);
    d' := Reconcile(Some(d), m).1.value;
    EncodedNonEmpty(c.x, certA);
    assert r != t by {
      if r == t {
        EncodeInjective(c.x, certA, certB);
      }
    }
    CreateDropsRoot(c, i, d, m, d', r);
    ChangeHappens(d, m, d');
  }

  // ---------------------------------------------------- creations that replace the keys

  /** Two runs create from nothing with different keys, both succeed, and the earlier one
      publishes last: the two secrets hold different public keys. */
  lemma KeyOverlapHappens() returns (c: Crypto, mA: Data, mB: Data, dA: Data, dB: Data, pub: Data)
    ensures Sound(c) && NeedsCreate(None, map[])
    ensures exists a, b :: Creates(c, a, mA) && Creates(c, b, mB)
    ensures Reconcile(None, mA) == (Created, Some(dA)) && Reconcile(Some(dA), mB) == (Updated, Some(dB))
    ensures var byB := Reconcile(None, map[PUBLIC := Read(mB, PUBLIC)]);
            byB.0 == Created && Reconcile(byB.1, map[PUBLIC := Read(mA, PUBLIC)]) == (Updated, Some(pub))
    ensures Read(pub, PUBLIC) != Read(dB, PUBLIC)
  {
    c := SomeCrypto();
    SomeCryptoSound();
    assert c.pub(PrivKey(0)) != c.pub(PrivKey(1));
    var cert := Certificate("a", false, 0, 0);
    assert Genuine(c.x, cert) && NeedsCreate(None, map[]);
    hide *;
    var chain := EncodeCert(c.x, cert);
    ChainOf(c, cert);
    CreatingRunCreates(c, PrivKey(0), chain);
    CreatingRunCreates(c, PrivKey(1), chain);
    var a, b := CreatingRun(PrivKey(0), chain), CreatingRun(PrivKey(1), chain);
    mA, mB := CreatedBy(c, a, PrivKey(0)), CreatedBy(c, b, PrivKey(1));
    dA, dB, pub := SecondWrites(c, a, b, mA, mB);
  }

  lemma SecondWrites(c: Crypto, a: Input, b: Input, mA: Data, mB: Data) returns (dA: Data, dB: Data, pub: Data)
    requires Sound(c) && Creates(c, a, mA) && Creates(c, b, mB)
    requires c.pub(NewKey(c, a).value) != c.pub(NewKey(c, b).value)
    ensures Reconcile(None, mA) == (Created, Some(dA)) && Reconcile(Some(dA), mB) == (Updated, Some(dB))
    ensures var byB := Reconcile(None, map[PUBLIC := Read(mB, PUBLIC)]);
            byB.0 == Created && Reconcile(byB.1, map[PUBLIC := Read(mA, PUBLIC)]) == (Updated, Some(pub))
    ensures Read(pub, PUBLIC) != Read(dB, PUBLIC)
  {
    dA := mA;
    var p := map[PUBLIC := Read(mB, PUBLIC)];
    var q := map[PUBLIC := Read(mA, PUBLIC)];
    assert PUBLIC in p && PUBLIC in q;
    assert Reconcile(None, mA) == (Created, Some(mA)) && Reconcile(None, p) == (Created, Some(p));
    OverlappingCreations(c, a, b, mA, mB, None);
    OverlappingPublication(c, a, b, mA, mB, None, Some(p));
    CreateSends(c, a, mA);
    CreateSends(c, b, mB);
    SamePublic(c, c.pub(NewKey(c, a).value), c.pub(NewKey(c, b).value));
    hide KeysBelong, DecodedSettings, Sound, Creates, NewKey, Overlay;
    assert !Agrees(mA, mB) && !Agrees(p, q);
    dB := Reconcile(Some(dA), mB).1.value;
    pub := Reconcile(Some(p), q).1.value;
  }
}
