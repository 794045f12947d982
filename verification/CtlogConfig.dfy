/** The CT log configuration and its two marshalled forms (tools/ctlog/pkg/ctlog/config.go).

    Keys, encryption and the text form of the protocol buffer are a record of functions
    whose inverse laws are in `Sound`. Encryption and text marshalling take an extra number
    that stands for their randomness.
 */
module CtlogConfig {
  import opened Wrappers
  import opened Strings
  import opened Sorting
  import opened Pem
  import opened PemText
  import opened PemConcat
  import opened Secrets

  datatype PrivKey = PrivKey(id: nat)
  datatype PubKey = PubKey(id: nat)

  /** The private key entry of a log, an arbitrary protocol buffer message. */
  datatype KeyMessage = PemKeyFile(path: string, password: string) | OtherMessage | Undecodable

  datatype LogConfig = LogConfig(
    logId: int, prefix: string, rootsPemFile: seq<string>, privateKey: KeyMessage,
    publicKeyDer: Bytes, backendName: string, extKeyUsages: seq<string>)

  datatype Backend = Backend(name: string, spec: string)

  datatype MultiConfig = MultiConfig(logConfigs: Option<seq<LogConfig>>, backends: Option<seq<Backend>>)

  datatype Crypto = Crypto(
    x: Codec,
    pub: PrivKey -> PubKey,
    encrypt: (PrivKey, string, nat) -> Bytes,
    decrypt: (Bytes, string) -> Option<PrivKey>,
    pubPem: PubKey -> Bytes,
    parsePub: Bytes -> Option<PubKey>,
    pubDer: PubKey -> Bytes,
    marshal: (MultiConfig, nat) -> Bytes,
    unmarshal: Bytes -> Option<MultiConfig>)

  ghost predicate Sound(c: Crypto) {
    && Lawful(c.x)
    && (forall k, pw, n :: c.decrypt(c.encrypt(k, pw, n), pw) == Some(k))
    && (forall pw :: c.decrypt("", pw) == None)
    && (forall p :: c.parsePub(c.pubPem(p)) == Some(p))
    && c.parsePub("") == None
    && (forall m, n :: c.unmarshal(c.marshal(m, n)) == Some(m))
    && c.unmarshal("") == Some(MultiConfig(None, None))
  }

  const CONFIG := "config"
  const PRIVATE := "private"
  const PUBLIC := "public"
  const LEGACY := "rootca"
  const FULCIO := "fulcio-"
  const ROOTS_DIR := "/ctfe-keys/"
  const KEY_FILE := "/ctfe-keys/private"

  /** The fields of a Config. */
  datatype Settings = Settings(
    privKey: PrivKey, password: string, pubKey: PubKey, logId: int, prefix: string,
    serverAddr: string, fulcioCerts: seq<Bytes>)

  // --------------------------------------------------------- the list of Fulcio roots

  datatype Extraction = Root(pem: Bytes) | Failed(error: ParseError) | IndexPanic

  /** extractFulcioRoot: the last certificate of the chain. An input without any
      certificate parses, and indexing its last one panics. */
  function ExtractFulcioRoot(x: Codec, chain: Bytes): Extraction {
    match ParseAll(x, chain)
    case Err(e) => Failed(e)
    case Ok(cs) => if cs == [] then IndexPanic else Root(EncodeCert(x, cs[|cs| - 1]))
  }

  /** The root of a chain is its last certificate, and nothing else in it matters. */
  lemma ExtractsLast(x: Codec, chain: Bytes, front: seq<Certificate>, last: Certificate)
    requires ParseAll(x, chain) == Ok(front + [last])
    ensures ExtractFulcioRoot(x, chain) == Root(EncodeCert(x, last))
  {
    hide ParseAll, EncodeCert;
  }

  lemma {:induction false} CertsAt(x: Codec, bs: seq<Placed>, i: nat)
    requires BlocksOk(x, bs) && i < |bs|
    ensures Certs(x, bs)[i] == CertOf(x, bs[i])
  {
    hide BlockOk, CertOf;
    if i == 0 {
    } else {
      CertsAt(x, bs[1..], i - 1);
    }
  }

  /** The same on the text: adding a chain adds the certificate of its last block, and a
      chain without blocks makes the program panic. */
  lemma ExtractsLastBlock(x: Codec, p: Piece)
    requires WellFormed(x, p)
    ensures ExtractFulcioRoot(x, Text(p)) ==
            if p.blocks == [] then IndexPanic else Root(EncodeCert(x, CertOf(x, p.blocks[|p.blocks| - 1])))
  {
    hide ParseAll, EncodeCert, Text, BlockOk, CertOf;
    ParsePiece(x, p);
    if p.blocks == [] {
    } else {
      var n := |p.blocks| - 1;
      CertsAt(x, p.blocks, n);
      var cs := Certs(x, p.blocks);
      assert cs == cs[..n] + [cs[n]];
      ExtractsLast(x, Text(p), cs[..n], cs[n]);
    }
  }

  function Added(certs: seq<Bytes>, root: Bytes): seq<Bytes> {
    if root in certs then certs else certs + [root]
  }

  function Removed(certs: seq<Bytes>, root: Bytes): (r: seq<Bytes>)
    ensures forall b :: b in r <==> b in certs && b != root
  {
    if certs == [] then []
    else if certs[|certs| - 1] == root then Removed(certs[..|certs| - 1], root)
    else Removed(certs[..|certs| - 1], root) + [certs[|certs| - 1]]
  }

  class Config {
    var privKey: PrivKey
    var password: string
    var pubKey: PubKey
    var logId: int
    var prefix: string
    var serverAddr: string
    var fulcioCerts: seq<Bytes>

    constructor (s: Settings)
      ensures View() == s
    {
      privKey, password, pubKey := s.privKey, s.password, s.pubKey;
      logId, prefix, serverAddr := s.logId, s.prefix, s.serverAddr;
      fulcioCerts := s.fulcioCerts;
    }

    function View(): Settings
      reads this
    {
      Settings(privKey, password, pubKey, logId, prefix, serverAddr, fulcioCerts)
    }

    method AddFulcioRoot(x: Codec, chain: Bytes) returns (r: Extraction)
      modifies this`fulcioCerts
      ensures r == ExtractFulcioRoot(x, chain)
      ensures fulcioCerts == if r.Root? then Added(old(fulcioCerts), r.pem) else old(fulcioCerts)
    {
      hide ParseAll;
      var parsed := ReadChain(x, chain);
      if parsed.Err? {
        return Failed(parsed.error);
      }
      if |parsed.value| == 0 {
        return IndexPanic;
      }
      var root := EncodeCert(x, parsed.value[|parsed.value| - 1]);
      for i := 0 to |fulcioCerts|
        invariant root !in fulcioCerts[..i]
        invariant fulcioCerts == old(fulcioCerts)
      {
        if fulcioCerts[i] == root {
          return Root(root);
        }
      }
      assert fulcioCerts[..|fulcioCerts|] == fulcioCerts;
      fulcioCerts := fulcioCerts + [root];
      return Root(root);
    }

    method RemoveFulcioRoot(x: Codec, chain: Bytes) returns (r: Extraction)
      modifies this`fulcioCerts
      ensures r == ExtractFulcioRoot(x, chain)
      ensures fulcioCerts == if r.Root? then Removed(old(fulcioCerts), r.pem) else old(fulcioCerts)
    {
      hide ParseAll;
      var parsed := ReadChain(x, chain);
      if parsed.Err? {
        return Failed(parsed.error);
      }
      if |parsed.value| == 0 {
        return IndexPanic;
      }
      var root := EncodeCert(x, parsed.value[|parsed.value| - 1]);
      var newCerts: seq<Bytes> := [];
      for i := 0 to |fulcioCerts|
        invariant newCerts == Removed(fulcioCerts[..i], root)
        invariant fulcioCerts == old(fulcioCerts)
      {
        assert fulcioCerts[..i + 1][..i] == fulcioCerts[..i];
        if fulcioCerts[i] != root {
          newCerts := newCerts + [fulcioCerts[i]];
        }
      }
      assert fulcioCerts[..|fulcioCerts|] == fulcioCerts;
      fulcioCerts := newCerts;
      return Root(root);
    }
  }

  /** Calls of the two methods, and the set they act on. */
  datatype RootOp = AddRoot(chain: Bytes) | RemoveRoot(chain: Bytes)

  function ApplyOps(x: Codec, certs: seq<Bytes>, ops: seq<RootOp>): seq<Bytes>
    decreases |ops|
  {
    if ops == [] then certs
    else
      var before := ApplyOps(x, certs, ops[..|ops| - 1]);
      var op := ops[|ops| - 1];
      match ExtractFulcioRoot(x, op.chain)
      case Root(pem) => if op.AddRoot? then Added(before, pem) else Removed(before, pem)
      case _ => before
  }

  /** The same calls on a set of roots. */
  function ApplyToSet(x: Codec, roots: set<Bytes>, ops: seq<RootOp>): set<Bytes>
    decreases |ops|
  {
    if ops == [] then roots
    else
      var before := ApplyToSet(x, roots, ops[..|ops| - 1]);
      var op := ops[|ops| - 1];
      match ExtractFulcioRoot(x, op.chain)
      case Root(pem) => if op.AddRoot? then before + {pem} else before - {pem}
      case _ => before
  }

  function SetOf(s: seq<Bytes>): (r: set<Bytes>) {
    set b | b in s
  }

  lemma {:induction false} RemovedDistinct(certs: seq<Bytes>, root: Bytes)
    requires Distinct(certs)
    ensures Distinct(Removed(certs, root))
    decreases |certs|
  {
    if certs == [] {
    } else {
      var front, last := certs[..|certs| - 1], certs[|certs| - 1];
      RemovedDistinct(front, root);
      var r := Removed(front, root);
      forall i | 0 <= i < |r|
        ensures r[i] != last
      {
        assert r[i] in r;
        assert r[i] in front;
      }
    }
  }

  /** The list never gets a duplicate and always lists exactly the set of roots. */
  lemma {:induction false} RootListIsASet(x: Codec, certs: seq<Bytes>, ops: seq<RootOp>)
    requires Distinct(certs)
    ensures Distinct(ApplyOps(x, certs, ops))
    ensures SetOf(ApplyOps(x, certs, ops)) == ApplyToSet(x, SetOf(certs), ops)
    decreases |ops|
  {
    hide ExtractFulcioRoot;
    if ops == [] {
    } else {
      var front, op := ops[..|ops| - 1], ops[|ops| - 1];
      RootListIsASet(x, certs, front);
      var before := ApplyOps(x, certs, front);
      if ExtractFulcioRoot(x, op.chain).Root? {
        var pem := ExtractFulcioRoot(x, op.chain).pem;
        RemovedDistinct(before, pem);
        assert SetOf(Added(before, pem)) == SetOf(before) + {pem};
        assert SetOf(Removed(before, pem)) == SetOf(before) - {pem};
      }
    }
  }

  lemma {:induction false} RemovedAbsent(certs: seq<Bytes>, root: Bytes)
    requires root !in certs
    ensures Removed(certs, root) == certs
    decreases |certs|
  {
    if certs == [] {
    } else {
      RemovedAbsent(certs[..|certs| - 1], root);
    }
  }

  /** Adding a root that was not there and removing it restores the list, order included. */
  lemma AddThenRemove(x: Codec, certs: seq<Bytes>, chain: Bytes)
    requires ExtractFulcioRoot(x, chain).Root? && ExtractFulcioRoot(x, chain).pem !in certs
    ensures ApplyOps(x, certs, [AddRoot(chain), RemoveRoot(chain)]) == certs
  {
    hide ExtractFulcioRoot;
    var pem := ExtractFulcioRoot(x, chain).pem;
    var ops := [AddRoot(chain), RemoveRoot(chain)];
    assert ops[..1] == [AddRoot(chain)];
    assert ops[..1][..0] == [];
    assert ApplyOps(x, certs, ops[..1]) == certs + [pem];
    assert (certs + [pem])[..|certs|] == certs;
    RemovedAbsent(certs, pem);
  }

  /** A stored root is its own extraction: adding it again finds it. */
  lemma ExtractIdempotent(x: Codec, chain: Bytes)
    requires Lawful(x) && ExtractFulcioRoot(x, chain).Root?
    ensures ExtractFulcioRoot(x, ExtractFulcioRoot(x, chain).pem) == ExtractFulcioRoot(x, chain)
    ensures ExtractFulcioRoot(x, chain).pem != ""
  {
    hide ParseFrom, EncodeCert;
    var cs := ParseAll(x, chain).value;
    assert Genuine(x, cs[|cs| - 1]) by {
      ReadIsGenuine(x, TrimSpace(chain));
    }
    hide ParseAll, TrimSpace;
    EncodeThenRead(x, cs[|cs| - 1]);
    EncodedNonEmpty(x, cs[|cs| - 1]);
  }

  lemma EncodedNonEmpty(x: Codec, c: Certificate)
    ensures EncodeCert(x, c) != ""
  {
  }

  // -------------------------------------------------------------------- marshalling

  function FulcioKey(i: nat): string {
    FULCIO + Decimal(i)
  }

  lemma FulcioKeyInjective(i: nat, j: nat)
    requires FulcioKey(i) == FulcioKey(j)
    ensures i == j
  {
    assert FulcioKey(i)[7..] == Decimal(i) && FulcioKey(j)[7..] == Decimal(j);
    DecimalInjective(i, j);
  }

  lemma FulcioKeyApart(i: nat)
    ensures FULCIO <= FulcioKey(i)
    ensures FulcioKey(i) !in {CONFIG, PRIVATE, PUBLIC, LEGACY}
  {
    assert FulcioKey(i)[0] == 'f';
  }

  lemma NamedKeysApart()
    ensures CONFIG != PRIVATE && CONFIG != PUBLIC && PRIVATE != PUBLIC
    ensures LEGACY !in {CONFIG, PRIVATE, PUBLIC}
    ensures !(FULCIO <= CONFIG) && !(FULCIO <= PRIVATE) && !(FULCIO <= PUBLIC) && !(FULCIO <= LEGACY)
  {
    assert CONFIG[0] == 'c' && LEGACY[0] == 'r' && FULCIO[0] == 'f';
    assert PRIVATE[1] == 'r' && PUBLIC[1] == 'u' && PRIVATE[0] == 'p' && PUBLIC[0] == 'p';
  }

  function RootPaths(n: nat): (r: seq<string>)
    ensures |r| == n
  {
    seq(n, i requires 0 <= i < n => ROOTS_DIR + FulcioKey(i))
  }

  /** The keys and paths of the first roots, written out. */
  lemma FirstRootNames()
    ensures FulcioKey(0) == "fulcio-0" && FulcioKey(10) == "fulcio-10"
    ensures RootPaths(1) == ["/ctfe-keys/fulcio-0"]
  {
    assert Decimal(10) == Decimal(1) + "0";
    assert RootPaths(1)[0] == ROOTS_DIR + FulcioKey(0);
    assert ROOTS_DIR + FulcioKey(0) == "/ctfe-keys/fulcio-0";
  }

  function ProtoOf(c: Crypto, s: Settings): MultiConfig {
    MultiConfig(
      Some([LogConfig(s.logId, s.prefix, RootPaths(|s.fulcioCerts|), PemKeyFile(KEY_FILE, s.password),
                      c.pubDer(c.pub(s.privKey)), "trillian", ["CodeSigning"])]),
      Some([Backend("trillian", s.serverAddr)]))
  }

  /** The entries for a list of roots. */
  function FulcioEntries(certs: seq<Bytes>): Data
    decreases |certs|
  {
    if certs == [] then map[]
    else FulcioEntries(certs[..|certs| - 1])[FulcioKey(|certs| - 1) := certs[|certs| - 1]]
  }

  function Marshalled(c: Crypto, s: Settings, nonce: nat, salt: nat): Data {
    (map[PRIVATE := c.encrypt(s.privKey, s.password, nonce), PUBLIC := c.pubPem(c.pub(s.privKey))]
     + FulcioEntries(s.fulcioCerts))[CONFIG := c.marshal(ProtoOf(c, s), salt)]
  }

  lemma {:induction false} FulcioEntriesAre(certs: seq<Bytes>)
    ensures forall k :: k in FulcioEntries(certs) <==> exists i: nat :: i < |certs| && k == FulcioKey(i)
    ensures forall i: nat | i < |certs| ::
              FulcioKey(i) in FulcioEntries(certs) && FulcioEntries(certs)[FulcioKey(i)] == certs[i]
    decreases |certs|
  {
    hide FulcioKey;
    if certs == [] {
    } else {
      var n := |certs| - 1;
      FulcioEntriesAre(certs[..n]);
      forall i: nat | i < n
        ensures FulcioKey(i) != FulcioKey(n)
      {
        if FulcioKey(i) == FulcioKey(n) {
          FulcioKeyInjective(i, n);
        }
      }
    }
  }

  method MarshalSecrets(c: Crypto, s: Settings, nonce: nat) returns (data: Data)
    ensures data == map[PRIVATE := c.encrypt(s.privKey, s.password, nonce), PUBLIC := c.pubPem(c.pub(s.privKey))]
                    + FulcioEntries(s.fulcioCerts)
  {
    hide FulcioKey;
    var keys := map[PRIVATE := c.encrypt(s.privKey, s.password, nonce), PUBLIC := c.pubPem(c.pub(s.privKey))];
    data := keys;
    for i := 0 to |s.fulcioCerts|
      invariant data == keys + FulcioEntries(s.fulcioCerts[..i])
    {
      assert s.fulcioCerts[..i + 1][..i] == s.fulcioCerts[..i];
      data := data[FulcioKey(i) := s.fulcioCerts[i]];
    }
    assert s.fulcioCerts[..|s.fulcioCerts|] == s.fulcioCerts;
  }

  method MarshalConfig(c: Crypto, s: Settings, nonce: nat, salt: nat) returns (data: Data)
    ensures data == Marshalled(c, s, nonce, salt)
  {
    hide FulcioKey;
    var rootPems: seq<string> := [];
    for i := 0 to |s.fulcioCerts|
      invariant rootPems == RootPaths(i)
    {
      rootPems := rootPems + [ROOTS_DIR + FulcioKey(i)];
    }
    var log := LogConfig(s.logId, s.prefix, rootPems, PemKeyFile(KEY_FILE, s.password),
                         c.pubDer(c.pub(s.privKey)), "trillian", ["CodeSigning"]);
    var multi := MultiConfig(Some([log]), Some([Backend("trillian", s.serverAddr)]));
    data := MarshalSecrets(c, s, nonce);
    data := data[CONFIG := c.marshal(multi, salt)];
  }

  // ------------------------------------------------------------------ unmarshalling

  /** The values of the entries whose key starts with "fulcio-". */
  function FulcioValues(d: Data): set<Bytes> {
    set k | k in d && FULCIO <= k :: d[k]
  }

  function LegacyRoots(d: Data): set<Bytes> {
    if LEGACY in d && d[LEGACY] != "" then {d[LEGACY]} else {}
  }

  function FulcioRoots(d: Data): set<Bytes> {
    LegacyRoots(d) + FulcioValues(d)
  }

  /** The roots, entry by entry: the legacy entry unless it is empty, and every "fulcio-"
      entry, empty or not. */
  lemma RootEntries(d: Data, v: Bytes)
    ensures v in FulcioRoots(d) <==>
            (LEGACY in d && d[LEGACY] == v && v != "") || exists k :: k in d && FULCIO <= k && d[k] == v
  {
  }

  ghost predicate Enumerates(certs: seq<Bytes>, roots: set<Bytes>) {
    Distinct(certs) && SetOf(certs) == roots
  }

  datatype UnmarshalError = MissingEntry | BadProto | WrongLogConfigs | WrongBackends | BadPublicKey | BadPrivateKey

  function TheLog(m: MultiConfig): Option<LogConfig> {
    if m.logConfigs.Some? && |m.logConfigs.value| == 1 then Some(m.logConfigs.value[0]) else None
  }

  /** Everything Unmarshal decodes except the roots. */
  function DecodedSettings(c: Crypto, d: Data): Result<Settings, UnmarshalError> {
    if CONFIG !in d || PRIVATE !in d || PUBLIC !in d then Err(MissingEntry)
    else match c.unmarshal(d[CONFIG])
      case None => Err(BadProto)
      case Some(m) =>
        if TheLog(m).None? then Err(WrongLogConfigs)
        else
          var log := TheLog(m).value;
          if m.backends.None? || |m.backends.value| != 1 then Err(WrongBackends)
          else if c.parsePub(d[PUBLIC]).None? then Err(BadPublicKey)
          else if !log.privateKey.PemKeyFile? then Err(BadPrivateKey)
          else match c.decrypt(d[PRIVATE], log.privateKey.password)
            case None => Err(BadPrivateKey)
            case Some(k) =>
              Ok(Settings(k, log.privateKey.password, c.parsePub(d[PUBLIC]).value, log.logId, log.prefix,
                          m.backends.value[0].spec, []))
  }

  /** The entries of `d` hold the settings `s`, with `log` and `backend` the only ones of
      the configuration. */
  ghost predicate HoldsSettings(c: Crypto, d: Data, log: LogConfig, backend: Backend, s: Settings) {
    && CONFIG in d && PRIVATE in d && PUBLIC in d
    && c.unmarshal(d[CONFIG]) == Some(MultiConfig(Some([log]), Some([backend])))
    && log.privateKey.PemKeyFile? && log.privateKey.password == s.password
    && c.decrypt(d[PRIVATE], s.password) == Some(s.privKey)
    && c.parsePub(d[PUBLIC]) == Some(s.pubKey)
    && (s.logId, s.prefix, s.serverAddr, s.fulcioCerts) == (log.logId, log.prefix, backend.spec, [])
  }

  /** Decoding succeeds exactly when the entries hold settings, and yields those. */
  lemma DecodesIff(c: Crypto, d: Data, s: Settings)
    ensures DecodedSettings(c, d) == Ok(s) <==> exists log, backend :: HoldsSettings(c, d, log, backend, s)
  {
    if DecodedSettings(c, d) == Ok(s) {
      var m := c.unmarshal(d[CONFIG]).value;
      var log, backend := m.logConfigs.value[0], m.backends.value[0];
      assert m.logConfigs.value == [log] && m.backends.value == [backend];
      assert HoldsSettings(c, d, log, backend, s);
    }
    if log, backend :| HoldsSettings(c, d, log, backend, s) {
      assert [log][0] == log && [backend][0] == backend;
    }
  }

  /** Which error a secret is refused with; each check is made only if those before it
      passed. */
  lemma DecodeErrors(c: Crypto, d: Data)
    ensures DecodedSettings(c, d) == Err(MissingEntry) <==> CONFIG !in d || PRIVATE !in d || PUBLIC !in d
    ensures DecodedSettings(c, d) == Err(BadProto) <==>
            CONFIG in d && PRIVATE in d && PUBLIC in d && c.unmarshal(d[CONFIG]) == None
    ensures DecodedSettings(c, d) == Err(WrongLogConfigs) <==>
            && CONFIG in d && PRIVATE in d && PUBLIC in d && c.unmarshal(d[CONFIG]).Some?
            && forall log :: c.unmarshal(d[CONFIG]).value.logConfigs != Some([log])
    ensures DecodedSettings(c, d) == Err(WrongBackends) <==>
            && CONFIG in d && PRIVATE in d && PUBLIC in d && c.unmarshal(d[CONFIG]).Some?
            && (exists log :: c.unmarshal(d[CONFIG]).value.logConfigs == Some([log]))
            && forall b :: c.unmarshal(d[CONFIG]).value.backends != Some([b])
    ensures DecodedSettings(c, d) == Err(BadPublicKey) <==>
            && CONFIG in d && PRIVATE in d && PUBLIC in d
            && (exists log, b :: c.unmarshal(d[CONFIG]) == Some(MultiConfig(Some([log]), Some([b]))))
            && c.parsePub(d[PUBLIC]) == None
  {
    if CONFIG in d && c.unmarshal(d[CONFIG]).Some? {
      var m := c.unmarshal(d[CONFIG]).value;
      Singleton(m.logConfigs);
      Singleton(m.backends);
    }
  }

  lemma Singleton<T>(s: Option<seq<T>>)
    ensures (exists a :: s == Some([a])) <==> s.Some? && |s.value| == 1
  {
    if s.Some? && |s.value| == 1 {
      assert s.value == [s.value[0]];
    }
  }

  /** Unmarshal: the roots come out once each, in any order. */
  method Unmarshal(c: Crypto, d: Data) returns (r: Result<Config, UnmarshalError>)
    ensures match DecodedSettings(c, d)
            case Err(e) => r == Err(e)
            case Ok(s) =>
              && r.Ok? && fresh(r.value)
              && r.value.View() == s.(fulcioCerts := r.value.fulcioCerts)
              && Enumerates(r.value.fulcioCerts, FulcioRoots(d))
  {
    hide Enumerates, FulcioRoots;
    if CONFIG !in d || PRIVATE !in d || PUBLIC !in d {
      return Err(MissingEntry);
    }
    var multi := c.unmarshal(d[CONFIG]);
    if multi.None? {
      return Err(BadProto);
    }
    var logConfigs, backends := multi.value.logConfigs, multi.value.backends;
    if logConfigs.None? || |logConfigs.value| != 1 {
      return Err(WrongLogConfigs);
    }
    var log := logConfigs.value[0];
    if backends.None? || |backends.value| != 1 {
      return Err(WrongBackends);
    }
    var pubKey := c.parsePub(d[PUBLIC]);
    if pubKey.None? {
      return Err(BadPublicKey);
    }
    if !log.privateKey.PemKeyFile? {
      return Err(BadPrivateKey);
    }
    var password := log.privateKey.password;
    var privKey := c.decrypt(d[PRIVATE], password);
    if privKey.None? {
      return Err(BadPrivateKey);
    }
    var certs := UniqueRoots(d);
    var config := new Config(Settings(privKey.value, password, pubKey.value, log.logId, log.prefix,
                                      backends.value[0].spec, certs));
    return Ok(config);
  }

  /** The values of the "fulcio-" entries among `keys`. */
  function ValuesAmong(d: Data, keys: set<string>): set<Bytes> {
    set k | k in keys && k in d && FULCIO <= k :: d[k]
  }

  lemma ValuesAmongMore(d: Data, keys: set<string>, k: string)
    requires k in d
    ensures ValuesAmong(d, keys + {k}) == ValuesAmong(d, keys) + if FULCIO <= k then {d[k]} else {}
  {
    forall v
      ensures v in ValuesAmong(d, keys + {k}) <==> v in ValuesAmong(d, keys) || (FULCIO <= k && v == d[k])
    {
    }
  }

  /** The dedupe map of lines 223-237: keyed by content, filled in any order. */
  method Dedupe(d: Data) returns (unique: map<Bytes, Bytes>)
    ensures unique.Keys == FulcioRoots(d) && forall v | v in unique :: unique[v] == v
    ensures forall v :: v in unique <==>
              (LEGACY in d && d[LEGACY] == v && v != "") || exists k :: k in d && FULCIO <= k && d[k] == v
  {
    unique := map[];
    if LEGACY in d && |d[LEGACY]| > 0 {
      unique := unique[d[LEGACY] := d[LEGACY]];
    }
    assert unique.Keys == LegacyRoots(d);
    hide LegacyRoots, ValuesAmong;
    var todo := d.Keys;
    ghost var done: set<string> := {};
    assert ValuesAmong(d, done) == {} by {
      NothingAmong(d);
    }
    while todo != {}
      invariant todo + done == d.Keys && todo !! done
      invariant forall v | v in unique :: unique[v] == v
      invariant unique.Keys == LegacyRoots(d) + ValuesAmong(d, done)
      decreases todo
    {
      var k :| k in todo;
      ValuesAmongMore(d, done, k);
      if FULCIO <= k {
        unique := unique[d[k] := d[k]];
      }
      todo, done := todo - {k}, done + {k};
    }
    assert done == d.Keys;
    AllAmong(d);
    forall v
      ensures v in unique <==>
              (LEGACY in d && d[LEGACY] == v && v != "") || exists k :: k in d && FULCIO <= k && d[k] == v
    {
      RootEntries(d, v);
    }
  }

  lemma NothingAmong(d: Data)
    ensures ValuesAmong(d, {}) == {}
  {
  }

  lemma AllAmong(d: Data)
    ensures ValuesAmong(d, d.Keys) == FulcioValues(d)
  {
  }

  /** The deduplicated roots, in any order. */
  method UniqueRoots(d: Data) returns (certs: seq<Bytes>)
    ensures Enumerates(certs, FulcioRoots(d))
  {
    hide FulcioRoots;
    var unique := Dedupe(d);
    certs := [];
    var left := unique.Keys;
    while left != {}
      invariant left <= unique.Keys
      invariant Distinct(certs) && SetOf(certs) == unique.Keys - left
      decreases left
    {
      var v :| v in left;
      assert v !in SetOf(certs);
      ghost var before := certs;
      certs := certs + [unique[v]];
      left := left - {v};
      assert SetOf(certs) == SetOf(before) + {v};
    }
  }

  // --------------------------------------------------------------------- round trip

  lemma {:induction false} EntriesValues(certs: seq<Bytes>)
    ensures FulcioValues(FulcioEntries(certs)) == SetOf(certs)
  {
    hide FulcioKey, FulcioEntries;
    FulcioEntriesAre(certs);
    var d := FulcioEntries(certs);
    forall b
      ensures b in FulcioValues(d) <==> b in certs
    {
      if b in certs {
        var i :| 0 <= i < |certs| && certs[i] == b;
        FulcioKeyApart(i);
        assert d[FulcioKey(i)] == b;
      }
    }
  }

  /** What marshalling puts under each key. */
  lemma MarshalledEntries(c: Crypto, s: Settings, nonce: nat, salt: nat)
    ensures var d := Marshalled(c, s, nonce, salt);
            && CONFIG in d && d[CONFIG] == c.marshal(ProtoOf(c, s), salt)
            && PRIVATE in d && d[PRIVATE] == c.encrypt(s.privKey, s.password, nonce)
            && PUBLIC in d && d[PUBLIC] == c.pubPem(c.pub(s.privKey))
            && (forall k :: k in d <==> k in {CONFIG, PRIVATE, PUBLIC} || k in FulcioEntries(s.fulcioCerts))
            && (forall k :: k in FulcioEntries(s.fulcioCerts) ==>
                  FULCIO <= k && d[k] == FulcioEntries(s.fulcioCerts)[k])
  {
    FulcioEntriesAre(s.fulcioCerts);
    hide FulcioKey, FulcioEntries, ProtoOf;
    NamedKeysApart();
    forall k | k in FulcioEntries(s.fulcioCerts)
      ensures FULCIO <= k && k !in {CONFIG, PRIVATE, PUBLIC, LEGACY}
    {
      var i: nat :| i < |s.fulcioCerts| && k == FulcioKey(i);
      FulcioKeyApart(i);
    }
  }

  lemma MarshalledRoots(c: Crypto, s: Settings, nonce: nat, salt: nat)
    ensures FulcioRoots(Marshalled(c, s, nonce, salt)) == SetOf(s.fulcioCerts)
  {
    hide Marshalled, FulcioEntries;
    MarshalledEntries(c, s, nonce, salt);
    NamedKeysApart();
    EntriesValues(s.fulcioCerts);
    var d, e := Marshalled(c, s, nonce, salt), FulcioEntries(s.fulcioCerts);
    assert LEGACY !in d;
    assert forall k :: k in d && FULCIO <= k <==> k in e;
    assert FulcioValues(d) == FulcioValues(e);
  }

  /** Marshalling and unmarshalling gives the configuration back, up to the order of its
      roots, whenever these are distinct and the two keys belong together. */
  lemma MarshalThenUnmarshal(c: Crypto, s: Settings, nonce: nat, salt: nat)
    requires Sound(c) && s.pubKey == c.pub(s.privKey)
    ensures var d := Marshalled(c, s, nonce, salt);
            && DecodedSettings(c, d) == Ok(s.(fulcioCerts := []))
            && FulcioRoots(d) == SetOf(s.fulcioCerts)
  {
    hide Marshalled, FulcioEntries, RootPaths;
    MarshalledEntries(c, s, nonce, salt);
    MarshalledRoots(c, s, nonce, salt);
    assert c.decrypt(c.encrypt(s.privKey, s.password, nonce), s.password) == Some(s.privKey);
    assert c.parsePub(c.pubPem(c.pub(s.privKey))) == Some(c.pub(s.privKey));
    assert c.unmarshal(c.marshal(ProtoOf(c, s), salt)) == Some(ProtoOf(c, s));
  }

  lemma {:induction false} EnumerationsPermute(a: seq<Bytes>, b: seq<Bytes>)
    requires Distinct(a) && Distinct(b) && SetOf(a) == SetOf(b)
    ensures multiset(a) == multiset(b) && |a| == |b|
  {
    forall x: Bytes
      ensures multiset(a)[x] == multiset(b)[x]
    {
      assert x in SetOf(a) <==> x in SetOf(b);
      Multiplicity(a, x);
      Multiplicity(b, x);
    }
    assert |multiset(a)| == |a| && |multiset(b)| == |b|;
  }

  lemma {:induction false} Multiplicity(s: seq<Bytes>, x: Bytes)
    requires Distinct(s)
    ensures multiset(s)[x] == if x in s then 1 else 0
  {
    if s == [] {
    } else {
      assert s == [s[0]] + s[1..];
      Multiplicity(s[1..], x);
    }
  }

  /** Consequently the roots read back are a permutation of those marshalled. */
  lemma RoundTripPermutes(c: Crypto, s: Settings, nonce: nat, salt: nat, certs: seq<Bytes>)
    requires Sound(c) && s.pubKey == c.pub(s.privKey) && Distinct(s.fulcioCerts)
    requires Enumerates(certs, FulcioRoots(Marshalled(c, s, nonce, salt)))
    ensures multiset(certs) == multiset(s.fulcioCerts)
  {
    hide Marshalled, FulcioRoots, SetOf;
    MarshalThenUnmarshal(c, s, nonce, salt);
    EnumerationsPermute(certs, s.fulcioCerts);
  }
}
