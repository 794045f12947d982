/** What every run of createctconfig keeps. */
module CtlogInvariants {
  import opened Wrappers
  import opened Strings
  import opened Sorting
  import opened Secrets
  import opened CtlogConfig
  import opened CtlogRuns

  // ------------------------------------------------------------- after one main write

  /** What reconciling leaves in a secret that was not created from nothing. */
  lemma ReconciledReads(s: Option<Data>, m: Data)
    requires Reconcile(s, m).0.Success()
    ensures var d := Content(Reconcile(s, m).1);
            && Reconcile(s, m).1.Some?
            && (forall k | k in m :: Read(d, k) == m[k])
            && (forall k | k in m && m[k] != "" :: k in d && d[k] == m[k])
            && (forall k | k !in m :: (k in d <==> k in Content(s)) && (k in d ==> d[k] == Content(s)[k]))
  {
    var d := Content(Reconcile(s, m).1);
    ReconcileIdempotent(s, m);
    if s.Some? && !Agrees(s.value, m) {
      OverlayCharacterised(s.value, m, d);
      forall k | k !in m && k in d
        ensures d[k] == s.value[k]
      {
        assert Read(d, k) == Read(s.value, k);
      }
    }
  }

  /** The certificates that a run makes the log trust. */
  lemma MarshalledUpdate(c: Crypto, s: Settings, nonce: nat, salt: nat)
    requires Sound(c)
    ensures var m := WithoutKeys(Marshalled(c, s, nonce, salt));
            && PRIVATE !in m && PUBLIC !in m
            && CONFIG in m && m[CONFIG] == c.marshal(ProtoOf(c, s), salt) && m[CONFIG] != ""
            && (forall k :: k in m && k != CONFIG <==> exists i: nat :: i < |s.fulcioCerts| && k == FulcioKey(i))
            && (forall i: nat | i < |s.fulcioCerts| :: FulcioKey(i) in m && m[FulcioKey(i)] == s.fulcioCerts[i])
            && (forall k :: k in m && k != CONFIG ==> FULCIO <= k)
  {
    MarshalledEntries(c, s, nonce, salt);
    FulcioEntriesAre(s.fulcioCerts);
    hide Marshalled, FulcioEntries, FulcioKey;
    NamedKeysApart();
    assert c.unmarshal(c.marshal(ProtoOf(c, s), salt)) == Some(ProtoOf(c, s));
    forall i: nat | i < |s.fulcioCerts|
      ensures FULCIO <= FulcioKey(i) && FulcioKey(i) !in {CONFIG, PRIVATE, PUBLIC}
    {
      FulcioKeyApart(i);
    }
  }

  // ------------------------------------------------------------------------- the keys

  /** The keys in the secret belong together: the password in the configuration decrypts
      the private key, and its public half is both the public entry and the configured
      one. */
  ghost predicate KeysBelong(c: Crypto, d: Data) {
    && PRIVATE in d && PUBLIC in d && CONFIG in d
    && c.unmarshal(d[CONFIG]).Some?
    && TheLog(c.unmarshal(d[CONFIG]).value).Some?
    && var log := TheLog(c.unmarshal(d[CONFIG]).value).value;
       && log.privateKey.PemKeyFile?
       && c.decrypt(d[PRIVATE], log.privateKey.password).Some?
       && var k := c.decrypt(d[PRIVATE], log.privateKey.password).value;
          d[PUBLIC] == c.pubPem(c.pub(k)) && log.publicKeyDer == c.pubDer(c.pub(k))
  }

  lemma CreateBelongs(c: Crypto, i: Input, s: Option<Data>, m: Data)
    requires Sound(c) && Creates(c, i, m) && Reconcile(s, m).0.Success()
    ensures KeysBelong(c, Content(Reconcile(s, m).1))
  {
    var k := NewKey(c, i).value;
    var settings := NewSettings(c, i, k);
    hide Marshalled, NewSettings, Reconcile, RootPaths, ExtractFulcioRoot;
    MarshalledEntries(c, settings, i.nonce, i.salt);
    ReconciledReads(s, m);
    NewSettingsKey(c, i, k);
    assert c.unmarshal(m[CONFIG]) == Some(ProtoOf(c, settings));
    assert c.decrypt(m[PRIVATE], settings.password) == Some(settings.privKey);
    assert c.parsePub(m[PUBLIC]) == Some(c.pub(settings.privKey));
    assert m[CONFIG] != "" && m[PRIVATE] != "" && m[PUBLIC] != "";
  }

  lemma NewSettingsKey(c: Crypto, i: Input, k: PrivKey)
    ensures NewSettings(c, i, k).privKey == k
  {
  }

  lemma DecodedKeys(c: Crypto, d: Data)
    requires KeysBelong(c, d) && DecodedSettings(c, d).Ok?
    ensures var s := DecodedSettings(c, d).value;
            c.decrypt(d[PRIVATE], s.password) == Some(s.privKey) && d[PUBLIC] == c.pubPem(c.pub(s.privKey))
  {
  }

  lemma BelongsFrom(c: Crypto, s: Settings, d: Data)
    requires PRIVATE in d && PUBLIC in d && CONFIG in d && c.unmarshal(d[CONFIG]) == Some(ProtoOf(c, s))
    requires c.decrypt(d[PRIVATE], s.password) == Some(s.privKey) && d[PUBLIC] == c.pubPem(c.pub(s.privKey))
    ensures KeysBelong(c, d)
  {
    hide RootPaths;
  }

  /** An update writes neither key and keeps them together. */
  lemma UpdateBelongs(c: Crypto, cm: Option<Bytes>, i: Input, d: Data, certs: seq<Bytes>, m: Data)
    requires Sound(c) && KeysBelong(c, d) && Updates(c, cm, i, d, certs, m) && Reconcile(Some(d), m).0.Success()
    ensures var d' := Content(Reconcile(Some(d), m).1);
            KeysBelong(c, d') && Read(d', PRIVATE) == Read(d, PRIVATE) && Read(d', PUBLIC) == Read(d, PUBLIC)
  {
    assert Effective(cm, d) == d && PRIVATE in d && PUBLIC in d;
    DecodedKeys(c, d);
    var s := DecodedSettings(c, d).value.(fulcioCerts := WithRoot(c, certs, i.chain));
    hide Marshalled, Reconcile, ProtoOf, DecodedSettings, KeysBelong, WithRoot, Enumerates;
    MarshalledUpdate(c, s, i.nonce, i.salt);
    ReconciledReads(Some(d), m);
    assert c.unmarshal(m[CONFIG]) == Some(ProtoOf(c, s));
    BelongsFrom(c, s, Content(Reconcile(Some(d), m).1));
  }

  /** One run, from a secret whose keys belong together. */
  lemma StepBelongs(c: Crypto, cm: Option<Bytes>, w: World, w': World)
    requires Sound(c) && Step(c, cm, w, w') && KeysBelong(c, Content(w.main))
    ensures w'.main.Some? && KeysBelong(c, Content(w'.main))
    ensures Read(Content(w'.main), PRIVATE) == Read(Content(w.main), PRIVATE)
    ensures Read(Content(w'.main), PUBLIC) == Read(Content(w.main), PUBLIC)
  {
    if w' != w {
      var i, m, finished :| Wrote(c, cm, i, w, w', m, finished);
      var d := Content(w.main);
      assert !NeedsCreate(cm, d);
      var certs :| Updates(c, cm, i, d, certs, m);
      UpdateBelongs(c, cm, i, d, certs, m);
    }
  }

  /** One run, from a secret that still needs its configuration. */
  lemma StepCreates(c: Crypto, cm: Option<Bytes>, w: World, w': World)
    requires Sound(c) && Step(c, cm, w, w') && NeedsCreate(cm, Content(w.main))
    ensures w'.main == w.main || KeysBelong(c, Content(w'.main))
  {
    hide KeysBelong;
    if w' != w {
      var i, m, finished :| Wrote(c, cm, i, w, w', m, finished);
      CreateBelongs(c, i, w.main, m);
    }
  }

  /** A sequence of runs, each of which may fail or crash. */
  ghost predicate Runs(c: Crypto, cm: Option<Bytes>, ws: seq<World>) {
    |ws| > 0 && forall i | 0 <= i < |ws| - 1 :: Step(c, cm, ws[i], ws[i + 1])
  }

  /** From any secret without private key, public key or configuration, and whatever runs
      crash: at every moment either the main secret is still untouched or its keys belong
      together. */
  lemma {:induction false} KeysAlwaysBelong(c: Crypto, cm: Option<Bytes>, ws: seq<World>, j: nat)
    requires Sound(c) && Runs(c, cm, ws) && NeedsCreate(cm, Content(ws[0].main)) && j < |ws|
    ensures ws[j].main == ws[0].main || KeysBelong(c, Content(ws[j].main))
  {
    hide KeysBelong, Step, NeedsCreate;
    if j == 0 {
    } else {
      KeysAlwaysBelong(c, cm, ws, j - 1);
      assert Step(c, cm, ws[j - 1], ws[j]);
      if KeysBelong(c, Content(ws[j - 1].main)) {
        StepBelongs(c, cm, ws[j - 1], ws[j]);
      } else {
        StepCreates(c, cm, ws[j - 1], ws[j]);
      }
    }
  }

  /** Once the keys belong together they are never replaced. */
  lemma {:induction false} KeysNeverChange(c: Crypto, cm: Option<Bytes>, ws: seq<World>, i: nat, j: nat)
    requires Sound(c) && Runs(c, cm, ws) && i <= j < |ws| && KeysBelong(c, Content(ws[i].main))
    ensures KeysBelong(c, Content(ws[j].main))
    ensures Read(Content(ws[j].main), PRIVATE) == Read(Content(ws[i].main), PRIVATE)
    ensures Read(Content(ws[j].main), PUBLIC) == Read(Content(ws[i].main), PUBLIC)
    decreases j - i
  {
    hide KeysBelong, Step, Sound, Read;
    if i == j {
    } else {
      KeysNeverChange(c, cm, ws, i, j - 1);
      StepBelongs(c, cm, ws[j - 1], ws[j]);
    }
  }

  /** A run that finishes leaves the same public key in both secrets, however many runs
      crashed between their two writes before it. */
  lemma FinishedPublishes(c: Crypto, cm: Option<Bytes>, i: Input, w: World, w': World, m: Data)
    requires Sound(c) && Wrote(c, cm, i, w, w', m, true)
    ensures w'.main.Some? && w'.pub.Some?
    ensures PUBLIC in w'.main.value && PUBLIC in w'.pub.value
    ensures w'.pub.value[PUBLIC] == w'.main.value[PUBLIC]
  {
    var d := Content(w.main);
    var want := map[PUBLIC := PublicOf(cm, d, m)];
    hide Reconcile, Marshalled, KeysBelong, ExtractFulcioRoot, RootPaths, Enumerates, NewSettings;
    ReconciledReads(w.main, m);
    ReconciledReads(w.pub, want);
    if NeedsCreate(cm, d) {
      var settings := NewSettings(c, i, NewKey(c, i).value);
      MarshalledEntries(c, settings, i.nonce, i.salt);
      assert c.parsePub(m[PUBLIC]) == Some(c.pub(settings.privKey));
      assert m[PUBLIC] != "";
    } else {
      var certs :| Updates(c, cm, i, d, certs, m);
      assert d[PUBLIC] != "";
      PublicUntouched(c, cm, i, d, certs, m);
    }
    assert want[PUBLIC] != "";
  }

  lemma PublicUntouched(c: Crypto, cm: Option<Bytes>, i: Input, d: Data, certs: seq<Bytes>, m: Data)
    requires Updates(c, cm, i, d, certs, m)
    ensures PRIVATE !in m && PUBLIC !in m
  {
  }

  // --------------------------------------------------------------------- the settings

  /** Decoding a secret whose configuration was marshalled from `s`, with keys that fit. */
  lemma DecodesTo(c: Crypto, s: Settings, d: Data)
    requires PRIVATE in d && PUBLIC in d && CONFIG in d && c.unmarshal(d[CONFIG]) == Some(ProtoOf(c, s))
    requires c.decrypt(d[PRIVATE], s.password) == Some(s.privKey) && c.parsePub(d[PUBLIC]) == Some(s.pubKey)
    ensures DecodedSettings(c, d) == Ok(s.(fulcioCerts := []))
  {
    hide RootPaths;
  }

  /** A created configuration decodes to the key and the command line it was made from. */
  lemma CreatedSettings(c: Crypto, i: Input, s: Option<Data>, m: Data)
    requires Sound(c) && Creates(c, i, m) && Reconcile(s, m).0.Success()
    ensures var k := NewKey(c, i).value;
            DecodedSettings(c, Content(Reconcile(s, m).1))
            == Ok(Settings(k, i.password, c.pub(k), i.logId, i.prefix, i.serverAddr, []))
  {
    var settings := NewSettings(c, i, NewKey(c, i).value);
    hide Marshalled, Reconcile, ProtoOf, DecodedSettings, WithRoot;
    MarshalledEntries(c, settings, i.nonce, i.salt);
    ReconciledReads(s, m);
    assert c.unmarshal(m[CONFIG]) == Some(ProtoOf(c, settings));
    assert c.decrypt(m[PRIVATE], settings.password) == Some(settings.privKey);
    assert c.parsePub(m[PUBLIC]) == Some(c.pub(settings.privKey));
    assert m[PRIVATE] != "" && m[PUBLIC] != "";
    assert m[CONFIG] != "" by {
      ProtoNotEmpty(c, settings);
    }
    DecodesTo(c, settings, Content(Reconcile(s, m).1));
  }

  lemma ProtoNotEmpty(c: Crypto, s: Settings)
    ensures ProtoOf(c, s) != MultiConfig(None, None)
  {
  }

  /** An update changes nothing but the roots: keys, password, log id, prefix and server
      decode as before. */
  lemma UpdateKeepsSettings(c: Crypto, cm: Option<Bytes>, i: Input, d: Data, certs: seq<Bytes>, m: Data)
    requires Sound(c) && !NeedsCreate(cm, d) && Updates(c, cm, i, d, certs, m) && Reconcile(Some(d), m).0.Success()
    ensures DecodedSettings(c, Content(Reconcile(Some(d), m).1)) == DecodedSettings(c, Effective(cm, d))
  {
    var head := DecodedSettings(c, Effective(cm, d)).value;
    DecodedFits(c, Effective(cm, d));
    assert PRIVATE in d && PUBLIC in d;
    assert Effective(cm, d)[PRIVATE] == d[PRIVATE] && Effective(cm, d)[PUBLIC] == d[PUBLIC];
    var s := head.(fulcioCerts := WithRoot(c, certs, i.chain));
    hide Marshalled, Reconcile, ProtoOf, DecodedSettings, WithRoot, Enumerates, Effective;
    MarshalledUpdate(c, s, i.nonce, i.salt);
    ReconciledReads(Some(d), m);
    assert c.unmarshal(m[CONFIG]) == Some(ProtoOf(c, s));
    DecodesTo(c, s, Content(Reconcile(Some(d), m).1));
  }

  lemma DecodedFits(c: Crypto, d: Data)
    requires DecodedSettings(c, d).Ok?
    ensures var s := DecodedSettings(c, d).value;
            && PRIVATE in d && PUBLIC in d && s.fulcioCerts == []
            && c.decrypt(d[PRIVATE], s.password) == Some(s.privKey) && c.parsePub(d[PUBLIC]) == Some(s.pubKey)
  {
  }

  /** Over any sequence of runs, what an initialised secret decodes to never changes. */
  lemma {:induction false} SettingsNeverChange(c: Crypto, cm: Option<Bytes>, ws: seq<World>, i: nat, j: nat)
    requires Sound(c) && Runs(c, cm, ws) && i <= j < |ws|
    requires DecodedSettings(c, Content(ws[i].main)).Ok?
    ensures DecodedSettings(c, Content(ws[j].main)) == DecodedSettings(c, Content(ws[i].main))
    decreases j - i
  {
    hide DecodedSettings, Step, Sound;
    if i == j {
    } else {
      SettingsNeverChange(c, cm, ws, i, j - 1);
      StepKeepsSettings(c, cm, ws[j - 1], ws[j]);
    }
  }

  lemma StepKeepsSettings(c: Crypto, cm: Option<Bytes>, w: World, w': World)
    requires Sound(c) && Step(c, cm, w, w') && DecodedSettings(c, Content(w.main)).Ok?
    ensures DecodedSettings(c, Content(w'.main)) == DecodedSettings(c, Content(w.main))
  {
    var d := Content(w.main);
    assert !NeedsCreate(cm, d) && Effective(cm, d) == d && w.main.Some?;
    hide DecodedSettings, Updates, Reconcile, NeedsCreate, Effective, Sound;
    if w' != w {
      var i, m, finished :| Wrote(c, cm, i, w, w', m, finished);
      var certs :| Updates(c, cm, i, d, certs, m);
      UpdateKeepsSettings(c, cm, i, d, certs, m);
    }
  }

  // ------------------------------------------------------------------------ the roots

  /** The roots that an entry actually holds. */
  function NonEmpty(roots: set<Bytes>): set<Bytes> {
    roots - {""}
  }

  function NewRoots(c: Crypto, chain: Bytes): set<Bytes> {
    match ExtractFulcioRoot(c.x, chain)
    case Root(pem) => {pem}
    case _ => {}
  }

  lemma WithRootSet(c: Crypto, certs: seq<Bytes>, chain: Bytes)
    requires Distinct(certs)
    ensures Distinct(WithRoot(c, certs, chain))
    ensures SetOf(WithRoot(c, certs, chain)) == SetOf(certs) + NewRoots(c, chain)
  {
    hide ExtractFulcioRoot;
  }

  lemma EffectiveRoots(cm: Option<Bytes>, d: Data)
    ensures FulcioRoots(Effective(cm, d)) == FulcioRoots(d)
  {
    NamedKeysApart();
    var e := Effective(cm, d);
    assert forall k | FULCIO <= k :: (k in e <==> k in d) && (k in e ==> e[k] == d[k]);
    assert FulcioValues(e) == FulcioValues(d);
  }

  /** What an update run leaves behind: every "fulcio-" value is a listed root, and every
      listed root reads back under its own number. */
  lemma UpdatedRoots(c: Crypto, s: Settings, nonce: nat, salt: nat, d: Data, d': Data)
    requires Sound(c)
    requires FulcioValues(d) <= SetOf(s.fulcioCerts)
    requires var m := WithoutKeys(Marshalled(c, s, nonce, salt));
             && (forall k | k in m :: Read(d', k) == m[k])
             && (forall k | k in m && m[k] != "" :: k in d' && d'[k] == m[k])
             && (forall k | k !in m :: (k in d' <==> k in d) && (k in d' ==> d'[k] == d[k]))
    ensures forall i: nat | i < |s.fulcioCerts| :: Read(d', FulcioKey(i)) == s.fulcioCerts[i]
    ensures forall i: nat | i < |s.fulcioCerts| && s.fulcioCerts[i] != "" :: FulcioKey(i) in d'
    ensures FulcioValues(d') <= SetOf(s.fulcioCerts)
    ensures NonEmpty(FulcioValues(d')) == NonEmpty(SetOf(s.fulcioCerts))
  {
    MarshalledUpdate(c, s, nonce, salt);
    var m := WithoutKeys(Marshalled(c, s, nonce, salt));
    hide Marshalled, FulcioKey;
    forall k | k in d' && FULCIO <= k
      ensures d'[k] in s.fulcioCerts
    {
      if k in m {
        NamedKeysApart();
        assert k != CONFIG;
        assert d'[k] == m[k];
      } else {
        assert d[k] in FulcioValues(d);
      }
    }
    forall b | b in s.fulcioCerts && b != ""
      ensures b in FulcioValues(d')
    {
      var i :| 0 <= i < |s.fulcioCerts| && s.fulcioCerts[i] == b;
      FulcioKeyApart(i);
      assert d'[FulcioKey(i)] == b;
    }
  }

  /** The settings an update run marshals. */
  function UpdatedSettings(c: Crypto, cm: Option<Bytes>, i: Input, d: Data, certs: seq<Bytes>): Settings
    requires DecodedSettings(c, Effective(cm, d)).Ok?
  {
    DecodedSettings(c, Effective(cm, d)).value.(fulcioCerts := WithRoot(c, certs, i.chain))
  }

  lemma UpdateRoots(c: Crypto, cm: Option<Bytes>, i: Input, d: Data, certs: seq<Bytes>, m: Data)
    requires Sound(c) && Updates(c, cm, i, d, certs, m) && Reconcile(Some(d), m).0.Success()
    ensures var s := UpdatedSettings(c, cm, i, d, certs);
            var d' := Content(Reconcile(Some(d), m).1);
            && Distinct(s.fulcioCerts)
            && SetOf(s.fulcioCerts) == FulcioRoots(d) + NewRoots(c, i.chain)
            && CONFIG in d' && c.unmarshal(d'[CONFIG]) == Some(ProtoOf(c, s))
            && (forall j: nat | j < |s.fulcioCerts| :: Read(d', FulcioKey(j)) == s.fulcioCerts[j])
            && (forall j: nat | j < |s.fulcioCerts| && s.fulcioCerts[j] != "" :: FulcioKey(j) in d')
            && FulcioValues(d') <= SetOf(s.fulcioCerts)
            && NonEmpty(FulcioValues(d')) == NonEmpty(SetOf(s.fulcioCerts))
  {
    var s := UpdatedSettings(c, cm, i, d, certs);
    var d' := Content(Reconcile(Some(d), m).1);
    hide Reconcile, Marshalled, DecodedSettings, WithRoot, FulcioKey, ProtoOf, NewRoots, FulcioValues;
    EffectiveRoots(cm, d);
    WithRootSet(c, certs, i.chain);
    ReconciledReads(Some(d), m);
    MarshalledUpdate(c, s, i.nonce, i.salt);
    assert c.unmarshal(m[CONFIG]) == Some(ProtoOf(c, s));
    assert FulcioValues(d) <= SetOf(s.fulcioCerts);
    UpdatedRoots(c, s, i.nonce, i.salt, d, d');
  }

  /** A run on an initialised secret that gets to its first write leaves exactly the old
      roots, the non-empty legacy root and the new root: none is lost, although the keys
      are renumbered in an arbitrary order and stale keys stay. Only an empty value can
      disappear. */
  lemma NoRootLost(c: Crypto, cm: Option<Bytes>, i: Input, w: World, w': World, m: Data, finished: bool)
    requires Sound(c) && Wrote(c, cm, i, w, w', m, finished) && !NeedsCreate(cm, Content(w.main))
    ensures FulcioValues(Content(w'.main))
         <= FulcioValues(Content(w.main)) + LegacyRoots(Content(w.main)) + NewRoots(c, i.chain)
    ensures NonEmpty(FulcioValues(Content(w'.main)))
         == NonEmpty(FulcioValues(Content(w.main)) + LegacyRoots(Content(w.main)) + NewRoots(c, i.chain))
  {
    hide Reconcile, Marshalled, DecodedSettings, FulcioKey, ProtoOf, NewRoots, FulcioValues, LegacyRoots;
    var d := Content(w.main);
    var certs :| Updates(c, cm, i, d, certs, m);
    UpdateRoots(c, cm, i, d, certs, m);
  }

  /** After such a run the configuration names the keys fulcio-0 to fulcio-(n-1); their
      values are pairwise distinct and cover every "fulcio-" value in the secret, stale
      keys included; and all of them are present unless an empty value was stored. */
  lemma TrustedRootsCovered(c: Crypto, cm: Option<Bytes>, i: Input, w: World, w': World, m: Data, finished: bool)
    returns (n: nat)
    requires Sound(c) && Wrote(c, cm, i, w, w', m, finished) && !NeedsCreate(cm, Content(w.main))
    ensures var d := Content(w'.main);
            && CONFIG in d && c.unmarshal(d[CONFIG]).Some? && TheLog(c.unmarshal(d[CONFIG]).value).Some?
            && TheLog(c.unmarshal(d[CONFIG]).value).value.rootsPemFile == RootPaths(n)
            && (forall j: nat, k: nat | j < k < n :: Read(d, FulcioKey(j)) != Read(d, FulcioKey(k)))
            && (forall v | v in FulcioValues(d) :: exists j: nat :: j < n && Read(d, FulcioKey(j)) == v)
            && ("" !in FulcioValues(Content(w.main)) ==> forall j: nat | j < n :: FulcioKey(j) in d)
  {
    hide Reconcile, Marshalled, DecodedSettings, FulcioKey, RootPaths, NewRoots, FulcioValues;
    var d := Content(w.main);
    var certs :| Updates(c, cm, i, d, certs, m);
    UpdateRoots(c, cm, i, d, certs, m);
    var s := UpdatedSettings(c, cm, i, d, certs);
    n := |s.fulcioCerts|;
    if "" !in FulcioValues(d) {
      NewRootsNonEmpty(c, i.chain);
      assert "" !in SetOf(s.fulcioCerts);
      assert forall j: nat | j < n :: s.fulcioCerts[j] in SetOf(s.fulcioCerts);
    }
    forall v | v in FulcioValues(Content(w'.main))
      ensures exists j: nat :: j < n && Read(Content(w'.main), FulcioKey(j)) == v
    {
      assert v in s.fulcioCerts;
      var j :| 0 <= j < n && s.fulcioCerts[j] == v;
      assert Read(Content(w'.main), FulcioKey(j)) == v;
    }
  }

  lemma NewRootsNonEmpty(c: Crypto, chain: Bytes)
    requires Sound(c)
    ensures "" !in NewRoots(c, chain)
  {
    if ExtractFulcioRoot(c.x, chain).Root? {
      hide ExtractFulcioRoot;
      ExtractIdempotent(c.x, chain);
    }
  }

  /** Private key, public key and configuration, once there, stay. */
  lemma StaysInitialised(c: Crypto, cm: Option<Bytes>, w: World, w': World)
    requires Sound(c) && Step(c, cm, w, w') && !NeedsCreate(cm, Content(w.main))
    ensures !NeedsCreate(cm, Content(w'.main))
    ensures NonEmpty(FulcioValues(Content(w.main))) <= NonEmpty(FulcioValues(Content(w'.main)))
  {
    hide Reconcile, Marshalled, DecodedSettings, FulcioValues, LegacyRoots, NewRoots, ExtractFulcioRoot, Enumerates;
    if w' != w {
      var i, m, finished :| Wrote(c, cm, i, w, w', m, finished);
      NoRootLost(c, cm, i, w, w', m, finished);
      var d := Content(w.main);
      var certs :| Updates(c, cm, i, d, certs, m);
      PublicUntouched(c, cm, i, d, certs, m);
      ReconciledReads(w.main, m);
      var s := UpdatedSettings(c, cm, i, d, certs);
      MarshalledUpdate(c, s, i.nonce, i.salt);
    }
  }

  /** Over any sequence of runs on an initialised secret, crashed ones included, a stored
      root stays stored. */
  lemma {:induction false} RootsAccumulate(c: Crypto, cm: Option<Bytes>, ws: seq<World>, i: nat, j: nat)
    requires Sound(c) && Runs(c, cm, ws) && i <= j < |ws| && !NeedsCreate(cm, Content(ws[i].main))
    ensures !NeedsCreate(cm, Content(ws[j].main))
    ensures NonEmpty(FulcioValues(Content(ws[i].main))) <= NonEmpty(FulcioValues(Content(ws[j].main)))
    decreases j - i
  {
    hide NeedsCreate, Step, FulcioValues;
    if i == j {
    } else {
      RootsAccumulate(c, cm, ws, i, j - 1);
      StaysInitialised(c, cm, ws[j - 1], ws[j]);
    }
  }

  /** All the roots brought by a list of runs; a run that ended before its first write is
      `None`. */
  function AllNewRoots(c: Crypto, runs: seq<Option<Input>>): set<Bytes> {
    if runs == [] then {}
    else
      var last := runs[|runs| - 1];
      AllNewRoots(c, runs[..|runs| - 1]) + if last.Some? then NewRoots(c, last.value.chain) else {}
  }

  /** The run reached its first write. */
  ghost predicate Reached(c: Crypto, cm: Option<Bytes>, i: Input, w: World, w': World) {
    exists m, f :: Wrote(c, cm, i, w, w', m, f)
  }

  lemma ReachedStep(c: Crypto, cm: Option<Bytes>, i: Input, w: World, w': World)
    requires Sound(c) && Reached(c, cm, i, w, w') && !NeedsCreate(cm, Content(w.main))
    ensures !NeedsCreate(cm, Content(w'.main))
    ensures LegacyRoots(Content(w'.main)) == LegacyRoots(Content(w.main))
    ensures NonEmpty(FulcioValues(Content(w'.main)))
         == NonEmpty(FulcioValues(Content(w.main)) + LegacyRoots(Content(w.main)) + NewRoots(c, i.chain))
  {
    hide Wrote, NeedsCreate, FulcioValues, LegacyRoots, NewRoots;
    var m, f :| Wrote(c, cm, i, w, w', m, f);
    NoRootLost(c, cm, i, w, w', m, f);
    LegacyStays(c, cm, i, w, w', m, f);
    StaysInitialised(c, cm, w, w') by {
      assert Step(c, cm, w, w');
    }
  }

  lemma LegacyStays(c: Crypto, cm: Option<Bytes>, i: Input, w: World, w': World, m: Data, finished: bool)
    requires Sound(c) && Wrote(c, cm, i, w, w', m, finished) && !NeedsCreate(cm, Content(w.main))
    ensures LegacyRoots(Content(w'.main)) == LegacyRoots(Content(w.main))
  {
    var d := Content(w.main);
    var certs :| Updates(c, cm, i, d, certs, m);
    var s := UpdatedSettings(c, cm, i, d, certs);
    hide Marshalled, Reconcile, DecodedSettings, FulcioKey, Enumerates, ExtractFulcioRoot, Sound, ProtoOf;
    MarshalledUpdate(c, s, i.nonce, i.salt);
    ReconciledReads(w.main, m);
    NamedKeysApart();
    assert LEGACY !in m;
  }

  /** A run that reached its first write, or one that ended before. */
  ghost predicate Attempted(c: Crypto, cm: Option<Bytes>, run: Option<Input>, w: World, w': World) {
    if run.Some? then Reached(c, cm, run.value, w, w') else w' == w
  }

  /** The legacy root is stored again by the first run that gets to write. */
  function LegacyAfter(d: Data, runs: seq<Option<Input>>): set<Bytes> {
    if forall run | run in runs :: run.None? then {} else LegacyRoots(d)
  }

  /** Over any sequence of runs on an initialised secret, the stored roots are at every
      moment exactly the initial ones, those brought by the runs that reached their first
      write, and, once there was such a run, the legacy one. */
  lemma {:induction false} RootsExactly(c: Crypto, cm: Option<Bytes>, runs: seq<Option<Input>>, ws: seq<World>, n: nat)
    requires Sound(c) && |ws| == |runs| + 1 && !NeedsCreate(cm, Content(ws[0].main)) && n <= |runs|
    requires forall j | 0 <= j < |runs| :: Attempted(c, cm, runs[j], ws[j], ws[j + 1])
    ensures !NeedsCreate(cm, Content(ws[n].main))
    ensures LegacyRoots(Content(ws[n].main)) == LegacyRoots(Content(ws[0].main))
    ensures NonEmpty(FulcioValues(Content(ws[n].main)))
         == NonEmpty(FulcioValues(Content(ws[0].main)) + LegacyAfter(Content(ws[0].main), runs[..n])
                     + AllNewRoots(c, runs[..n]))
  {
    hide Reached, NeedsCreate, FulcioValues, LegacyRoots, NewRoots, Sound;
    if n == 0 {
    } else {
      RootsExactly(c, cm, runs, ws, n - 1);
      assert runs[..n] == runs[..n - 1] + [runs[n - 1]];
      assert Attempted(c, cm, runs[n - 1], ws[n - 1], ws[n]);
      var d0 := Content(ws[0].main);
      LegacyMore(d0, runs[..n - 1], runs[n - 1]);
      if runs[n - 1].Some? {
        ReachedStep(c, cm, runs[n - 1].value, ws[n - 1], ws[n]);
        hide *;
        Accumulated(FulcioValues(d0), LegacyAfter(d0, runs[..n - 1]), LegacyRoots(d0), AllNewRoots(c, runs[..n - 1]),
                    NewRoots(c, runs[n - 1].value.chain), FulcioValues(Content(ws[n - 1].main)),
                    FulcioValues(Content(ws[n].main)));
      }
    }
  }

  lemma LegacyMore(d: Data, runs: seq<Option<Input>>, run: Option<Input>)
    ensures LegacyAfter(d, runs + [run]) == if run.Some? then LegacyRoots(d) else LegacyAfter(d, runs)
    ensures LegacyAfter(d, runs) <= LegacyRoots(d)
  {
    assert run in runs + [run];
    assert forall r :: r in runs + [run] <==> r in runs || r == run;
  }

  lemma Accumulated(first: set<Bytes>, gained: set<Bytes>, legacy: set<Bytes>, before: set<Bytes>,
                    brought: set<Bytes>, previous: set<Bytes>, now: set<Bytes>)
    requires NonEmpty(previous) == NonEmpty(first + gained + before) && gained <= legacy
    requires NonEmpty(now) == NonEmpty(previous + legacy + brought)
    ensures NonEmpty(now) == NonEmpty(first + legacy + (before + brought))
  {
    forall r | r != ""
      ensures r in now <==> r in first || r in legacy || r in before || r in brought
    {
      assert r in NonEmpty(now) <==> r in now;
      assert r in NonEmpty(previous) <==> r in previous;
    }
  }
}
