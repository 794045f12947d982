/** What one run of createctconfig does, said of the entries of the main secret: which
    secrets it updates and which it creates, and what becomes of the keys, the roots and
    the configuration. */
module CtlogEntries {
  import opened Wrappers
  import opened Strings
  import opened Pem
  import opened PemConcat
  import opened Secrets
  import opened CtlogConfig
  import opened CtlogRuns
  import opened CtlogInvariants
  import opened CtlogOverlap

  // ---------------------------------------------------------------- update or creation

  /** A secret with both keys, and a configuration in it or in the ConfigMap, is updated:
      both keys stay, and the configuration that was used decodes as before. A secret that
      is migrated thus ends up with the ConfigMap's configuration and its own keys. */
  lemma CompleteIsUpdated(c: Crypto, cm: Option<Bytes>, i: Input, w: World, w': World, m: Data, finished: bool)
    requires Sound(c) && Wrote(c, cm, i, w, w', m, finished)
    requires var d := Content(w.main); PRIVATE in d && PUBLIC in d && (CONFIG in d || cm.Some?)
    ensures PRIVATE !in m && PUBLIC !in m
    ensures var d, d' := Content(w.main), Content(w'.main);
            && PRIVATE in d' && d'[PRIVATE] == d[PRIVATE]
            && PUBLIC in d' && d'[PUBLIC] == d[PUBLIC]
            && CONFIG in d'
            && DecodedSettings(c, d') == DecodedSettings(c, if CONFIG in d then d else d[CONFIG := cm.value])
            && DecodedSettings(c, d').Ok?
  {
    var d := Content(w.main);
    assert !NeedsCreate(cm, d) && w.main == Some(d);
    assert Effective(cm, d) == if CONFIG in d then d else d[CONFIG := cm.value];
    var certs :| Updates(c, cm, i, d, certs, m);
    PublicUntouched(c, cm, i, d, certs, m);
    hide Reconcile, DecodedSettings, Effective, NeedsCreate, Sound;
    UpdateConfigures(c, cm, i, d, certs, m);
    ReconciledReads(w.main, m);
    UpdateKeepsSettings(c, cm, i, d, certs, m);
  }

  /** A secret that lacks a key, or that has no configuration while the ConfigMap has none
      either, gets a new configuration: it decodes to the run's key and command line. */
  lemma IncompleteIsCreated(c: Crypto, cm: Option<Bytes>, i: Input, w: World, w': World, m: Data, finished: bool)
    requires Sound(c) && Wrote(c, cm, i, w, w', m, finished)
    requires var d := Content(w.main); PRIVATE !in d || PUBLIC !in d || (CONFIG !in d && cm.None?)
    ensures NewKey(c, i).Some?
    ensures var k, d' := NewKey(c, i).value, Content(w'.main);
            && PRIVATE in d' && d'[PRIVATE] == c.encrypt(k, i.password, i.nonce)
            && PUBLIC in d' && d'[PUBLIC] == c.pubPem(c.pub(k))
            && DecodedSettings(c, d')
               == Ok(Settings(k, i.password, c.pub(k), i.logId, i.prefix, i.serverAddr, []))
  {
    assert NeedsCreate(cm, Content(w.main));
    hide Reconcile, DecodedSettings, NeedsCreate, Sound, Creates, NewKey;
    CreateSends(c, i, m);
    ReconciledReads(w.main, m);
    CreatedSettings(c, i, w.main, m);
  }

  /** The key of a log that was set up elsewhere is taken over with its password. */
  lemma ImportKeepsKey(c: Crypto, i: Input, s: Settings, nonce: nat, salt: nat)
    requires Sound(c) && i.source == Imported(Some(Marshalled(c, s, nonce, salt))) && i.password == s.password
    ensures NewKey(c, i) == Some(s.privKey)
  {
    hide Marshalled;
    MarshalledEntries(c, s, nonce, salt);
    assert c.decrypt(c.encrypt(s.privKey, s.password, nonce), s.password) == Some(s.privKey);
  }

  /** There is a key to start from exactly when one was generated, or the named secret has a
      private key entry that the given password decrypts; an absent secret or an empty entry
      gives none. */
  lemma KeyFound(c: Crypto, i: Input, k: PrivKey)
    requires Sound(c)
    ensures NewKey(c, i) == Some(k) <==>
            || i.source == Generated(Some(k))
            || exists d :: && i.source == Imported(Some(d)) && PRIVATE in d && d[PRIVATE] != ""
                           && c.decrypt(d[PRIVATE], i.password) == Some(k)
  {
  }

  lemma {:induction false} SomeOrder(roots: set<Bytes>) returns (certs: seq<Bytes>)
    ensures Enumerates(certs, roots)
    decreases roots
  {
    if roots == {} {
      certs := [];
    } else {
      var r :| r in roots;
      var front := SomeOrder(roots - {r});
      certs := front + [r];
      assert SetOf(certs) == SetOf(front) + {r};
    }
  }

  /** A run has something to send exactly when its chain has a certificate or cannot be
      read, and the secret, if it is complete, can be decoded, or else there is a key. A
      chain that cannot be read does not stop a run; one without certificates does. */
  lemma SendsIff(c: Crypto, cm: Option<Bytes>, i: Input, d: Data)
    requires Sound(c)
    ensures (exists m :: Sends(c, cm, i, d, m)) <==>
            && ParseAll(c.x, i.chain) != Ok([])
            && if PRIVATE in d && PUBLIC in d && (CONFIG in d || cm.Some?)
               then DecodedSettings(c, if CONFIG in d then d else d[CONFIG := cm.value]).Ok?
               else NewKey(c, i).Some?
    ensures (exists m :: Sends(c, cm, i, d, m)) <==> CanWrite(c, cm, i, d)
  {
    assert ExtractFulcioRoot(c.x, i.chain).IndexPanic? <==> ParseAll(c.x, i.chain) == Ok([]);
    hide Marshalled, DecodedSettings, ExtractFulcioRoot, ParseAll, NewKey, NewSettings, Enumerates, FulcioRoots;
    if CanWrite(c, cm, i, d) {
      if NeedsCreate(cm, d) {
        assert Sends(c, cm, i, d, Marshalled(c, NewSettings(c, i, NewKey(c, i).value), i.nonce, i.salt));
      } else {
        var certs := SomeOrder(FulcioRoots(Effective(cm, d)));
        var s := DecodedSettings(c, Effective(cm, d)).value.(fulcioCerts := WithRoot(c, certs, i.chain));
        var m := WithoutKeys(Marshalled(c, s, i.nonce, i.salt));
        assert Updates(c, cm, i, d, certs, m);
        assert Sends(c, cm, i, d, m);
      }
    }
  }

  // ------------------------------------------------------------------------- the roots

  lemma RunTrusts(c: Crypto, cm: Option<Bytes>, i: Input, w: World, w': World, m: Data, finished: bool, r: Bytes)
    requires Sound(c) && Wrote(c, cm, i, w, w', m, finished) && r != ""
    requires r in NewRoots(c, i.chain) || (!NeedsCreate(cm, Content(w.main)) && r in FulcioRoots(Content(w.main)))
    ensures Trusts(c, Content(w'.main), r)
  {
    var d, d' := Content(w.main), Content(w'.main);
    if NeedsCreate(cm, d) {
      hide Reconcile, Creates, Trusts, Sound, NewRoots;
      CreateTrusts(c, i, w.main, m, r);
    } else {
      var certs :| Updates(c, cm, i, d, certs, m);
      assert w.main == Some(d);
      hide Reconcile, Updates, Trusts, Sound, NewRoots, FulcioRoots, NeedsCreate;
      ReconciledReads(w.main, m);
      UpdateTrusts(c, cm, i, d, certs, m, d, d', r);
    }
  }

  lemma NamedIsStored(c: Crypto, cm: Option<Bytes>, i: Input, w: World, w': World, m: Data, finished: bool, r: Bytes)
    requires Sound(c) && Wrote(c, cm, i, w, w', m, finished) && r != "" && Trusts(c, Content(w'.main), r)
    ensures r in FulcioValues(Content(w'.main))
  {
    var d' := Content(w'.main);
    var k :| k in d' && d'[k] == r
             && ROOTS_DIR + k in TheLog(c.unmarshal(d'[CONFIG]).value).value.rootsPemFile;
    hide Trusts, Wrote, Sound;
    var n := ConfigNames(c, cm, i, w, w', m, finished);
    NamedKeys(n, k);
    var j: nat :| j < n && k == FulcioKey(j);
    FulcioKeyApart(j);
  }

  /** After any run that wrote, the configuration is the marshalled form of some settings. */
  lemma ConfigOf(c: Crypto, cm: Option<Bytes>, i: Input, w: World, w': World, m: Data, finished: bool)
    returns (s: Settings)
    requires Sound(c) && Wrote(c, cm, i, w, w', m, finished)
    ensures var d' := Content(w'.main);
            CONFIG in d' && c.unmarshal(d'[CONFIG]) == Some(ProtoOf(c, s))
  {
    var d := Content(w.main);
    if NeedsCreate(cm, d) {
      var k := NewKey(c, i).value;
      s := NewSettings(c, i, k);
      hide Reconcile, ProtoOf, Creates, Sound, NewSettings, NewKey;
      CreateConfigures(c, i, k, m);
      ReconciledReads(w.main, m);
    } else {
      var certs :| Updates(c, cm, i, d, certs, m);
      s := UpdatedSettings(c, cm, i, d, certs);
      hide Reconcile, ProtoOf, Updates, Sound, UpdatedSettings;
      UpdateConfigures(c, cm, i, d, certs, m);
      ReconciledReads(w.main, m);
    }
  }

  lemma ConfigNames(c: Crypto, cm: Option<Bytes>, i: Input, w: World, w': World, m: Data, finished: bool)
    returns (n: nat)
    requires Sound(c) && Wrote(c, cm, i, w, w', m, finished)
    ensures var d' := Content(w'.main);
            && CONFIG in d' && c.unmarshal(d'[CONFIG]).Some? && TheLog(c.unmarshal(d'[CONFIG]).value).Some?
            && TheLog(c.unmarshal(d'[CONFIG]).value).value.rootsPemFile == RootPaths(n)
  {
    hide Wrote, RootPaths, Sound;
    var s := ConfigOf(c, cm, i, w, w', m, finished);
    n := |s.fulcioCerts|;
  }

  /** Every run that writes, be it an update or a creation, stores the last certificate of
      its chain and has the log trust it. */
  lemma LastCertificateTrusted(c: Crypto, cm: Option<Bytes>, i: Input, w: World, w': World, m: Data, finished: bool,
                               front: seq<Certificate>, last: Certificate)
    requires Sound(c) && Wrote(c, cm, i, w, w', m, finished)
    requires ParseAll(c.x, i.chain) == Ok(front + [last])
    ensures var r := EncodeCert(c.x, last);
            r in FulcioValues(Content(w'.main)) && Trusts(c, Content(w'.main), r)
  {
    var r := EncodeCert(c.x, last);
    assert r in NewRoots(c, i.chain) && r != "" by {
      hide ParseAll, EncodeCert;
      ExtractsLast(c.x, i.chain, front, last);
      EncodedNonEmpty(c.x, last);
    }
    hide *;
    RunTrusts(c, cm, i, w, w', m, finished, r);
    NamedIsStored(c, cm, i, w, w', m, finished, r);
  }

  /** An update gives the legacy root, unless it is empty, a "fulcio-" entry, and has the
      log trust it. */
  lemma LegacyTrusted(c: Crypto, cm: Option<Bytes>, i: Input, w: World, w': World, m: Data, finished: bool)
    requires Sound(c) && Wrote(c, cm, i, w, w', m, finished)
    requires var d := Content(w.main);
             PRIVATE in d && PUBLIC in d && (CONFIG in d || cm.Some?) && LEGACY in d && d[LEGACY] != ""
    ensures var r := Content(w.main)[LEGACY];
            r in FulcioValues(Content(w'.main)) && Trusts(c, Content(w'.main), r)
  {
    var d := Content(w.main);
    var r := d[LEGACY];
    assert !NeedsCreate(cm, d);
    hide *;
    RootEntries(d, r);
    RunTrusts(c, cm, i, w, w', m, finished, r);
    NamedIsStored(c, cm, i, w, w', m, finished, r);
  }

  // ----------------------------------------------------------------- the configuration

  /** The stored configuration has one log and one backend, the log runs on that backend,
      and its files are entries of the secret: the private key, and "fulcio-" keys. */
  ghost predicate Wired(c: Crypto, d: Data, log: LogConfig, backend: Backend) {
    && CONFIG in d && c.unmarshal(d[CONFIG]) == Some(MultiConfig(Some([log]), Some([backend])))
    && log.backendName == backend.name
    && log.privateKey.PemKeyFile? && log.privateKey.path == ROOTS_DIR + PRIVATE && PRIVATE in d
    && log.extKeyUsages == ["CodeSigning"]
    && forall p | p in log.rootsPemFile :: exists k :: FULCIO <= k && p == ROOTS_DIR + k
  }

  lemma ProtoFiles(c: Crypto, s: Settings, d: Data) returns (log: LogConfig, backend: Backend)
    requires CONFIG in d && PRIVATE in d && c.unmarshal(d[CONFIG]) == Some(ProtoOf(c, s))
    ensures Wired(c, d, log, backend)
  {
    var m := ProtoOf(c, s);
    log, backend := m.logConfigs.value[0], m.backends.value[0];
    assert KEY_FILE == ROOTS_DIR + PRIVATE;
    forall p | p in log.rootsPemFile
      ensures exists k :: FULCIO <= k && p == ROOTS_DIR + k
    {
      var j :| 0 <= j < |s.fulcioCerts| && log.rootsPemFile[j] == p;
      FulcioKeyApart(j);
    }
  }

  /** So it is after every run that writes. */
  lemma RunWires(c: Crypto, cm: Option<Bytes>, i: Input, w: World, w': World, m: Data, finished: bool)
    returns (log: LogConfig, backend: Backend)
    requires Sound(c) && Wrote(c, cm, i, w, w', m, finished)
    ensures Wired(c, Content(w'.main), log, backend)
  {
    var d := Content(w.main);
    if PRIVATE !in d || PUBLIC !in d || (CONFIG !in d && cm.None?) {
      hide *;
      IncompleteIsCreated(c, cm, i, w, w', m, finished);
    } else {
      hide *;
      CompleteIsUpdated(c, cm, i, w, w', m, finished);
    }
    hide *;
    var s := ConfigOf(c, cm, i, w, w', m, finished);
    log, backend := ProtoFiles(c, s, Content(w'.main));
  }

  /** Over every sequence of runs, crashed ones included: the secret is untouched, or its
      configuration and its entries fit together. */
  lemma {:induction false} AlwaysWired(c: Crypto, cm: Option<Bytes>, ws: seq<World>, j: nat)
    requires Sound(c) && Runs(c, cm, ws) && j < |ws|
    ensures ws[j].main == ws[0].main || exists log, backend :: Wired(c, Content(ws[j].main), log, backend)
  {
    hide Wired, Wrote, Sound;
    if j == 0 {
    } else {
      AlwaysWired(c, cm, ws, j - 1);
      assert Step(c, cm, ws[j - 1], ws[j]);
      if ws[j] != ws[j - 1] {
        var i, m, f :| Wrote(c, cm, i, ws[j - 1], ws[j], m, f);
        var log, backend := RunWires(c, cm, i, ws[j - 1], ws[j], m, f);
      }
    }
  }
}
