/** Where createctconfig does lose a root, leaves one untrusted, or replaces a key:
    overlapping runs, and creation over a secret that already holds a root. */
module CtlogOverlap {
  import opened Wrappers
  import opened Strings
  import opened Sorting
  import opened Secrets
  import opened CtlogConfig
  import opened CtlogRuns
  import opened CtlogInvariants

  /** The "fulcio-" entries that a run writes when `certs` are the roots it marshals. */
  ghost predicate WritesRoots(m: Data, certs: seq<Bytes>) {
    && (forall k :: k in m && FULCIO <= k <==> exists j: nat :: j < |certs| && k == FulcioKey(j))
    && (forall j: nat | j < |certs| :: FulcioKey(j) in m && m[FulcioKey(j)] == certs[j])
  }

  /** `d'` is `d` after the entries of `m` have been written. */
  ghost predicate Overwritten(d: Data, m: Data, d': Data) {
    && (forall k | k in m :: Read(d', k) == m[k])
    && (forall k | k in m && m[k] != "" :: k in d' && d'[k] == m[k])
    && (forall k | k !in m :: (k in d' <==> k in d) && (k in d' ==> d'[k] == d[k]))
  }

  lemma ReconciledOverwrites(d: Data, m: Data, d': Data)
    requires Reconcile(Some(d), m).0.Success() && Reconcile(Some(d), m).1 == Some(d')
    ensures Overwritten(d, m, d')
  {
    hide Reconcile;
    ReconciledReads(Some(d), m);
  }

  /** How a run's list of roots extends the one it read. */
  lemma WithNew(c: Crypto, certs: seq<Bytes>, chain: Bytes)
    requires Distinct(certs)
    ensures var after, brought := WithRoot(c, certs, chain), NewRoots(c, chain);
            && SetOf(after) == SetOf(certs) + brought
            && if brought <= SetOf(certs) then after == certs
               else |after| == |certs| + 1 && brought == {after[|certs|]}
  {
    WithRootSet(c, certs, chain);
    hide ExtractFulcioRoot;
  }

  lemma UpdateWrites(c: Crypto, cm: Option<Bytes>, i: Input, d: Data, certs: seq<Bytes>, m: Data)
    requires Sound(c) && Updates(c, cm, i, d, certs, m)
    ensures WritesRoots(m, WithRoot(c, certs, i.chain))
    ensures Enumerates(certs, FulcioRoots(d))
  {
    var s := UpdatedSettings(c, cm, i, d, certs);
    EffectiveRoots(cm, d);
    assert m == WithoutKeys(Marshalled(c, s, i.nonce, i.salt));
    assert s.fulcioCerts == WithRoot(c, certs, i.chain);
    hide *;
    MarshalledWrites(c, s, i.nonce, i.salt);
  }

  lemma MarshalledWrites(c: Crypto, s: Settings, nonce: nat, salt: nat)
    requires Sound(c)
    ensures WritesRoots(WithoutKeys(Marshalled(c, s, nonce, salt)), s.fulcioCerts)
  {
    hide Marshalled, WithoutKeys, FulcioKey, Sound, ProtoOf;
    MarshalledUpdate(c, s, nonce, salt);
    NamedKeysApart();
  }

  /** The root at the end of the second run's list takes the place of the first run's. */
  lemma NewRootReplaced(d: Data, mA: Data, dA: Data, mB: Data, dB: Data,
                        certsA: seq<Bytes>, certsB: seq<Bytes>, rA: Bytes)
    requires Overwritten(d, mA, dA) && Overwritten(dA, mB, dB)
    requires WritesRoots(mA, certsA) && WritesRoots(mB, certsB)
    requires |certsA| <= |certsB| && rA !in certsB && rA !in FulcioValues(d) && rA != ""
    ensures rA !in FulcioValues(dB)
  {
    hide FulcioKey;
    forall k | k in dB && FULCIO <= k
      ensures dB[k] != rA
    {
      if k in mB {
        var j: nat :| j < |certsB| && k == FulcioKey(j);
        assert certsB[j] in certsB;
        assert Read(dB, k) == mB[k] == certsB[j];
      } else {
        assert dB[k] == dA[k];
        assert k !in mA;
        assert d[k] in FulcioValues(d);
      }
    }
  }

  lemma ListedSurvives(d: Data, m: Data, d': Data, certs: seq<Bytes>, r: Bytes)
    requires Overwritten(d, m, d') && WritesRoots(m, certs) && r in certs && r != ""
    ensures r in FulcioValues(d')
  {
    hide FulcioKey;
    var j :| 0 <= j < |certs| && certs[j] == r;
    FulcioKeyApart(j);
    assert d'[FulcioKey(j)] == r;
  }

  lemma Written(d: Data, m: Data, d': Data, certs: seq<Bytes>, j: nat)
    requires Overwritten(d, m, d') && WritesRoots(m, certs) && j < |certs| && certs[j] != ""
    ensures FulcioKey(j) in d' && d'[FulcioKey(j)] == certs[j]
  {
    hide FulcioKey;
  }

  lemma UnlistedSurvives(dA: Data, mB: Data, dB: Data, certsB: seq<Bytes>, n: nat, r: Bytes)
    requires Overwritten(dA, mB, dB) && WritesRoots(mB, certsB) && |certsB| <= n
    requires FulcioKey(n) in dA && dA[FulcioKey(n)] == r
    ensures r in FulcioValues(dB)
  {
    FulcioKeyApart(n);
    hide FulcioKey;
    if FulcioKey(n) in mB {
      var j: nat :| j < |certsB| && FulcioKey(n) == FulcioKey(j);
      FulcioKeyInjective(n, j);
    }
    assert dB[FulcioKey(n)] == r;
  }

  /** Two runs that both read the secret before either wrote it: a root the first one
      brings is gone afterwards exactly when it was not there before and the second run
      brings another one that was not there. The roots that were there survive. */
  lemma OverlapLosesRoot(c: Crypto, cm: Option<Bytes>, d: Data, a: Input, b: Input,
                         orderA: seq<Bytes>, orderB: seq<Bytes>, mA: Data, mB: Data, dA: Data, dB: Data)
    requires Sound(c)
    requires Updates(c, cm, a, d, orderA, mA) && Updates(c, cm, b, d, orderB, mB)
    requires Reconcile(Some(d), mA).0.Success() && Reconcile(Some(d), mA).1 == Some(dA)
    requires Reconcile(Some(dA), mB).0.Success() && Reconcile(Some(dA), mB).1 == Some(dB)
    ensures forall r | r in NewRoots(c, a.chain) ::
              r !in FulcioValues(dB) <==> r !in FulcioRoots(d) && !(NewRoots(c, b.chain) <= FulcioRoots(d) + {r})
    ensures NonEmpty(FulcioRoots(d)) <= FulcioValues(dB)
  {
    var certsA, certsB := WithRoot(c, orderA, a.chain), WithRoot(c, orderB, b.chain);
    assert FulcioValues(d) <= FulcioRoots(d);
    hide *;
    UpdateWrites(c, cm, a, d, orderA, mA);
    UpdateWrites(c, cm, b, d, orderB, mB);
    ReconciledOverwrites(d, mA, dA);
    ReconciledOverwrites(dA, mB, dB);
    SameEnumeration(orderA, orderB, FulcioRoots(d));
    WithNew(c, orderA, a.chain);
    WithNew(c, orderB, b.chain);
    NewRootsNonEmpty(c, a.chain);
    forall r | r in NewRoots(c, a.chain)
      ensures r !in FulcioValues(dB) <==> r !in FulcioRoots(d) && !(NewRoots(c, b.chain) <= FulcioRoots(d) + {r})
    {
      FirstRootGone(d, mA, dA, mB, dB, certsA, certsB, |orderA|, FulcioRoots(d), NewRoots(c, b.chain), r);
    }
    forall r | r in NonEmpty(FulcioRoots(d))
      ensures r in FulcioValues(dB)
    {
      NonEmptyMember(FulcioRoots(d), r);
      InSetOf(certsB, r);
      ListedSurvives(dA, mB, dB, certsB, r);
    }
  }

  lemma NonEmptyMember(roots: set<Bytes>, r: Bytes)
    ensures r in NonEmpty(roots) <==> r in roots && r != ""
  {
  }

  lemma InSetOf(certs: seq<Bytes>, r: Bytes)
    ensures r in SetOf(certs) <==> r in certs
  {
  }

  lemma SameEnumeration(a: seq<Bytes>, b: seq<Bytes>, roots: set<Bytes>)
    requires Enumerates(a, roots) && Enumerates(b, roots)
    ensures Distinct(a) && Distinct(b) && |a| == |b| && SetOf(a) == roots && SetOf(b) == roots
  {
    EnumerationsPermute(a, b);
  }

  /** The case split of `OverlapLosesRoot`: `n` roots were there, and the runs list
      `certsA` and `certsB`, which has `brought` besides. */
  lemma FirstRootGone(d: Data, mA: Data, dA: Data, mB: Data, dB: Data, certsA: seq<Bytes>, certsB: seq<Bytes>,
                      n: nat, roots: set<Bytes>, brought: set<Bytes>, r: Bytes)
    requires Overwritten(d, mA, dA) && Overwritten(dA, mB, dB)
    requires WritesRoots(mA, certsA) && WritesRoots(mB, certsB)
    requires FulcioValues(d) <= roots && r != ""
    requires if r in roots then |certsA| == n else |certsA| == n + 1 && certsA[n] == r
    requires SetOf(certsB) == roots + brought
    requires if brought <= roots then |certsB| == n else |certsB| == n + 1 && brought == {certsB[n]}
    ensures r !in FulcioValues(dB) <==> r !in roots && !(brought <= roots + {r})
  {
    hide *;
    InSetOf(certsB, r);
    if r in certsB {
      ListedSurvives(dA, mB, dB, certsB, r);
    } else if brought <= roots {
      Written(d, mA, dA, certsA, n);
      UnlistedSurvives(dA, mB, dB, certsB, n, r);
    } else {
      NewRootReplaced(d, mA, dA, mB, dB, certsA, certsB, r);
    }
  }

  // --------------------------------------------------------------- what the log trusts

  /** The stored configuration names a file that holds `r`. */
  ghost predicate Trusts(c: Crypto, d: Data, r: Bytes) {
    && CONFIG in d && c.unmarshal(d[CONFIG]).Some? && TheLog(c.unmarshal(d[CONFIG]).value).Some?
    && var named := TheLog(c.unmarshal(d[CONFIG]).value).value.rootsPemFile;
       exists k | k in d :: d[k] == r && ROOTS_DIR + k in named
  }

  lemma NamedKeys(n: nat, k: string)
    ensures ROOTS_DIR + k in RootPaths(n) <==> exists j: nat :: j < n && k == FulcioKey(j)
  {
    hide FulcioKey;
    if ROOTS_DIR + k in RootPaths(n) {
      var j :| 0 <= j < n && ROOTS_DIR + FulcioKey(j) == ROOTS_DIR + k;
      assert (ROOTS_DIR + FulcioKey(j))[|ROOTS_DIR|..] == FulcioKey(j);
      assert (ROOTS_DIR + k)[|ROOTS_DIR|..] == k;
    }
    if j: nat :| j < n && k == FulcioKey(j) {
      assert RootPaths(n)[j] == ROOTS_DIR + k;
    }
  }

  /** What the log trusts is what the last writer listed, whatever it wrote over. */
  lemma TrustsListed(c: Crypto, s: Settings, base: Data, m: Data, d': Data, r: Bytes)
    requires Overwritten(base, m, d') && WritesRoots(m, s.fulcioCerts) && r != ""
    requires CONFIG in m && m[CONFIG] != "" && c.unmarshal(m[CONFIG]) == Some(ProtoOf(c, s))
    ensures Trusts(c, d', r) <==> r in s.fulcioCerts
  {
    hide FulcioKey, RootPaths;
    var n := |s.fulcioCerts|;
    forall k
      ensures ROOTS_DIR + k in RootPaths(n) <==> exists j: nat :: j < n && k == FulcioKey(j)
    {
      NamedKeys(n, k);
    }
    if r in s.fulcioCerts {
      var j :| 0 <= j < n && s.fulcioCerts[j] == r;
      assert d'[FulcioKey(j)] == r;
    }
  }

  lemma UpdateConfigures(c: Crypto, cm: Option<Bytes>, i: Input, d: Data, certs: seq<Bytes>, m: Data)
    requires Sound(c) && Updates(c, cm, i, d, certs, m)
    ensures CONFIG in m && m[CONFIG] != ""
    ensures c.unmarshal(m[CONFIG]) == Some(ProtoOf(c, UpdatedSettings(c, cm, i, d, certs)))
  {
    var s := UpdatedSettings(c, cm, i, d, certs);
    assert m == WithoutKeys(Marshalled(c, s, i.nonce, i.salt));
    hide Marshalled, WithoutKeys, FulcioKey, ProtoOf, UpdatedSettings;
    MarshalledUpdate(c, s, i.nonce, i.salt);
  }

  /** After a run that read `d` has written over any `base`, the log trusts exactly the
      roots that were in `d` and those the run brought. */
  lemma UpdateTrusts(c: Crypto, cm: Option<Bytes>, i: Input, d: Data, certs: seq<Bytes>, m: Data,
                     base: Data, d': Data, r: Bytes)
    requires Sound(c) && Updates(c, cm, i, d, certs, m) && r != ""
    requires Reconcile(Some(base), m).0.Success() && Reconcile(Some(base), m).1 == Some(d')
    ensures Trusts(c, d', r) <==> r in FulcioRoots(d) + NewRoots(c, i.chain)
  {
    var s := UpdatedSettings(c, cm, i, d, certs);
    assert s.fulcioCerts == WithRoot(c, certs, i.chain);
    hide *;
    UpdateWrites(c, cm, i, d, certs, m);
    UpdateConfigures(c, cm, i, d, certs, m);
    ReconciledOverwrites(base, m, d');
    TrustsListed(c, s, base, m, d', r);
    SameEnumeration(certs, certs, FulcioRoots(d));
    WithRootSet(c, certs, i.chain);
    InSetOf(s.fulcioCerts, r);
  }

  /** With nobody else writing, the log trusts exactly what is stored. */
  lemma TrustedIffStored(c: Crypto, cm: Option<Bytes>, i: Input, d: Data, certs: seq<Bytes>, m: Data,
                         d': Data, r: Bytes)
    requires Sound(c) && Updates(c, cm, i, d, certs, m) && r != ""
    requires Reconcile(Some(d), m).0.Success() && Reconcile(Some(d), m).1 == Some(d')
    ensures Trusts(c, d', r) <==> r in FulcioValues(d')
  {
    assert Content(Reconcile(Some(d), m).1) == d';
    hide *;
    UpdateTrusts(c, cm, i, d, certs, m, d, d', r);
    UpdateRoots(c, cm, i, d, certs, m);
    var s := UpdatedSettings(c, cm, i, d, certs);
    NonEmptyMember(FulcioValues(d'), r);
    NonEmptyMember(SetOf(s.fulcioCerts), r);
  }

  lemma ReachedTrusts(c: Crypto, cm: Option<Bytes>, i: Input, w: World, w': World, r: Bytes)
    requires Sound(c) && Reached(c, cm, i, w, w') && !NeedsCreate(cm, Content(w.main)) && r != ""
    ensures Trusts(c, Content(w'.main), r) <==> r in FulcioValues(Content(w'.main))
  {
    var m, f :| Wrote(c, cm, i, w, w', m, f);
    var d := Content(w.main);
    var certs :| Updates(c, cm, i, d, certs, m);
    assert w.main == Some(d);
    hide Reconcile, Updates, Trusts, FulcioValues, Sound, NeedsCreate;
    ReconciledReads(w.main, m);
    TrustedIffStored(c, cm, i, d, certs, m, Content(w'.main), r);
  }

  /** Over any sequence of runs one after the other on an initialised secret: from the first
      one that reaches its first write on, the log trusts exactly what is stored. */
  lemma {:induction false} TrustedAlways(c: Crypto, cm: Option<Bytes>, runs: seq<Option<Input>>, ws: seq<World>,
                                         n: nat, r: Bytes)
    requires Sound(c) && |ws| == |runs| + 1 && !NeedsCreate(cm, Content(ws[0].main)) && n <= |runs| && r != ""
    requires forall j | 0 <= j < |runs| :: Attempted(c, cm, runs[j], ws[j], ws[j + 1])
    requires exists j | 0 <= j < n :: runs[j].Some?
    ensures Trusts(c, Content(ws[n].main), r) <==> r in FulcioValues(Content(ws[n].main))
  {
    hide Reached, Trusts, FulcioValues, Sound, NeedsCreate, Content;
    assert Attempted(c, cm, runs[n - 1], ws[n - 1], ws[n]);
    if runs[n - 1].Some? {
      RootsExactly(c, cm, runs, ws, n - 1);
      ReachedTrusts(c, cm, runs[n - 1].value, ws[n - 1], ws[n], r);
    } else {
      TrustedAlways(c, cm, runs, ws, n - 1, r);
    }
  }

  /** After two overlapping runs the log trusts exactly what the second one knew of. A new
      root of the first that it did not know of is stored but not trusted when the second
      run brought nothing new, and otherwise not even stored. */
  lemma OverlapTrusts(c: Crypto, cm: Option<Bytes>, d: Data, a: Input, b: Input,
                      orderA: seq<Bytes>, orderB: seq<Bytes>, mA: Data, mB: Data, dA: Data, dB: Data)
    requires Sound(c)
    requires Updates(c, cm, a, d, orderA, mA) && Updates(c, cm, b, d, orderB, mB)
    requires Reconcile(Some(d), mA).0.Success() && Reconcile(Some(d), mA).1 == Some(dA)
    requires Reconcile(Some(dA), mB).0.Success() && Reconcile(Some(dA), mB).1 == Some(dB)
    ensures forall r | r in NewRoots(c, a.chain) ::
              && (Trusts(c, dB, r) <==> r in FulcioRoots(d) + NewRoots(c, b.chain))
              && (r in FulcioValues(dB) && !Trusts(c, dB, r) <==>
                  r !in FulcioRoots(d) && NewRoots(c, b.chain) <= FulcioRoots(d))
  {
    hide *;
    OverlapLosesRoot(c, cm, d, a, b, orderA, orderB, mA, mB, dA, dB);
    NewRootsNonEmpty(c, a.chain);
    AtMostOneRoot(c, b.chain);
    forall r | r in NewRoots(c, a.chain)
      ensures Trusts(c, dB, r) <==> r in FulcioRoots(d) + NewRoots(c, b.chain)
    {
      UpdateTrusts(c, cm, b, d, orderB, mB, dA, dB, r);
    }
  }

  lemma AtMostOneRoot(c: Crypto, chain: Bytes)
    ensures forall r, t | r in NewRoots(c, chain) && t in NewRoots(c, chain) :: r == t
  {
    hide ExtractFulcioRoot;
  }

  /** Creating a configuration over a secret that holds roots but lacks a key: a stored
      root is dropped exactly when fulcio-0 was its only entry and the run brings a
      different one. */
  lemma CreateDropsRoot(c: Crypto, i: Input, d: Data, m: Data, d': Data, r: Bytes)
    requires Sound(c) && Creates(c, i, m)
    requires Reconcile(Some(d), m).0.Success() && Reconcile(Some(d), m).1 == Some(d')
    requires r in FulcioValues(d) && r != ""
    ensures r !in FulcioValues(d') <==>
            && ExtractFulcioRoot(c.x, i.chain).Root? && ExtractFulcioRoot(c.x, i.chain).pem != r
            && forall k | k in d && FULCIO <= k && d[k] == r :: k == FulcioKey(0)
  {
    var k := NewKey(c, i).value;
    CreateWrites(c, i, k, m);
    ReconciledOverwrites(d, m, d');
    NewList(c, i, k);
    var certs := NewSettings(c, i, k).fulcioCerts;
    hide Overwritten, WritesRoots, Reconcile, ExtractFulcioRoot, NewSettings, Creates, FulcioKey, FulcioValues;
    CreateDrops(d, m, d', certs, r);
  }

  /** After a creation, over any secret or none, the log trusts the new root and nothing
      else, so a stored root that is not dropped is not trusted either. */
  lemma CreateTrusts(c: Crypto, i: Input, s0: Option<Data>, m: Data, r: Bytes)
    requires Sound(c) && Creates(c, i, m) && r != "" && Reconcile(s0, m).0.Success()
    ensures Trusts(c, Content(Reconcile(s0, m).1), r) <==> r in NewRoots(c, i.chain)
  {
    var d' := Content(Reconcile(s0, m).1);
    assert Overwritten(Content(s0), m, d') by {
      hide Reconcile, Creates, Sound, NewRoots;
      ReconciledReads(s0, m);
    }
    var k := NewKey(c, i).value;
    var s := NewSettings(c, i, k);
    CreateWrites(c, i, k, m);
    CreateConfigures(c, i, k, m);
    hide *;
    TrustsListed(c, s, Content(s0), m, d', r);
    CreatedList(c, i, k, r);
  }

  lemma CreatedList(c: Crypto, i: Input, k: PrivKey, r: Bytes)
    ensures r in NewSettings(c, i, k).fulcioCerts <==> r in NewRoots(c, i.chain)
  {
    hide ExtractFulcioRoot;
  }

  lemma CreateConfigures(c: Crypto, i: Input, k: PrivKey, m: Data)
    requires Sound(c) && Creates(c, i, m) && NewKey(c, i) == Some(k)
    ensures CONFIG in m && m[CONFIG] != "" && c.unmarshal(m[CONFIG]) == Some(ProtoOf(c, NewSettings(c, i, k)))
  {
    var s := NewSettings(c, i, k);
    hide Marshalled, FulcioEntries, FulcioKey, NewSettings, ExtractFulcioRoot, ProtoOf;
    MarshalledEntries(c, s, i.nonce, i.salt);
    ProtoNotEmpty(c, s);
    assert c.unmarshal(m[CONFIG]) == Some(ProtoOf(c, s));
  }

  lemma CreateWrites(c: Crypto, i: Input, k: PrivKey, m: Data)
    requires Creates(c, i, m) && NewKey(c, i) == Some(k)
    ensures WritesRoots(m, NewSettings(c, i, k).fulcioCerts)
  {
    var s := NewSettings(c, i, k);
    hide Marshalled, FulcioEntries, FulcioKey, NewSettings, ExtractFulcioRoot;
    MarshalledEntries(c, s, i.nonce, i.salt);
    FulcioEntriesAre(s.fulcioCerts);
    NamedKeysApart();
  }

  lemma NewList(c: Crypto, i: Input, k: PrivKey)
    ensures var x := ExtractFulcioRoot(c.x, i.chain);
            NewSettings(c, i, k).fulcioCerts == if x.Root? then [x.pem] else []
  {
    hide ExtractFulcioRoot;
  }

  lemma CreateDrops(d: Data, m: Data, d': Data, certs: seq<Bytes>, r: Bytes)
    requires Overwritten(d, m, d') && WritesRoots(m, certs) && |certs| <= 1
    requires r in FulcioValues(d) && r != ""
    ensures r !in FulcioValues(d') <==>
            && |certs| == 1 && certs[0] != r
            && forall k | k in d && FULCIO <= k && d[k] == r :: k == FulcioKey(0)
  {
    hide FulcioKey;
    var k0 :| k0 in d && FULCIO <= k0 && d[k0] == r;
    if |certs| == 0 {
      assert k0 !in m;
      assert d'[k0] == r;
    } else if certs[0] == r {
      ListedSurvives(d, m, d', certs, r);
    } else if k1 :| k1 in d && FULCIO <= k1 && d[k1] == r && k1 != FulcioKey(0) {
      assert k1 !in m;
      assert d'[k1] == r;
    } else {
      forall k | k in d' && FULCIO <= k
        ensures d'[k] != r
      {
        if k in m {
          assert k == FulcioKey(0);
          assert Read(d', k) == certs[0];
        } else {
          assert FulcioKey(0) in m;
          assert d[k] == d'[k];
        }
      }
    }
  }

  // ------------------------------------------------------------- overlapping creations

  lemma CreateSends(c: Crypto, i: Input, m: Data)
    requires Sound(c) && Creates(c, i, m)
    ensures NewKey(c, i).Some?
    ensures var k := NewKey(c, i).value;
            && PRIVATE in m && m[PRIVATE] == c.encrypt(k, i.password, i.nonce) && m[PRIVATE] != ""
            && PUBLIC in m && m[PUBLIC] == c.pubPem(c.pub(k)) && m[PUBLIC] != ""
  {
    var k := NewKey(c, i).value;
    var s := NewSettings(c, i, k);
    hide Marshalled, FulcioEntries, ExtractFulcioRoot, ProtoOf, WithRoot, NewKey;
    MarshalledEntries(c, s, i.nonce, i.salt);
    assert c.decrypt(c.encrypt(k, i.password, i.nonce), i.password) == Some(k);
    assert c.parsePub(c.pubPem(c.pub(k))) == Some(c.pub(k));
  }

  lemma SamePublic(c: Crypto, a: PubKey, b: PubKey)
    requires Sound(c)
    ensures c.pubPem(a) == c.pubPem(b) <==> a == b
  {
    assert c.parsePub(c.pubPem(a)) == Some(a) && c.parsePub(c.pubPem(b)) == Some(b);
  }

  /** Two runs that both create, the second over the first: both writes are accepted, the
      keys still belong together, but they are the second run's. The public key stays the
      same exactly when the two runs' private keys have the same one. */
  lemma OverlappingCreations(c: Crypto, a: Input, b: Input, mA: Data, mB: Data, s: Option<Data>)
    requires Sound(c) && Creates(c, a, mA) && Creates(c, b, mB) && Reconcile(s, mA).0.Success()
    ensures var kA, kB := NewKey(c, a).value, NewKey(c, b).value;
            var first := Reconcile(s, mA).1;
            var second := Reconcile(first, mB);
            var dA, dB := Content(first), Content(second.1);
            && second.0.Success() && KeysBelong(c, dB)
            && DecodedSettings(c, dB) == Ok(Settings(kB, b.password, c.pub(kB), b.logId, b.prefix, b.serverAddr, []))
            && (Read(dB, PUBLIC) == Read(dA, PUBLIC) <==> c.pub(kA) == c.pub(kB))
            && (Read(dB, PRIVATE) == Read(dA, PRIVATE) <==>
                c.encrypt(kA, a.password, a.nonce) == c.encrypt(kB, b.password, b.nonce))
  {
    var first := Reconcile(s, mA).1;
    hide *;
    CreateSends(c, a, mA);
    CreateSends(c, b, mB);
    ReconciledReads(s, mA);
    SecondAccepted(first, mB);
    ReconciledReads(first, mB);
    CreateBelongs(c, b, first, mB);
    CreatedSettings(c, b, first, mB);
    SamePublic(c, c.pub(NewKey(c, a).value), c.pub(NewKey(c, b).value));
  }

  lemma SecondAccepted(s: Option<Data>, m: Data)
    requires s.Some? && PRIVATE in Content(s)
    ensures Reconcile(s, m).0.Success()
  {
  }

  /** The second secret after the later of the two runs' public-key writes, which finds it
      as `p`: it holds the main secret's public key if that run was also the later one on
      the main secret, and otherwise exactly when the two runs have the same public key. */
  lemma OverlappingPublication(c: Crypto, a: Input, b: Input, mA: Data, mB: Data, s: Option<Data>, p: Option<Data>)
    requires Sound(c) && Creates(c, a, mA) && Creates(c, b, mB) && Reconcile(s, mA).0.Success()
    requires p != Some(map[])
    ensures var main := Content(Reconcile(Reconcile(s, mA).1, mB).1);
            var byA := Reconcile(p, map[PUBLIC := Read(mA, PUBLIC)]);
            var byB := Reconcile(p, map[PUBLIC := Read(mB, PUBLIC)]);
            && byA.0.Success() && byB.0.Success()
            && Read(Content(byB.1), PUBLIC) == Read(main, PUBLIC)
            && (Read(Content(byA.1), PUBLIC) == Read(main, PUBLIC) <==>
                c.pub(NewKey(c, a).value) == c.pub(NewKey(c, b).value))
  {
    var first := Reconcile(s, mA).1;
    Published(p, Read(mA, PUBLIC));
    Published(p, Read(mB, PUBLIC));
    hide Reconcile, Content, Creates, NewKey, Sound;
    CreateSends(c, a, mA);
    CreateSends(c, b, mB);
    OverlappingCreations(c, a, b, mA, mB, s);
    ReconciledReads(first, mB);
    SamePublic(c, c.pub(NewKey(c, a).value), c.pub(NewKey(c, b).value));
  }

  lemma Published(p: Option<Data>, value: Bytes)
    requires p != Some(map[])
    ensures Reconcile(p, map[PUBLIC := value]).0.Success()
    ensures Read(Content(Reconcile(p, map[PUBLIC := value]).1), PUBLIC) == value
  {
    var want := map[PUBLIC := value];
    assert Reconcile(p, want).0.Success();
    hide Reconcile;
    ReconciledReads(p, want);
    assert want[PUBLIC] == value;
  }
}
