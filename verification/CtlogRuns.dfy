/** Runs of createctconfig over the two secrets it maintains
    (tools/ctlog/cmd/ctlog/createctconfig/main.go:134-224). */
module CtlogRuns {
  import opened Wrappers
  import opened Strings
  import opened Secrets
  import opened CtlogConfig

  /** Where a new configuration gets its private key: generated, or read from the secret
      named on the command line (`None` when that secret does not exist). */
  datatype KeySource = Generated(key: Option<PrivKey>) | Imported(secret: Option<Data>)

  /** What a run is given: command line, tree id, Fulcio's chain, and randomness. */
  datatype Input = Input(
    source: KeySource, password: string, logId: int, prefix: string, serverAddr: string,
    chain: Bytes, nonce: nat, salt: nat)

  /** The main secret and the public-key secret. */
  datatype World = World(main: Option<Data>, pub: Option<Data>)

  /** Lines 150-152; `cm` is the configuration found in the ConfigMap. */
  predicate NeedsCreate(cm: Option<Bytes>, d: Data) {
    PRIVATE !in d || PUBLIC !in d || (CONFIG !in d && cm.None?)
  }

  function NewKey(c: Crypto, i: Input): Option<PrivKey> {
    match i.source
    case Generated(key) => key
    case Imported(None) => None
    case Imported(Some(d)) => if Read(d, PRIVATE) == "" then None else c.decrypt(d[PRIVATE], i.password)
  }

  /** The roots after AddFulcioRoot, whose error is only logged. */
  function WithRoot(c: Crypto, certs: seq<Bytes>, chain: Bytes): seq<Bytes> {
    match ExtractFulcioRoot(c.x, chain)
    case Root(pem) => Added(certs, pem)
    case _ => certs
  }

  function NewSettings(c: Crypto, i: Input, k: PrivKey): Settings {
    Settings(k, i.password, c.pub(k), i.logId, i.prefix, i.serverAddr, WithRoot(c, [], i.chain))
  }

  /** The secret data that Unmarshal sees: the ConfigMap's configuration if there is no other. */
  function Effective(cm: Option<Bytes>, d: Data): Data {
    if CONFIG in d || cm.None? then d else d[CONFIG := cm.value]
  }

  /** The run creates a configuration and sends `m` to the main secret. */
  ghost predicate Creates(c: Crypto, i: Input, m: Data) {
    && !ExtractFulcioRoot(c.x, i.chain).IndexPanic?
    && NewKey(c, i).Some?
    && m == Marshalled(c, NewSettings(c, i, NewKey(c, i).value), i.nonce, i.salt)
  }

  function WithoutKeys(m: Data): Data {
    m - {PRIVATE, PUBLIC}
  }

  /** The run read `d`, got its roots in the order `certs`, and sends `m`. */
  ghost predicate Updates(c: Crypto, cm: Option<Bytes>, i: Input, d: Data, certs: seq<Bytes>, m: Data) {
    && !ExtractFulcioRoot(c.x, i.chain).IndexPanic?
    && DecodedSettings(c, Effective(cm, d)).Ok?
    && Enumerates(certs, FulcioRoots(Effective(cm, d)))
    && var s := DecodedSettings(c, Effective(cm, d)).value.(fulcioCerts := WithRoot(c, certs, i.chain));
       m == WithoutKeys(Marshalled(c, s, i.nonce, i.salt))
  }

  /** A run that read `d` may send `m`. */
  ghost predicate Sends(c: Crypto, cm: Option<Bytes>, i: Input, d: Data, m: Data) {
    if NeedsCreate(cm, d) then Creates(c, i, m)
    else exists certs :: Updates(c, cm, i, d, certs, m)
  }

  /** The public key the run stores in the second secret. */
  function PublicOf(cm: Option<Bytes>, d: Data, m: Data): Bytes {
    if NeedsCreate(cm, d) then Read(m, PUBLIC) else Read(d, PUBLIC)
  }

  /** The main secret was written (or found to agree); the second may or may not have been
      reached. */
  ghost predicate Wrote(c: Crypto, cm: Option<Bytes>, i: Input, w: World, w': World, m: Data, finished: bool) {
    var main := Reconcile(w.main, m);
    var pub := Reconcile(w.pub, map[PUBLIC := PublicOf(cm, Content(w.main), m)]);
    && Sends(c, cm, i, Content(w.main), m)
    && main.0.Success() && w'.main == main.1
    && if finished then pub.0.Success() && w'.pub == pub.1 else w'.pub == w.pub
  }

  /** One run with nobody else writing. It may fail or crash at any point. */
  ghost predicate Step(c: Crypto, cm: Option<Bytes>, w: World, w': World) {
    w' == w || exists i, m, finished :: Wrote(c, cm, i, w, w', m, finished)
  }

  /** Nothing stops the run before its first write. */
  predicate CanWrite(c: Crypto, cm: Option<Bytes>, i: Input, d: Data) {
    && !ExtractFulcioRoot(c.x, i.chain).IndexPanic?
    && if NeedsCreate(cm, d) then NewKey(c, i).Some? else DecodedSettings(c, Effective(cm, d)).Ok?
  }

  // ------------------------------------------------------------------- the program

  /** What ends a run from outside: a crash, an API error, or a failure of marshalling or
      encryption. A write whose answer is lost counts as made. */
  datatype Interruption = Uninterrupted | BeforeFirstWrite | BeforeSecondWrite

  /** From the secret that was read to what the run writes: the data for the main secret and
      the public key for the other. */
  method Plan(c: Crypto, cm: Option<Bytes>, i: Input, d: Data) returns (plan: Option<(Data, Bytes)>)
    ensures plan.Some? <==> CanWrite(c, cm, i, d)
    ensures plan.Some? ==> Sends(c, cm, i, d, plan.value.0) && plan.value.1 == PublicOf(cm, d, plan.value.0)
  {
    hide Marshalled, DecodedSettings, ExtractFulcioRoot, Enumerates, FulcioRoots;
    if NeedsCreate(cm, d) {
      var key := NewKey(c, i);
      if key.None? {
        return None;
      }
      var config := new Config(Settings(key.value, i.password, c.pub(key.value), i.logId, i.prefix, i.serverAddr, []));
      var added := config.AddFulcioRoot(c.x, i.chain);
      if added.IndexPanic? {
        return None;
      }
      var m := MarshalConfig(c, config.View(), i.nonce, i.salt);
      return Some((m, Read(m, PUBLIC)));
    } else {
      var config := Unmarshal(c, Effective(cm, d));
      if config.Err? {
        return None;
      }
      ghost var certs := config.value.fulcioCerts;
      var added := config.value.AddFulcioRoot(c.x, i.chain);
      if added.IndexPanic? {
        return None;
      }
      var marshaled := MarshalConfig(c, config.value.View(), i.nonce, i.salt);
      var m := WithoutKeys(marshaled);
      assert Updates(c, cm, i, d, certs, m);
      return Some((m, Read(d, PUBLIC)));
    }
  }

  /** The program from line 134 on. */
  method CreateCtConfig(c: Crypto, store: Store, mainName: string, pubName: string,
                        cm: Option<Bytes>, i: Input, stop: Interruption) returns (ok: bool)
    requires mainName != pubName
    modifies store
    ensures Step(c, cm, old(World(store.Lookup(mainName), store.Lookup(pubName))),
                 World(store.Lookup(mainName), store.Lookup(pubName)))
    ensures ok ==> exists m :: Wrote(c, cm, i, old(World(store.Lookup(mainName), store.Lookup(pubName))),
                                     World(store.Lookup(mainName), store.Lookup(pubName)), m, true)
    ensures (CanWrite(c, cm, i, Content(old(store.Lookup(mainName)))) && old(store.Lookup(mainName)) != Some(map[])
             && !stop.BeforeFirstWrite?) ==>
              exists m :: Wrote(c, cm, i, old(World(store.Lookup(mainName), store.Lookup(pubName))),
                                World(store.Lookup(mainName), store.Lookup(pubName)), m, ok)
    ensures (CanWrite(c, cm, i, Content(old(store.Lookup(mainName)))) && old(store.Lookup(mainName)) != Some(map[])
             && stop.Uninterrupted? && old(store.Lookup(pubName)) != Some(map[])) ==> ok
  {
    hide Sends, CanWrite, PublicOf, Reconcile;
    ghost var w := World(store.Lookup(mainName), store.Lookup(pubName));
    var found := store.Get(mainName);
    var d: Data := if found.Some? then found.value.data else map[];
    var plan := Plan(c, cm, i, d);
    if plan.None? {
      return false;
    }
    var (m, pubValue) := plan.value;
    if stop.BeforeFirstWrite? {
      return false;
    }
    var r := ReconcileSecret(store, mainName, m);
    if !r.Success() {
      assert store.Lookup(mainName) == w.main && w.main == Some(map[]) by {
        NoSuccessNoChange(w.main, m);
      }
      return false;
    }
    assert Wrote(c, cm, i, w, World(store.Lookup(mainName), store.Lookup(pubName)), m, false);
    if stop.BeforeSecondWrite? {
      return false;
    }
    r := ReconcileSecret(store, pubName, map[PUBLIC := pubValue]);
    if !r.Success() {
      assert store.Lookup(pubName) == w.pub && w.pub == Some(map[]) by {
        NoSuccessNoChange(w.pub, map[PUBLIC := pubValue]);
      }
      return false;
    }
    assert Wrote(c, cm, i, w, World(store.Lookup(mainName), store.Lookup(pubName)), m, true);
    return true;
  }

  lemma NoSuccessNoChange(s: Option<Data>, want: Data)
    requires !Reconcile(s, want).0.Success()
    ensures Reconcile(s, want).1 == s && s == Some(map[])
  {
  }
}
