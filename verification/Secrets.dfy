/** Reconciling one Kubernetes secret (tools/secret/pkg/secret/secret.go).

    A stored secret is `None` when the API server does not have it. A secret without
    any entry comes back from the server with a nil data map, so `Some(map[])` is
    that case: reading it is harmless and writing into it panics.
 */
module Secrets {
  import opened Wrappers
  import opened Strings

  type Data = map<string, Bytes>

  /** Data of a secret that was fetched; a missing one has none. */
  function Content(s: Option<Data>): Data {
    if s.Some? then s.value else map[]
  }

  /** What an index expression on the data map yields: a missing key reads as empty. */
  function Read(d: Data, k: string): Bytes {
    if k in d then d[k] else ""
  }

  /** Every wanted entry already reads as wanted. */
  predicate Agrees(d: Data, want: Data) {
    forall k | k in want :: Read(d, k) == want[k]
  }

  /** The keys of `want` among `keys` whose stored value differs. */
  function Differing(d: Data, want: Data, keys: set<string>): set<string>
    requires keys <= want.Keys
  {
    set k | k in keys && Read(d, k) != want[k]
  }

  /** `d` after every differing entry among `keys` has been written. */
  function OverlayOn(d: Data, want: Data, keys: set<string>): Data
    requires keys <= want.Keys
  {
    map k | k in d.Keys + Differing(d, want, keys) :: if k in keys then want[k] else d[k]
  }

  function Overlay(d: Data, want: Data): Data {
    OverlayOn(d, want, want.Keys)
  }

  datatype Outcome = Created | Updated | Unchanged | Rejected | Panicked {
    predicate Success() { Created? || Updated? || Unchanged? }
  }

  /** One whole reconciliation with nobody else writing. */
  function Reconcile(s: Option<Data>, want: Data): (Outcome, Option<Data>) {
    match s
    case None => (Created, Some(want))
    case Some(d) =>
      if Agrees(d, want) then (Unchanged, s)
      else if d == map[] then (Panicked, s)
      else (Updated, Some(Overlay(d, want)))
  }

  /** An overlay makes the wanted entries read as wanted and leaves every other key alone;
      it invents no key, and it is the only map of that kind. */
  lemma OverlayCharacterised(d: Data, want: Data, r: Data)
    ensures r == Overlay(d, want) <==>
            && Agrees(r, want)
            && (forall k :: k !in want ==> (k in r <==> k in d) && Read(r, k) == Read(d, k))
            && (forall k :: k in want ==> (k in r <==> k in d || want[k] != ""))
  {
    var o := Overlay(d, want);
    assert Agrees(o, want);
    assert forall k :: k in want ==> (k in o <==> k in d || want[k] != "");
    if Agrees(r, want)
       && (forall k :: k !in want ==> (k in r <==> k in d) && Read(r, k) == Read(d, k))
       && (forall k :: k in want ==> (k in r <==> k in d || want[k] != ""))
    {
      forall k
        ensures k in r <==> k in o
        ensures k in r ==> r[k] == o[k]
      {
        if k in want {
          assert Read(r, k) == want[k] == Read(o, k);
        } else {
          assert Read(r, k) == Read(d, k) == Read(o, k);
        }
      }
      assert r == o;
    }
  }

  /** A success establishes the wanted entries, and a second call changes nothing. */
  lemma ReconcileIdempotent(s: Option<Data>, want: Data)
    requires Reconcile(s, want).0.Success()
    ensures Reconcile(s, want).1.Some? && Agrees(Reconcile(s, want).1.value, want)
    ensures Reconcile(Reconcile(s, want).1, want) == (Unchanged, Reconcile(s, want).1)
  {
    if s.Some? {
      OverlayCharacterised(s.value, want, Overlay(s.value, want));
    }
  }

  /** Which outcome a reconciliation has, and what it leaves: a failure changes nothing, and a
      success makes the wanted entries read as wanted and touches no other. */
  lemma ReconcileOutcome(s: Option<Data>, want: Data)
    ensures var r := Reconcile(s, want);
            var differs := exists k | k in want :: Read(Content(s), k) != want[k];
            && (r.0 == Created <==> s.None?)
            && (r.0 == Unchanged <==> s.Some? && !differs)
            && (r.0 == Updated <==> s.Some? && differs && s.value != map[])
            && (r.0 == Panicked <==> s == Some(map[]) && differs)
            && r.0 != Rejected
            && (!r.0.Success() ==> r.1 == s)
            && (r.0.Success() ==> && r.1.Some? && (forall k | k in want :: Read(r.1.value, k) == want[k])
                                  && (forall k | k !in want :: Read(r.1.value, k) == Read(Content(s), k)))
  {
    if s.Some? {
      OverlayCharacterised(s.value, want, Overlay(s.value, want));
    }
  }

  /** A secret with a version the server compares on update. */
  datatype Stored = Stored(version: nat, data: Data)

  /** The namespaced secret interface of the API server. */
  class Store {
    var objects: map<string, Stored>

    constructor ()
      ensures objects == map[]
    {
      objects := map[];
    }

    function Lookup(name: string): Option<Data>
      reads this
    {
      if name in objects then Some(objects[name].data) else None
    }

    method Get(name: string) returns (r: Option<Stored>)
      ensures r == if name in objects then Some(objects[name]) else None
    {
      r := if name in objects then Some(objects[name]) else None;
    }

    method Create(name: string, data: Data) returns (ok: bool)
      modifies this
      ensures ok == (name !in old(objects))
      ensures objects == if ok then old(objects)[name := Stored(0, data)] else old(objects)
    {
      ok := name !in objects;
      if ok {
        objects := objects[name := Stored(0, data)];
      }
    }

    method Update(name: string, obj: Stored) returns (ok: bool)
      modifies this
      ensures ok == (name in old(objects) && old(objects)[name].version == obj.version)
      ensures objects == if ok then old(objects)[name := Stored(obj.version + 1, obj.data)] else old(objects)
    {
      ok := name in objects && objects[name].version == obj.version;
      if ok {
        objects := objects[name := Stored(obj.version + 1, obj.data)];
      }
    }
  }

  lemma NothingOverlaid(d: Data, want: Data)
    ensures Differing(d, want, want.Keys - want.Keys) == {} && OverlayOn(d, want, want.Keys - want.Keys) == d
  {
  }

  /** One more key of the comparison loop. */
  lemma OverlayMore(d: Data, want: Data, keys: set<string>, k: string)
    requires keys <= want.Keys && k in want && k !in keys
    ensures Read(OverlayOn(d, want, keys), k) == Read(d, k)
    ensures var o := OverlayOn(d, want, keys);
            if Read(d, k) == want[k]
            then OverlayOn(d, want, keys + {k}) == o && Differing(d, want, keys + {k}) == Differing(d, want, keys)
            else && OverlayOn(d, want, keys + {k}) == o[k := want[k]]
                 && k in Differing(d, want, keys + {k}) && !Agrees(d, want)
  {
  }

  lemma DifferingIsDisagreement(d: Data, want: Data)
    ensures Differing(d, want, want.Keys) == {} <==> Agrees(d, want)
  {
    if Differing(d, want, want.Keys) == {} {
      forall k | k in want
        ensures Read(d, k) == want[k]
      {
        assert k !in Differing(d, want, want.Keys);
      }
    }
  }

  /** ReconcileSecret, run alone: the loop visits the wanted keys in any order. */
  method ReconcileSecret(store: Store, name: string, want: Data) returns (r: Outcome)
    modifies store
    ensures (r, store.Lookup(name)) == Reconcile(old(store.Lookup(name)), want)
    ensures store.objects.Keys == old(store.objects.Keys) + if r == Created then {name} else {}
    ensures forall n :: n in old(store.objects) && n != name ==> store.objects[n] == old(store.objects[n])
  {
    hide OverlayOn, Differing, Agrees;
    var existing := store.Get(name);
    if existing.Some? {
      var d := existing.value.data;
      var current, update, todo := d, false, want.Keys;
      NothingOverlaid(d, want);
      while todo != {}
        invariant todo <= want.Keys
        invariant current == OverlayOn(d, want, want.Keys - todo)
        invariant update <==> Differing(d, want, want.Keys - todo) != {}
        invariant update ==> d != map[]
        modifies {}
      {
        var k :| k in todo;
        assert want.Keys - (todo - {k}) == (want.Keys - todo) + {k};
        OverlayMore(d, want, want.Keys - todo, k);
        if Read(current, k) != want[k] {
          if d == map[] {
            return Panicked;
          }
          current := current[k := want[k]];
          update := true;
        }
        todo := todo - {k};
      }
      assert want.Keys - todo == want.Keys;
      DifferingIsDisagreement(d, want);
      if update {
        var ok := store.Update(name, existing.value.(data := current));
        r := if ok then Updated else Rejected;
      } else {
        r := Unchanged;
      }
    } else {
      var ok := store.Create(name, want);
      r := if ok then Created else Rejected;
    }
  }
}
