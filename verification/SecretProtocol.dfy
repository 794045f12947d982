/** ReconcileSecret as a protocol: any number of clients interleave their calls on one
    secret. A call is a `Fetch` (secret.go:36) followed, after a purely local comparison,
    by a `Commit` (the update at line 52, the create at line 66, or nothing at all).
    The object that was fetched is the one sent back, so it carries its version.
 */
module SecretProtocol {
  import opened Wrappers
  import opened Secrets

  type Id = nat

  datatype Phase =
    | Idle
    | Fetched(seen: Option<Stored>)
    | Finished(outcome: Outcome)

  /** `writes` counts the writes the server accepted; it serves as the resource version.
      `log` lists the clients whose write was accepted, in commit order. */
  datatype State = State(obj: Option<Data>, writes: nat, phase: map<Id, Phase>, log: seq<Id>)

  datatype Action = Fetch(client: Id) | Commit(client: Id)

  type Wants = map<Id, Data>

  function Init(d0: Option<Data>, wants: Wants): State {
    State(d0, 0, map i | i in wants :: Idle, [])
  }

  function Snapshot(s: State): Option<Stored> {
    match s.obj
    case None => None
    case Some(d) => Some(Stored(s.writes, d))
  }

  function Finish(s: State, i: Id, o: Outcome): State {
    s.(phase := s.phase[i := Finished(o)])
  }

  /** The server accepts the write of client `i`. */
  function Accept(s: State, i: Id, d: Data, o: Outcome): State {
    State(Some(d), s.writes + 1, s.phase[i := Finished(o)], s.log + [i])
  }

  /** What the fetched object leads client `i` to do. */
  function CommitStep(s: State, i: Id, seen: Option<Stored>, want: Data): State {
    match seen
    case None =>
      if s.obj.None? then Accept(s, i, want, Created) else Finish(s, i, Rejected)
    case Some(Stored(v, d)) =>
      if Agrees(d, want) then Finish(s, i, Unchanged)
      else if d == map[] then Finish(s, i, Panicked)
      else if s.obj.Some? && v == s.writes then Accept(s, i, Overlay(d, want), Updated)
      else Finish(s, i, Rejected)
  }

  /** An action that does not fit the client's phase changes nothing. */
  function Step(wants: Wants, s: State, a: Action): State {
    if a.client !in wants || a.client !in s.phase then s
    else match (a, s.phase[a.client])
      case (Fetch(i), Idle) => s.(phase := s.phase[i := Fetched(Snapshot(s))])
      case (Commit(i), Fetched(seen)) => CommitStep(s, i, seen, wants[i])
      case _ => s
  }

  /** Every interleaving is a list of actions. */
  function Run(wants: Wants, s: State, acts: seq<Action>): State
    decreases |acts|
  {
    if acts == [] then s
    else Step(wants, Run(wants, s, acts[..|acts| - 1]), acts[|acts| - 1])
  }

  // ---------------------------------------------------------------- specification

  /** One reconciliation performed at a single moment. */
  function Atomically(s: Option<Data>, want: Data): Option<Data> {
    match s
    case None => Some(want)
    case Some(d) => Some(Overlay(d, want))
  }

  function Fold(d0: Option<Data>, wants: Wants, log: seq<Id>): Option<Data>
    requires forall i | i in log :: i in wants
    decreases |log|
  {
    if log == [] then d0
    else Atomically(Fold(d0, wants, log[..|log| - 1]), wants[log[|log| - 1]])
  }

  /** The outcomes of an accepted write. */
  predicate Writes(o: Outcome) {
    o.Created? || o.Updated?
  }

  predicate Wrote(p: Phase) {
    p.Finished? && Writes(p.outcome)
  }

  /** The object is the fold of the accepted writes. */
  ghost predicate Folded(d0: Option<Data>, wants: Wants, s: State) {
    && s.phase.Keys == wants.Keys
    && (forall i | i in s.log :: i in wants)
    && s.obj == Fold(d0, wants, s.log)
    && s.writes == |s.log|
  }

  /** A snapshot is the object at the version it carries. */
  predicate FreshUnlessOverwritten(s: State) {
    forall i | i in s.phase && s.phase[i].Fetched? && s.phase[i].seen.Some? ::
      && s.phase[i].seen.value.version <= s.writes
      && s.obj.Some?
      && (s.phase[i].seen.value.version == s.writes ==> s.obj.value == s.phase[i].seen.value.data)
  }

  /** The log holds each writer once, and a create is only ever its first entry. */
  predicate LogMatches(d0: Option<Data>, s: State) {
    && (forall i | i in s.phase :: i in s.log <==> Wrote(s.phase[i]))
    && (forall j, k | 0 <= j < k < |s.log| :: s.log[j] != s.log[k])
    && (forall i | i in s.phase && s.phase[i] == Finished(Created) ::
          d0.None? && s.log != [] && s.log[0] == i)
  }

  ghost predicate Inv(d0: Option<Data>, wants: Wants, s: State) {
    Folded(d0, wants, s) && FreshUnlessOverwritten(s) && LogMatches(d0, s)
  }

  lemma InitInv(d0: Option<Data>, wants: Wants)
    ensures Inv(d0, wants, Init(d0, wants))
  {
  }

  lemma FoldExtend(d0: Option<Data>, wants: Wants, log: seq<Id>, i: Id)
    requires forall j | j in log + [i] :: j in wants
    ensures Fold(d0, wants, log + [i]) == Atomically(Fold(d0, wants, log), wants[i])
  {
    assert (log + [i])[..|log|] == log;
  }

  lemma FoldNone(d0: Option<Data>, wants: Wants, log: seq<Id>)
    requires forall j | j in log :: j in wants
    ensures Fold(d0, wants, log).None? ==> d0.None? && log == []
  {
  }

  lemma AcceptLog(d0: Option<Data>, s: State, i: Id, d: Data, o: Outcome)
    requires LogMatches(d0, s) && i in s.phase && s.phase[i].Fetched?
    requires o == Updated || (o == Created && d0.None? && s.log == [])
    ensures LogMatches(d0, Accept(s, i, d, o))
  {
    var s' := Accept(s, i, d, o);
    assert i !in s.log;
    forall j | j in s'.phase
      ensures j in s'.log <==> Wrote(s'.phase[j])
    {
      assert j in s'.log <==> j in s.log || j == i;
    }
  }

  lemma AcceptFolds(d0: Option<Data>, wants: Wants, s: State, i: Id, d: Data, o: Outcome)
    requires Folded(d0, wants, s) && i in wants
    requires Some(d) == Atomically(s.obj, wants[i])
    ensures Folded(d0, wants, Accept(s, i, d, o))
  {
    FoldExtend(d0, wants, s.log, i);
  }

  lemma AcceptFresh(s: State, i: Id, d: Data, o: Outcome)
    requires FreshUnlessOverwritten(s)
    ensures FreshUnlessOverwritten(Accept(s, i, d, o))
  {
  }

  lemma FinishInv(d0: Option<Data>, wants: Wants, s: State, i: Id, o: Outcome)
    requires Inv(d0, wants, s) && i in wants && s.phase[i].Fetched?
    requires !o.Created? && !o.Updated?
    ensures Inv(d0, wants, Finish(s, i, o))
  {
  }

  lemma FetchInv(d0: Option<Data>, wants: Wants, s: State, i: Id)
    requires Inv(d0, wants, s) && i in wants && s.phase[i].Idle?
    ensures Inv(d0, wants, s.(phase := s.phase[i := Fetched(Snapshot(s))]))
  {
  }

  lemma CommitInv(d0: Option<Data>, wants: Wants, s: State, i: Id)
    requires Inv(d0, wants, s) && i in wants && s.phase[i].Fetched?
    ensures Inv(d0, wants, CommitStep(s, i, s.phase[i].seen, wants[i]))
  {
    var s' := CommitStep(s, i, s.phase[i].seen, wants[i]);
    var o := s'.phase[i].outcome;
    if o.Created? || o.Updated? {
      FoldNone(d0, wants, s.log);
      AcceptFolds(d0, wants, s, i, s'.obj.value, o);
      AcceptFresh(s, i, s'.obj.value, o);
      AcceptLog(d0, s, i, s'.obj.value, o);
    } else {
      FinishInv(d0, wants, s, i, o);
    }
  }

  lemma StepInv(d0: Option<Data>, wants: Wants, s: State, a: Action)
    requires Inv(d0, wants, s)
    ensures Inv(d0, wants, Step(wants, s, a))
  {
    var i := a.client;
    if i in wants && a.Fetch? && s.phase[i].Idle? {
      FetchInv(d0, wants, s, i);
    } else if i in wants && a.Commit? && s.phase[i].Fetched? {
      CommitInv(d0, wants, s, i);
    }
  }

  lemma {:induction false} RunInv(d0: Option<Data>, wants: Wants, acts: seq<Action>)
    ensures Inv(d0, wants, Run(wants, Init(d0, wants), acts))
    decreases |acts|
  {
    if acts != [] {
      var last := |acts| - 1;
      RunInv(d0, wants, acts[..last]);
      StepInv(d0, wants, Run(wants, Init(d0, wants), acts[..last]), acts[last]);
    } else {
      InitInv(d0, wants);
    }
  }

  // ------------------------------------------------------------------ main results

  /** Every interleaving is equivalent to performing the successful writes one after the
      other, at their commit points: no accepted write is ever built on a stale object.
      The log holds each writer once, and at most one create succeeds, as the first write
      to a secret that did not exist. */
  lemma Linearizable(d0: Option<Data>, wants: Wants, acts: seq<Action>)
    ensures var s := Run(wants, Init(d0, wants), acts);
            && s.phase.Keys == wants.Keys
            && (forall i | i in s.log :: i in wants)
            && s.obj == Fold(d0, wants, s.log)
            && (forall i | i in wants :: i in s.log <==> Wrote(s.phase[i]))
            && (forall j, k | 0 <= j < k < |s.log| :: s.log[j] != s.log[k])
            && (forall i | i in wants && s.phase[i] == Finished(Created) ::
                  d0.None? && s.log != [] && s.log[0] == i)
  {
    RunInv(d0, wants, acts);
  }

  lemma AtomicallyReads(s: Option<Data>, want: Data, k: string)
    ensures var d := Content(Atomically(s, want));
            && (k in want ==> Read(d, k) == want[k])
            && (k !in want ==> (k in d <==> k in Content(s)) && Read(d, k) == Read(Content(s), k))
  {
    if s.Some? {
      OverlayCharacterised(s.value, want, Overlay(s.value, want));
    }
  }

  /** A key that no writer wants keeps its initial state. */
  lemma {:induction false} UnwantedKeyKept(d0: Option<Data>, wants: Wants, log: seq<Id>, k: string)
    requires forall i | i in log :: i in wants
    requires forall j | 0 <= j < |log| :: k !in wants[log[j]]
    ensures var d := Content(Fold(d0, wants, log));
            (k in d <==> k in Content(d0)) && Read(d, k) == Read(Content(d0), k)
    decreases |log|
  {
    hide Atomically;
    if log == [] {
    } else {
      var last := |log| - 1;
      UnwantedKeyKept(d0, wants, log[..last], k);
      AtomicallyReads(Fold(d0, wants, log[..last]), wants[log[last]], k);
    }
  }

  /** Otherwise the last writer that wants the key decides what it reads as. */
  lemma {:induction false} LastWriterWins(d0: Option<Data>, wants: Wants, log: seq<Id>, k: string, j: nat)
    requires forall i | i in log :: i in wants
    requires j < |log| && k in wants[log[j]]
    requires forall l | j < l < |log| :: k !in wants[log[l]]
    ensures Read(Content(Fold(d0, wants, log)), k) == wants[log[j]][k]
    decreases |log|
  {
    hide Atomically;
    var last := |log| - 1;
    if j == last {
    } else {
      assert log[..last][j] == log[j];
      LastWriterWins(d0, wants, log[..last], k, j);
    }
    AtomicallyReads(Fold(d0, wants, log[..last]), wants[log[last]], k);
  }

  /** The state at each moment of an interleaving. */
  function At(d0: Option<Data>, wants: Wants, acts: seq<Action>, t: nat): State
    requires t <= |acts|
  {
    Run(wants, Init(d0, wants), acts[..t])
  }

  lemma AtStep(d0: Option<Data>, wants: Wants, acts: seq<Action>, t: nat)
    requires t < |acts|
    ensures At(d0, wants, acts, t + 1) == Step(wants, At(d0, wants, acts, t), acts[t])
  {
    assert acts[..t + 1][..t] == acts[..t];
  }

  /** Client `i` has been holding what it holds now ever since moment `t`. */
  ghost predicate HoldsSince(d0: Option<Data>, wants: Wants, acts: seq<Action>, i: Id, p: Phase, t: nat)
    requires t <= |acts|
  {
    forall u | t <= u <= |acts| ::
      i in At(d0, wants, acts, u).phase && At(d0, wants, acts, u).phase[i] == p
  }

  lemma AtPrefix(d0: Option<Data>, wants: Wants, acts: seq<Action>, n: nat, t: nat)
    requires t <= n <= |acts|
    ensures At(d0, wants, acts[..n], t) == At(d0, wants, acts, t)
  {
    assert acts[..n][..t] == acts[..t];
  }

  /** What a client has seen was the object at some moment since which the client has been
      in the middle of its call; `t` is that moment. */
  lemma {:induction false} FetchMoment(d0: Option<Data>, wants: Wants, acts: seq<Action>, i: Id) returns (t: nat)
    requires i in At(d0, wants, acts, |acts|).phase && At(d0, wants, acts, |acts|).phase[i].Fetched?
    ensures t <= |acts|
    ensures HoldsSince(d0, wants, acts, i, At(d0, wants, acts, |acts|).phase[i], t)
    ensures Snapshot(At(d0, wants, acts, t)) == At(d0, wants, acts, |acts|).phase[i].seen
    decreases |acts|
  {
    if acts == [] {
      assert false;
    } else {
      var last := |acts| - 1;
      AtStep(d0, wants, acts, last);
      var before := At(d0, wants, acts, last);
      AtPrefix(d0, wants, acts, last, last);
      if i in before.phase && before.phase[i].Fetched? {
        t := FetchMoment(d0, wants, acts[..last], i);
        forall u | t <= u <= last
          ensures At(d0, wants, acts[..last], u) == At(d0, wants, acts, u)
        {
          AtPrefix(d0, wants, acts, last, u);
        }
      } else {
        t := |acts|;
      }
    }
  }

  /** The action that finished client `i`'s call: it was mid-call just before. */
  lemma {:induction false} FinishMoment(d0: Option<Data>, wants: Wants, acts: seq<Action>, i: Id) returns (t: nat)
    requires i in At(d0, wants, acts, |acts|).phase && At(d0, wants, acts, |acts|).phase[i].Finished?
    ensures t < |acts| && acts[t] == Commit(i)
    ensures i in At(d0, wants, acts, t).phase && At(d0, wants, acts, t).phase[i].Fetched?
    ensures i in At(d0, wants, acts, t + 1).phase
    ensures At(d0, wants, acts, t + 1).phase[i] == At(d0, wants, acts, |acts|).phase[i]
    decreases |acts|
  {
    if acts == [] {
      assert false;
    } else {
      var last := |acts| - 1;
      AtStep(d0, wants, acts, last);
      var before := At(d0, wants, acts, last);
      AtPrefix(d0, wants, acts, last, last);
      if i in before.phase && before.phase[i].Finished? {
        t := FinishMoment(d0, wants, acts[..last], i);
        AtPrefix(d0, wants, acts, last, t);
        AtPrefix(d0, wants, acts, last, t + 1);
      } else {
        t := last;
      }
    }
  }

  lemma {:induction false} LogGrows(d0: Option<Data>, wants: Wants, acts: seq<Action>, t: nat, u: nat)
    requires t <= u <= |acts|
    ensures At(d0, wants, acts, t).log <= At(d0, wants, acts, u).log
    decreases u - t
  {
    if t == u {
    } else {
      LogGrows(d0, wants, acts, t, u - 1);
      AtStep(d0, wants, acts, u - 1);
    }
  }

  // ------------------------------------------------------------- what one call does

  /** Run without interruption, from any state, a call does what `Reconcile` says, and no
      other client notices. */
  lemma AloneIsReconcile(wants: Wants, s: State, i: Id)
    requires i in wants && i in s.phase && s.phase[i].Idle?
    ensures var r := Reconcile(s.obj, wants[i]);
            var s' := Step(wants, Step(wants, s, Fetch(i)), Commit(i));
            && s'.obj == r.1
            && s'.phase == s.phase[i := Finished(r.0)]
            && s'.log == if Writes(r.0) then s.log + [i] else s.log
  {
    hide Overlay, Agrees;
  }

  /** A client in the middle of its call that commits: what `Reconcile` says of the object it
      fetched, unless that is a write and the server has accepted another since. */
  ghost predicate CallFrom(seen: Option<Data>, want: Data, disturbed: bool, before: State, after: State, i: Id) {
    var r := Reconcile(seen, want);
    && i in after.phase
    && after.phase[i] == Finished(if Writes(r.0) && disturbed then Rejected else r.0)
    && after.obj == if Writes(r.0) && !disturbed then r.1 else before.obj
  }

  /** The object after the same accepted writes is the same, and after more of them exists. */
  lemma SameLogSameObject(d0: Option<Data>, wants: Wants, s: State, u: State)
    requires Inv(d0, wants, s) && Inv(d0, wants, u) && s.log <= u.log
    ensures s.log == u.log <==> s.writes == u.writes
    ensures s.log == u.log ==> s.obj == u.obj
    ensures s.log != u.log ==> u.obj.Some?
  {
    hide Fold;
    FoldNone(d0, wants, u.log);
  }

  lemma CommitIsCall(d0: Option<Data>, wants: Wants, s: State, u: State, i: Id)
    requires Inv(d0, wants, s) && Inv(d0, wants, u) && s.log <= u.log
    requires i in wants && i in u.phase && u.phase[i] == Fetched(Snapshot(s))
    ensures CallFrom(s.obj, wants[i], s.log != u.log, u, Step(wants, u, Commit(i)), i)
  {
    SameLogSameObject(d0, wants, s, u);
    hide Overlay, Agrees, Inv;
  }

  /** Every finished call, in every interleaving: it fetched at a moment `t`, committed at a
      moment `u`, and did what `Reconcile` says of the secret as it was at `t`; only if that
      is a write, and exactly if another write was accepted in between, it was rejected
      instead and changed nothing. */
  lemma CallExact(d0: Option<Data>, wants: Wants, acts: seq<Action>, i: Id) returns (t: nat, u: nat)
    requires i in wants
    requires i in At(d0, wants, acts, |acts|).phase && At(d0, wants, acts, |acts|).phase[i].Finished?
    ensures t <= u < |acts| && acts[u] == Commit(i)
    ensures forall m | t <= m <= u ::
              i in At(d0, wants, acts, m).phase && At(d0, wants, acts, m).phase[i].Fetched?
    ensures var first, before, after := At(d0, wants, acts, t), At(d0, wants, acts, u), At(d0, wants, acts, u + 1);
            && CallFrom(first.obj, wants[i], first.log != before.log, before, after, i)
            && after.phase[i] == At(d0, wants, acts, |acts|).phase[i]
  {
    u := FinishMoment(d0, wants, acts, i);
    AtStep(d0, wants, acts, u);
    AtPrefix(d0, wants, acts, u, u);
    t := FetchMoment(d0, wants, acts[..u], i);
    forall m | t <= m <= u
      ensures At(d0, wants, acts[..u], m) == At(d0, wants, acts, m)
    {
      AtPrefix(d0, wants, acts, u, m);
    }
    LogGrows(d0, wants, acts, t, u);
    RunInv(d0, wants, acts[..t]);
    RunInv(d0, wants, acts[..u]);
    hide Inv, CallFrom, Step, Run, Snapshot;
    CommitIsCall(d0, wants, At(d0, wants, acts, t), At(d0, wants, acts, u), i);
  }

  /** A call panics exactly when the secret it fetched had no entries and did not read as
      wanted; and a call whose wishes differ from a secret with entries, and during which no
      write was accepted, is an update. */
  lemma PanicsIff(d0: Option<Data>, wants: Wants, acts: seq<Action>, i: Id) returns (t: nat, u: nat)
    requires i in wants
    requires i in At(d0, wants, acts, |acts|).phase && At(d0, wants, acts, |acts|).phase[i].Finished?
    ensures t <= u < |acts|
    ensures forall m | t <= m <= u ::
              i in At(d0, wants, acts, m).phase && At(d0, wants, acts, m).phase[i].Fetched?
    ensures var seen, end := At(d0, wants, acts, t).obj, At(d0, wants, acts, |acts|).phase[i];
            && (end == Finished(Panicked) <==> seen == Some(map[]) && exists k | k in wants[i] :: wants[i][k] != "")
            && (seen.Some? && seen.value != map[] && !Agrees(seen.value, wants[i])
                && At(d0, wants, acts, t).log == At(d0, wants, acts, u).log
                ==> end == Finished(Updated) && At(d0, wants, acts, u + 1).obj == Some(Overlay(seen.value, wants[i])))
  {
    t, u := CallExact(d0, wants, acts, i);
    hide At, Overlay;
  }

  /** A call that reports success without writing had a moment, during the call, at which
      the secret existed and already read as wanted. */
  lemma UnchangedWasTrue(d0: Option<Data>, wants: Wants, acts: seq<Action>, i: Id) returns (t: nat)
    requires i in wants
    requires i in At(d0, wants, acts, |acts|).phase
    requires At(d0, wants, acts, |acts|).phase[i] == Finished(Unchanged)
    ensures t <= |acts|
    ensures i in At(d0, wants, acts, t).phase && At(d0, wants, acts, t).phase[i].Fetched?
    ensures var obj := At(d0, wants, acts, t).obj; obj.Some? && Agrees(obj.value, wants[i])
  {
    var f := FinishMoment(d0, wants, acts, i);
    AtStep(d0, wants, acts, f);
    AtPrefix(d0, wants, acts, f, f);
    t := FetchMoment(d0, wants, acts[..f], i);
    AtPrefix(d0, wants, acts, f, t);
  }

  /** A call is rejected only because another client's write was accepted during it. */
  lemma RejectedHasRival(d0: Option<Data>, wants: Wants, acts: seq<Action>, i: Id) returns (t: nat, u: nat)
    requires i in wants
    requires i in At(d0, wants, acts, |acts|).phase
    requires At(d0, wants, acts, |acts|).phase[i] == Finished(Rejected)
    ensures t <= u <= |acts|
    ensures forall m | t <= m <= u ::
              i in At(d0, wants, acts, m).phase && At(d0, wants, acts, m).phase[i].Fetched?
    ensures At(d0, wants, acts, t).log < At(d0, wants, acts, u).log && i !in At(d0, wants, acts, u).log
  {
    u := FinishMoment(d0, wants, acts, i);
    AtStep(d0, wants, acts, u);
    AtPrefix(d0, wants, acts, u, u);
    t := FetchMoment(d0, wants, acts[..u], i);
    forall m | t <= m <= u
      ensures At(d0, wants, acts[..u], m) == At(d0, wants, acts, m)
    {
      AtPrefix(d0, wants, acts, u, m);
    }
    LogGrows(d0, wants, acts, t, u);
    RunInv(d0, wants, acts[..t]);
    RunInv(d0, wants, acts[..u]);
  }
}
