/** The gRPC mock server: handlers that load a definition, receive, then record and verify under a mutex, beside
    `SetDefinition` and a `ResetDefinitions` that deletes key by key before it takes the mutex. */
module GrpcMock {
  import opened Wrappers

  type Bytes = seq<int>

  /** `expected` is None where verification is skipped. */
  datatype Definition = Definition(expected: Option<Bytes>, response: Bytes)

  datatype Recorded = Recorded(rpc: string, payload: Bytes)

  datatype Mismatch = Mismatch(rpc: string, want: Bytes, got: Bytes)

  /** A request together with the definition its handler had loaded. */
  datatype Entry = Entry(rpc: string, payload: Bytes, def: Definition)

  datatype Phase =
    | Idle
    | Loaded(rpc: string, def: Definition)
    | Received(entry: Entry)
    | Locked(entry: Entry)
    | Appended(entry: Entry)
    | Verified
    | Deleting
    | ResetLocked
    | ResetMid
    | ResetEnd
    | EndLocked
    | EndCopied(result: seq<Mismatch>)
    | GetLocked
    | GetCopied(copy: seq<Recorded>)

  /** `log` remembers every entry recorded since the requests were last cleared. */
  datatype State = State(defs: map<string, Definition>, requests: seq<Recorded>, errors: seq<Mismatch>,
                         owner: Option<int>, phases: map<int, Phase>, log: seq<Entry>)

  const INIT := State(map[], [], [], None, map[], [])

  function PhaseOf(s: State, t: int): Phase {
    if t in s.phases then s.phases[t] else Idle
  }

  function At(s: State, t: int, ph: Phase): State {
    s.(phases := s.phases[t := ph])
  }

  datatype Action =
    | Define(key: string, def: Definition)
    | Request(rpc: string)
    | Receive(payload: Bytes)
    | Fails
    | BeginReset
    | Delete(key: string)
    | BeginEnd
    | BeginGet
    | Go

  predicate Enabled(s: State, t: int, a: Action) {
    match PhaseOf(s, t)
    case Idle => a.Define? || a.Request? || a.BeginReset? || ((a.BeginEnd? || a.BeginGet?) && s.owner.None?)
    case Loaded(_, _) => a.Receive? || a.Fails?
    case Received(_) => a.Go? && s.owner.None?
    case Deleting => a.Delete? || (a.Go? && s.owner.None?)
    case _ => a.Go?
  }

  function Complaint(e: Entry): seq<Mismatch> {
    if e.def.expected.Some? && e.payload != e.def.expected.value
    then [Mismatch(e.rpc, e.def.expected.value, e.payload)] else []
  }

  function Apply(s: State, t: int, a: Action): State
    requires Enabled(s, t, a)
  {
    match PhaseOf(s, t)
    case Idle =>
      if a.Define? then s.(defs := s.defs[a.key := a.def])
      else if a.Request? then (if a.rpc in s.defs then At(s, t, Loaded(a.rpc, s.defs[a.rpc])) else s)
      else if a.BeginReset? then At(s, t, Deleting)
      else At(s.(owner := Some(t)), t, if a.BeginEnd? then EndLocked else GetLocked)
    // the handler
    case Loaded(m, def) => if a.Fails? then At(s, t, Idle) else At(s, t, Received(Entry(m, a.payload, def)))
    case Received(e) => At(s.(owner := Some(t)), t, Locked(e))
    case Locked(e) => At(s.(requests := s.requests + [Recorded(e.rpc, e.payload)], log := s.log + [e]), t, Appended(e))
    case Appended(e) => At(s.(errors := s.errors + Complaint(e)), t, Verified)
    case Verified => At(s.(owner := None), t, Idle)
    // ResetDefinitions
    case Deleting => if a.Delete? then s.(defs := s.defs - {a.key}) else At(s.(owner := Some(t)), t, ResetLocked)
    case ResetLocked => At(s.(requests := [], log := []), t, ResetMid)
    case ResetMid => At(s.(errors := []), t, ResetEnd)
    case ResetEnd => At(s.(owner := None), t, Idle)
    // EndRunningContext
    case EndLocked => At(s, t, EndCopied(s.errors))
    case EndCopied(_) => At(s.(owner := None), t, Idle)
    // GetRecordedRequests
    case GetLocked => At(s, t, GetCopied(s.requests))
    case GetCopied(_) => At(s.(owner := None), t, Idle)
  }

  // ---------- the invariant ----------

  predicate Inside(ph: Phase) {
    || ph.Locked? || ph.Appended? || ph.Verified?
    || ph.ResetLocked? || ph.ResetMid? || ph.ResetEnd?
    || ph.EndLocked? || ph.EndCopied? || ph.GetLocked? || ph.GetCopied?
  }

  function RecordsOf(log: seq<Entry>): seq<Recorded> {
    seq(|log|, i requires 0 <= i < |log| => Recorded(log[i].rpc, log[i].payload))
  }

  /** One error for each entry that differs from what its definition expects, in order. */
  function ErrorsOf(log: seq<Entry>): seq<Mismatch> {
    if log == [] then []
    else
      var before, e := ErrorsOf(log[..|log| - 1]), log[|log| - 1];
      match e.def.expected
      case None => before
      case Some(want) => if want == e.payload then before else before + [Mismatch(e.rpc, want, e.payload)]
  }

  ghost predicate Exclusive(s: State) {
    forall t :: Inside(PhaseOf(s, t)) <==> s.owner == Some(t)
  }

  ghost predicate Consistent(s: State) {
    match (if s.owner.Some? then PhaseOf(s, s.owner.value) else Idle)
    case Appended(e) => s.log != [] && s.log[|s.log| - 1] == e && s.errors == ErrorsOf(s.log[..|s.log| - 1])
    case ResetMid => s.log == []
    case EndCopied(result) => s.errors == ErrorsOf(s.log) && result == s.errors
    case GetCopied(copy) => s.errors == ErrorsOf(s.log) && copy == s.requests
    case _ => s.errors == ErrorsOf(s.log)
  }

  ghost predicate Inv(s: State) {
    Exclusive(s) && s.requests == RecordsOf(s.log) && Consistent(s)
  }

  lemma StepKeepsExclusive(s: State, t: int, a: Action)
    requires Enabled(s, t, a) && Exclusive(s)
    ensures Exclusive(Apply(s, t, a))
  {
    var s' := Apply(s, t, a);
    forall u ensures Inside(PhaseOf(s', u)) <==> s'.owner == Some(u) {
      assert Inside(PhaseOf(s, u)) <==> s.owner == Some(u);
      assert Inside(PhaseOf(s, t)) <==> s.owner == Some(t);
    }
  }

  lemma StepKeepsInv(s: State, t: int, a: Action)
    requires Enabled(s, t, a) && Inv(s)
    ensures Inv(Apply(s, t, a))
  {
    StepKeepsExclusive(s, t, a);
    assert Inside(PhaseOf(s, t)) <==> s.owner == Some(t);
    if PhaseOf(s, t).Locked? {
      var e := PhaseOf(s, t).entry;
      assert (s.log + [e])[..|s.log|] == s.log;
    }
  }

  // ---------- runs ----------

  datatype Move = Move(caller: int, action: Action)

  ghost predicate Follows(s: State, m: Move, s': State) {
    Enabled(s, m.caller, m.action) && s' == Apply(s, m.caller, m.action)
  }

  ghost predicate IsRun(states: seq<State>, moves: seq<Move>) {
    && |states| == |moves| + 1 && states[0] == INIT
    && forall i | 0 <= i < |moves| :: Follows(states[i], moves[i], states[i + 1])
  }

  lemma {:induction false} RunKeepsInv(states: seq<State>, moves: seq<Move>, n: nat)
    requires IsRun(states, moves) && n < |states|
    ensures Inv(states[n])
  {
    if n > 0 {
      RunKeepsInv(states, moves, n - 1);
      assert Follows(states[n - 1], moves[n - 1], states[n]);
      StepKeepsInv(states[n - 1], moves[n - 1].caller, moves[n - 1].action);
    }
  }

  /** In every interleaving, outside the mutex the recorded requests are the entries of the log and the errors are
      exactly those of its entries that differ from the expectation their handler had loaded, in order; and so are
      the copies that `GetRecordedRequests` and `EndRunningContext` return. */
  lemma ErrorsMatchRequests(states: seq<State>, moves: seq<Move>, n: nat)
    requires IsRun(states, moves) && n < |states|
    ensures var s := states[n];
            && (s.owner.None? ==> s.requests == RecordsOf(s.log) && s.errors == ErrorsOf(s.log))
            && (forall t | PhaseOf(s, t).EndCopied? :: PhaseOf(s, t).result == ErrorsOf(s.log))
            && (forall t | PhaseOf(s, t).GetCopied? :: PhaseOf(s, t).copy == RecordsOf(s.log))
  {
    RunKeepsInv(states, moves, n);
    var s := states[n];
    forall t | PhaseOf(s, t).EndCopied? ensures PhaseOf(s, t).result == ErrorsOf(s.log) {
      assert Inside(PhaseOf(s, t)) <==> s.owner == Some(t);
    }
    forall t | PhaseOf(s, t).GetCopied? ensures PhaseOf(s, t).copy == RecordsOf(s.log) {
      assert Inside(PhaseOf(s, t)) <==> s.owner == Some(t);
    }
  }

  /** The definition in the hands of a handler, if any. */
  function InHand(ph: Phase): Option<(string, Definition)> {
    match ph
    case Loaded(m, def) => Some((m, def))
    case Received(e) => Some((e.rpc, e.def))
    case Locked(e) => Some((e.rpc, e.def))
    case Appended(e) => Some((e.rpc, e.def))
    case _ => None
  }

  ghost predicate WasDefined(states: seq<State>, n: nat, m: string, def: Definition)
    requires n < |states|
  {
    exists k | 0 <= k <= n :: m in states[k].defs && states[k].defs[m] == def
  }

  /** Whatever a handler verifies against was registered for its method at an earlier instant. */
  lemma {:induction false} HandlersUseRegisteredDefinitions(states: seq<State>, moves: seq<Move>, n: nat, t: int,
                                                            m: string, def: Definition)
    requires IsRun(states, moves) && n < |states| && InHand(PhaseOf(states[n], t)) == Some((m, def))
    ensures WasDefined(states, n, m, def)
  {
    if n > 0 {
      var s, s', move := states[n - 1], states[n], moves[n - 1];
      assert Follows(s, move, s');
      if InHand(PhaseOf(s, t)) == Some((m, def)) {
        HandlersUseRegisteredDefinitions(states, moves, n - 1, t, m, def);
        EarlierIsEarlier(states, n, m, def);
      } else {
        assert m in states[n - 1].defs && states[n - 1].defs[m] == def;
      }
    }
  }

  lemma EarlierIsEarlier(states: seq<State>, n: nat, m: string, def: Definition)
    requires 0 < n < |states| && WasDefined(states, n - 1, m, def)
    ensures WasDefined(states, n, m, def)
  {
  }

  /** Every logged entry was verified against a definition registered for its method at an earlier instant. */
  lemma {:induction false} LoggedDefinitionsWereRegistered(states: seq<State>, moves: seq<Move>, n: nat, i: nat)
    requires IsRun(states, moves) && n < |states| && i < |states[n].log|
    ensures WasDefined(states, n, states[n].log[i].rpc, states[n].log[i].def)
  {
    if n > 0 {
      var s, s', move := states[n - 1], states[n], moves[n - 1];
      assert Follows(s, move, s');
      var e := s'.log[i];
      if i < |s.log| && s.log[i] == e {
        LoggedDefinitionsWereRegistered(states, moves, n - 1, i);
        EarlierIsEarlier(states, n, e.rpc, e.def);
      } else {
        HandlersUseRegisteredDefinitions(states, moves, n - 1, move.caller, e.rpc, e.def);
        EarlierIsEarlier(states, n, e.rpc, e.def);
      }
    }
  }
}
