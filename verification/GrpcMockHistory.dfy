/** What the gRPC mock has recorded, told from the moves of a run instead of from its own lists. */
module GrpcMockHistory {
  import opened Wrappers
  import opened GrpcMock

  // ---------- definitions ----------

  /** What is registered after the first n moves. */
  ghost function Registered(moves: seq<Move>, n: nat): map<string, Definition>
    requires n <= |moves|
  {
    if n == 0 then map[]
    else
      var before := Registered(moves, n - 1);
      match moves[n - 1].action
      case Define(key, def) => before[key := def]
      case Delete(key) => before - {key}
      case _ => before
  }

  lemma {:induction false} DefinitionsAreRegistered(states: seq<State>, moves: seq<Move>, n: nat)
    requires IsRun(states, moves) && n < |states|
    ensures states[n].defs == Registered(moves, n)
  {
    if n > 0 {
      DefinitionsAreRegistered(states, moves, n - 1);
      assert Follows(states[n - 1], moves[n - 1], states[n]);
    }
  }

  // ---------- one handler ----------

  /** Nobody but others moves from i on and before j. */
  ghost predicate Waits(moves: seq<Move>, t: int, i: nat, j: nat)
    requires i <= j <= |moves|
  {
    forall k | i <= k < j :: moves[k].caller != t
  }

  ghost predicate BeganAt(states: seq<State>, moves: seq<Move>, i: nat, t: int, rpc: string, def: Definition)
    requires IsRun(states, moves) && i < |moves|
  {
    && PhaseOf(states[i], t) == Idle && moves[i] == Move(t, Request(rpc))
    && rpc in states[i].defs && states[i].defs[rpc] == def
  }

  ghost predicate LoadedSince(states: seq<State>, moves: seq<Move>, n: nat, t: int, rpc: string, def: Definition,
                              i: nat)
    requires IsRun(states, moves) && n <= |moves|
  {
    i < n && BeganAt(states, moves, i, t, rpc, def) && Waits(moves, t, i + 1, n)
  }

  /** A handler holds the definition that was registered for its method when its request came in. */
  lemma {:induction false} LoadedWhat(states: seq<State>, moves: seq<Move>, n: nat, t: int, rpc: string,
                                      def: Definition) returns (i: nat)
    requires IsRun(states, moves) && n < |states| && PhaseOf(states[n], t) == Loaded(rpc, def)
    ensures LoadedSince(states, moves, n, t, rpc, def, i)
  {
    assert n > 0;
    var s, m := states[n - 1], moves[n - 1];
    assert Follows(s, m, states[n]);
    if m.caller == t {
      i := n - 1;
    } else {
      i := LoadedWhat(states, moves, n - 1, t, rpc, def);
    }
  }

  ghost predicate ReceivedSince(states: seq<State>, moves: seq<Move>, n: nat, t: int, e: Entry, i: nat, j: nat)
    requires IsRun(states, moves) && n <= |moves|
  {
    && j < n && LoadedSince(states, moves, j, t, e.rpc, e.def, i)
    && moves[j] == Move(t, Receive(e.payload)) && Waits(moves, t, j + 1, n)
  }

  /** What a handler is about to record is its request's method, the payload that came in, and the definition that was
      registered for the method when the request came in. */
  lemma {:induction false} ReceivedWhat(states: seq<State>, moves: seq<Move>, n: nat, t: int, e: Entry)
    returns (i: nat, j: nat)
    requires IsRun(states, moves) && n < |states| && PhaseOf(states[n], t) == Received(e)
    ensures ReceivedSince(states, moves, n, t, e, i, j)
  {
    assert n > 0;
    var s, m := states[n - 1], moves[n - 1];
    assert Follows(s, m, states[n]);
    if m.caller == t {
      j := n - 1;
      i := LoadedWhat(states, moves, j, t, e.rpc, e.def);
    } else {
      i, j := ReceivedWhat(states, moves, n - 1, t, e);
    }
  }

  // ---------- the record ----------

  /** The entries of the handlers that took the mutex since the last reset, in the order they took it. */
  ghost function Taken(states: seq<State>, moves: seq<Move>, n: nat): seq<Entry>
    requires IsRun(states, moves) && n < |states|
  {
    if n == 0 then []
    else
      match PhaseOf(states[n - 1], moves[n - 1].caller)
      case Received(e) => Taken(states, moves, n - 1) + [e]
      case ResetLocked => []
      case _ => Taken(states, moves, n - 1)
  }

  /** The entry of the handler that has the mutex and has not appended it yet. */
  function Pending(s: State): seq<Entry> {
    match (if s.owner.Some? then PhaseOf(s, s.owner.value) else Idle)
    case Locked(e) => [e]
    case _ => []
  }

  lemma {:induction false} TakenIsLog(states: seq<State>, moves: seq<Move>, n: nat)
    requires IsRun(states, moves) && n < |states|
    ensures Taken(states, moves, n) == states[n].log + Pending(states[n])
  {
    if n > 0 {
      TakenIsLog(states, moves, n - 1);
      RunKeepsInv(states, moves, n - 1);
      RunKeepsInv(states, moves, n);
      TakenStep(states[n - 1], moves[n - 1], states[n]);
    }
  }

  lemma TakenStep(s: State, m: Move, s': State)
    requires Exclusive(s) && Exclusive(s') && Follows(s, m, s')
    ensures s'.log + Pending(s') ==
            match PhaseOf(s, m.caller)
            case Received(e) => s.log + Pending(s) + [e]
            case ResetLocked => []
            case _ => s.log + Pending(s)
  {
    var t := m.caller;
    assert Inside(PhaseOf(s, t)) <==> s.owner == Some(t);
    if s.owner.Some? && s.owner.value != t {
      assert PhaseOf(s', s.owner.value) == PhaseOf(s, s.owner.value);
    }
  }

  ghost predicate Increasing(idx: seq<int>, n: int) {
    (forall k | 0 <= k < |idx| :: 0 <= idx[k] < n) && forall k, l | 0 <= k < l < |idx| :: idx[k] < idx[l]
  }

  predicate Mismatches(e: Entry) {
    e.def.expected.Some? && e.def.expected.value != e.payload
  }

  /** `idx` are the mismatching entries, and the errors are theirs, in order. */
  ghost predicate Selects(log: seq<Entry>, errors: seq<Mismatch>, idx: seq<int>) {
    && Increasing(idx, |log|) && |errors| == |idx|
    && (forall i | 0 <= i < |log| :: i in idx <==> Mismatches(log[i]))
    && (forall k | 0 <= k < |idx| ::
          var e := log[idx[k]];
          Mismatches(e) && errors[k] == Mismatch(e.rpc, e.def.expected.value, e.payload))
  }

  lemma {:induction false} ErrorsSelected(log: seq<Entry>) returns (idx: seq<int>)
    ensures Selects(log, ErrorsOf(log), idx)
  {
    idx := [];
    if log != [] {
      var n := |log| - 1;
      var some := ErrorsSelected(log[..n]);
      hide Selects;
      idx := some + if Mismatches(log[n]) then [n] else [];
      SelectsSnoc(log, ErrorsOf(log[..n]), some);
    }
  }

  lemma SelectsSnoc(log: seq<Entry>, errors: seq<Mismatch>, idx: seq<int>)
    requires log != [] && Selects(log[..|log| - 1], errors, idx)
    ensures var e := log[|log| - 1];
            if Mismatches(e)
            then Selects(log, errors + [Mismatch(e.rpc, e.def.expected.value, e.payload)], idx + [|log| - 1])
            else Selects(log, errors, idx + [])
  {
    var n := |log| - 1;
    assert idx + [] == idx;
    forall i | 0 <= i < n ensures log[..n][i] == log[i] {
    }
    forall k | 0 <= k < |idx| ensures idx[k] < n {
    }
  }

  /** In every interleaving, outside the mutex and in every copy returned, the requests are exactly those of the
      handlers that took the mutex since the last reset, with their methods and payloads in the order they took it,
      and the errors exactly those of them that differ from what was expected. */
  lemma RecordedIsTaken(states: seq<State>, moves: seq<Move>, n: nat) returns (idx: seq<int>)
    requires IsRun(states, moves) && n < |states|
    ensures var s, taken := states[n], Taken(states, moves, n);
            && (s.owner.None? ==> Records(taken, s.requests) && Selects(taken, s.errors, idx))
            && (forall t | PhaseOf(s, t).EndCopied? :: Selects(taken, PhaseOf(s, t).result, idx))
            && (forall t | PhaseOf(s, t).GetCopied? :: Records(taken, PhaseOf(s, t).copy))
  {
    var s := states[n];
    RunKeepsInv(states, moves, n);
    TakenIsLog(states, moves, n);
    ErrorsMatchRequests(states, moves, n);
    assert Pending(s) == [] ==> Taken(states, moves, n) == s.log;
    idx := ErrorsSelected(Taken(states, moves, n));
    forall t | PhaseOf(s, t).EndCopied? || PhaseOf(s, t).GetCopied? ensures s.owner == Some(t) {
      assert Inside(PhaseOf(s, t)) <==> s.owner == Some(t);
    }
  }

  ghost predicate Records(entries: seq<Entry>, requests: seq<Recorded>) {
    && |requests| == |entries|
    && forall i | 0 <= i < |entries| :: requests[i] == Recorded(entries[i].rpc, entries[i].payload)
  }

  // ---------- nothing is forgotten ----------

  ghost predicate AppendedBetween(states: seq<State>, moves: seq<Move>, i: nat, n: nat, t: int, e: Entry)
    requires IsRun(states, moves) && n < |states|
  {
    exists k | i <= k < n :: moves[k].caller == t && AppendsAt(states[k], states[k + 1], e)
  }

  predicate AppendsAt(s: State, s': State, e: Entry) {
    s'.requests == s.requests + [Recorded(e.rpc, e.payload)]
  }

  /** A handler that has received its payload either still waits for the mutex, or has just taken it, or has appended
      its request. */
  lemma {:induction false} ReceivedIsAppended(states: seq<State>, moves: seq<Move>, i: nat, n: nat, t: int, e: Entry)
    requires IsRun(states, moves) && i <= n < |states| && PhaseOf(states[i], t) == Received(e)
    ensures PhaseOf(states[n], t) == Received(e) || PhaseOf(states[n], t) == Locked(e) ||
            AppendedBetween(states, moves, i, n, t, e)
  {
    hide Apply, PhaseOf;
    if i < n {
      ReceivedIsAppended(states, moves, i, n - 1, t, e);
      assert Follows(states[n - 1], moves[n - 1], states[n]);
      if AppendedBetween(states, moves, i, n - 1, t, e) {
        StillAppended(states, moves, i, n, t, e);
      } else {
        HandlerStep(states[n - 1], moves[n - 1], states[n], t, e);
      }
    }
  }

  lemma HandlerStep(s: State, m: Move, s': State, t: int, e: Entry)
    requires Follows(s, m, s') && (PhaseOf(s, t) == Received(e) || PhaseOf(s, t) == Locked(e))
    ensures PhaseOf(s', t) == Received(e) || PhaseOf(s', t) == Locked(e) || (m.caller == t && AppendsAt(s, s', e))
  {
    if m.caller != t {
      assert PhaseOf(s', t) == PhaseOf(s, t);
    }
  }

  lemma StillAppended(states: seq<State>, moves: seq<Move>, i: nat, n: nat, t: int, e: Entry)
    requires IsRun(states, moves) && 0 < n < |states| && AppendedBetween(states, moves, i, n - 1, t, e)
    ensures AppendedBetween(states, moves, i, n, t, e)
  {
    var k :| i <= k < n - 1 && moves[k].caller == t && AppendsAt(states[k], states[k + 1], e);
  }

  /** A handler that received a payload and is done has appended its request inside that call. */
  lemma HandlersRecord(states: seq<State>, moves: seq<Move>, i: nat, n: nat, t: int, e: Entry)
    requires IsRun(states, moves) && i <= n < |states| && PhaseOf(states[i], t) == Received(e)
    requires PhaseOf(states[n], t) == Idle
    ensures AppendedBetween(states, moves, i, n, t, e)
  {
    ReceivedIsAppended(states, moves, i, n, t, e);
  }

  /** A request for a registered method is handled with the definition registered by then, and whatever payload comes
      in is what is about to be recorded. */
  lemma HandlersBegin(states: seq<State>, moves: seq<Move>, n: nat, t: int)
    requires IsRun(states, moves) && n < |moves| && moves[n].caller == t
    ensures PhaseOf(states[n], t) == Idle && moves[n].action.Request? && moves[n].action.rpc in Registered(moves, n) ==>
              PhaseOf(states[n + 1], t) == Loaded(moves[n].action.rpc, Registered(moves, n)[moves[n].action.rpc])
    ensures PhaseOf(states[n], t).Loaded? && moves[n].action.Receive? ==>
              var (rpc, def) := (PhaseOf(states[n], t).rpc, PhaseOf(states[n], t).def);
              PhaseOf(states[n + 1], t) == Received(Entry(rpc, moves[n].action.payload, def))
  {
    assert Follows(states[n], moves[n], states[n + 1]);
    DefinitionsAreRegistered(states, moves, n);
  }

  ghost predicate ClearedBetween(states: seq<State>, i: nat, n: nat, t: int)
    requires n < |states|
  {
    exists k | i <= k <= n :: states[k].owner == Some(t) && states[k].requests == [] && states[k].errors == []
  }

  lemma MidwayIsEmpty(s: State, t: int)
    requires Inv(s) && PhaseOf(s, t).ResetMid?
    ensures s.owner == Some(t) && s.requests == []
  {
    assert Inside(PhaseOf(s, t)) <==> s.owner == Some(t);
  }

  lemma OthersStay(s: State, m: Move, s': State, t: int)
    requires Follows(s, m, s') && m.caller != t
    ensures PhaseOf(s', t) == PhaseOf(s, t)
  {
  }

  lemma ClearingStep(s: State, m: Move, s': State, t: int)
    requires Follows(s, m, s') && Inv(s)
    requires PhaseOf(s, t).Deleting? || PhaseOf(s, t).ResetLocked? || PhaseOf(s, t).ResetMid?
    ensures || PhaseOf(s', t).Deleting? || PhaseOf(s', t).ResetLocked? || PhaseOf(s', t).ResetMid?
            || (s'.owner == Some(t) && s'.requests == [] && s'.errors == [])
  {
    hide Inv;
    if m.caller != t {
      hide Apply, PhaseOf;
      OthersStay(s, m, s', t);
    } else if PhaseOf(s, t).ResetMid? {
      MidwayIsEmpty(s, t);
    }
  }

  lemma {:induction false} ResettingClears(states: seq<State>, moves: seq<Move>, i: nat, n: nat, t: int)
    requires IsRun(states, moves) && i <= n < |states| && PhaseOf(states[i], t).Deleting?
    ensures || PhaseOf(states[n], t).Deleting? || PhaseOf(states[n], t).ResetLocked? || PhaseOf(states[n], t).ResetMid?
            || ClearedBetween(states, i, n, t)
  {
    hide Apply, PhaseOf, Inv;
    if i < n {
      ResettingClears(states, moves, i, n - 1, t);
      assert Follows(states[n - 1], moves[n - 1], states[n]);
      RunKeepsInv(states, moves, n - 1);
      if ClearedBetween(states, i, n - 1, t) {
        var k :| i <= k <= n - 1 && states[k].owner == Some(t) && states[k].requests == [] && states[k].errors == [];
      } else {
        ClearingStep(states[n - 1], moves[n - 1], states[n], t);
      }
    }
  }

  /** A `ResetDefinitions` that is done held the mutex at an instant when both lists were empty. */
  lemma ResetsClear(states: seq<State>, moves: seq<Move>, i: nat, n: nat, t: int)
    requires IsRun(states, moves) && i <= n < |states|
    requires PhaseOf(states[i], t).Deleting? && PhaseOf(states[n], t) == Idle
    ensures ClearedBetween(states, i, n, t)
  {
    ResettingClears(states, moves, i, n, t);
  }
}
