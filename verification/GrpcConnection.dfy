/** The gRPC transport's shared connection under a read-write lock: any number of `getConn` and `Close` calls,
    interleaved step by step. */
module GrpcConnection {
  import opened Wrappers

  /** Where a caller stands.  The read phase holds the read lock, the write phases hold the write lock. */
  datatype Phase =
    | Idle
    | Start
    | RLocked
    | Read(seen: Option<int>)
    | WantLock
    | Locked
    | Dialing
    | Dialed(dialed: int)
    | Have(result: Option<int>)
    | Returned(got: Option<int>)
    | CloseStart
    | CloseLocked
    | CloseMid
    | CloseEnd

  /** `created` and `closed` count connections; `live` are those open now. */
  datatype State = State(conn: Option<int>, created: nat, closed: nat, live: set<int>,
                         writer: Option<int>, readers: set<int>, phases: map<int, Phase>)

  const INIT := State(None, 0, 0, {}, None, {}, map[])

  function PhaseOf(s: State, t: int): Phase {
    if t in s.phases then s.phases[t] else Idle
  }

  function At(s: State, t: int, ph: Phase): State {
    s.(phases := s.phases[t := ph])
  }

  /** The choices that are not the caller's program: which call to begin, and whether dialling succeeds. */
  datatype Action = BeginGet | BeginClose | Go | DialFails

  predicate Enabled(s: State, t: int, a: Action) {
    match PhaseOf(s, t)
    case Idle => a.BeginGet? || a.BeginClose?
    case Start => a.Go? && s.writer.None?
    case WantLock => a.Go? && s.writer.None? && s.readers == {}
    case CloseStart => a.Go? && s.writer.None? && s.readers == {}
    case Dialing => a.Go? || a.DialFails?
    case _ => a.Go?
  }

  /** One step of caller t. */
  function Apply(s: State, t: int, a: Action): State
    requires Enabled(s, t, a)
  {
    match PhaseOf(s, t)
    case Idle => At(s, t, if a.BeginGet? then Start else CloseStart)
    // getConn
    case Start => At(s.(readers := s.readers + {t}), t, RLocked)
    case RLocked => At(s, t, Read(s.conn))
    case Read(c) => At(s.(readers := s.readers - {t}), t, if c.Some? then Returned(c) else WantLock)
    case WantLock => At(s.(writer := Some(t)), t, Locked)
    case Locked => At(s, t, if s.conn.Some? then Have(s.conn) else Dialing)
    case Dialing =>
      if a.DialFails? then At(s, t, Have(None))
      else At(s.(created := s.created + 1, live := s.live + {s.created}), t, Dialed(s.created))
    case Dialed(c) => At(s.(conn := Some(c)), t, Have(Some(c)))
    case Have(c) => At(s.(writer := None), t, Returned(c))
    case Returned(_) => At(s, t, Idle)
    // Close
    case CloseStart => At(s.(writer := Some(t)), t, CloseLocked)
    case CloseLocked =>
      if s.conn.Some? then At(s.(closed := s.closed + 1, live := s.live - {s.conn.value}), t, CloseMid)
      else At(s, t, CloseEnd)
    case CloseMid => At(s.(conn := None), t, CloseEnd)
    case CloseEnd => At(s.(writer := None), t, Idle)
  }

  // ---------- the invariant ----------

  predicate Writing(ph: Phase) {
    ph.Locked? || ph.Dialing? || ph.Dialed? || ph.Have? || ph.CloseLocked? || ph.CloseMid? || ph.CloseEnd?
  }

  predicate Reading(ph: Phase) {
    ph.RLocked? || ph.Read?
  }

  /** The lock is held by exactly those whose phase says so, and never by a writer and anybody else. */
  ghost predicate LocksHeld(s: State) {
    && (forall t :: Writing(PhaseOf(s, t)) <==> s.writer == Some(t))
    && (forall t :: Reading(PhaseOf(s, t)) <==> t in s.readers)
    && (s.writer.Some? ==> s.readers == {})
  }

  /** `conn` is the one live connection, or there is none. */
  ghost predicate Settled(s: State) {
    && s.live == (if s.conn.Some? then {s.conn.value} else {})
    && s.created == s.closed + (if s.conn.Some? then 1 else 0)
  }

  /** What holds inside the write lock, phase by phase. */
  ghost predicate Inside(s: State, ph: Phase) {
    match ph
    case Dialing => Settled(s) && s.conn.None?
    case Dialed(c) => s.conn.None? && s.live == {c} && s.created == s.closed + 1
    case Have(c) => Settled(s) && (c.Some? ==> s.conn == c)
    case CloseMid => s.conn.Some? && s.live == {} && s.created == s.closed
    case CloseEnd => Settled(s) && s.conn.None?
    case _ => Settled(s)
  }

  ghost predicate Inv(s: State) {
    LocksHeld(s) && match s.writer case None => Settled(s) case Some(t) => Inside(s, PhaseOf(s, t))
  }

  lemma StepKeepsLocks(s: State, t: int, a: Action)
    requires Enabled(s, t, a) && LocksHeld(s)
    ensures LocksHeld(Apply(s, t, a))
  {
    var s' := Apply(s, t, a);
    forall u ensures Writing(PhaseOf(s', u)) <==> s'.writer == Some(u) {
      assert Writing(PhaseOf(s, u)) <==> s.writer == Some(u);
      assert Writing(PhaseOf(s, t)) <==> s.writer == Some(t);
    }
    forall u ensures Reading(PhaseOf(s', u)) <==> u in s'.readers {
      assert Reading(PhaseOf(s, u)) <==> u in s.readers;
      assert Reading(PhaseOf(s, t)) <==> t in s.readers;
    }
    if s'.writer.Some? {
      assert Writing(PhaseOf(s, t)) <==> s.writer == Some(t);
    }
  }

  lemma StepKeepsInv(s: State, t: int, a: Action)
    requires Enabled(s, t, a) && Inv(s)
    ensures Inv(Apply(s, t, a))
  {
    StepKeepsLocks(s, t, a);
    assert Writing(PhaseOf(s, t)) <==> s.writer == Some(t);
    assert Reading(PhaseOf(s, t)) <==> t in s.readers;
  }

  // ---------- runs ----------

  datatype Move = Move(caller: int, action: Action)

  /** A run: states[i+1] follows from states[i] by moves[i]. */
  ghost predicate IsRun(states: seq<State>, moves: seq<Move>) {
    && |states| == |moves| + 1 && states[0] == INIT
    && forall i | 0 <= i < |moves| :: Follows(states[i], moves[i], states[i + 1])
  }

  ghost predicate Follows(s: State, m: Move, s': State) {
    Enabled(s, m.caller, m.action) && s' == Apply(s, m.caller, m.action)
  }

  lemma {:induction false} RunKeepsInv(states: seq<State>, moves: seq<Move>, n: nat)
    requires IsRun(states, moves) && n < |states|
    ensures Inv(states[n])
  {
    if n > 0 {
      RunKeepsInv(states, moves, n - 1);
      assert Follows(states[n - 1], moves[n - 1], states[n]);
      StepKeepsInv(states[n - 1], moves[n - 1].caller, moves[n - 1].action);
    }
  }

  /** Outside the write lock, created minus closed is one exactly when `conn` is set, and zero otherwise; at
      every instant it is zero or one, and it counts the live connections. */
  lemma AtMostOneConnection(states: seq<State>, moves: seq<Move>, n: nat)
    requires IsRun(states, moves) && n < |states|
    ensures var s := states[n];
            && s.created - s.closed == |s.live| && |s.live| <= 1
            && (s.writer.None? ==> s.live == (if s.conn.Some? then {s.conn.value} else {}))
  {
    RunKeepsInv(states, moves, n);
  }

  /** At some instant no later than n, and within the same call, c was live. */
  ghost predicate WasLive(states: seq<State>, n: nat, t: int, c: int)
    requires n < |states|
  {
    exists k | 0 <= k <= n :: c in states[k].live && InCall(states, k, n, t)
  }

  ghost predicate InCall(states: seq<State>, k: nat, n: nat, t: int)
    requires k <= n < |states|
  {
    forall j | k <= j <= n :: PhaseOf(states[j], t) != Idle
  }

  /** The connection a caller carries at this point. */
  function Carried(ph: Phase): Option<int> {
    match ph
    case Read(c) => c
    case Have(c) => c
    case Returned(c) => c
    case _ => None
  }

  /** Every connection a call returns was live at some instant inside that call. */
  lemma {:induction false} CarriedWasLive(states: seq<State>, moves: seq<Move>, n: nat, t: int, c: int)
    requires IsRun(states, moves) && n < |states| && Carried(PhaseOf(states[n], t)) == Some(c)
    ensures WasLive(states, n, t, c)
  {
    if n > 0 {
      var s, s', m := states[n - 1], states[n], moves[n - 1];
      assert Follows(s, m, s');
      RunKeepsInv(states, moves, n - 1);
      RunKeepsInv(states, moves, n);
      var ph := PhaseOf(s, t);
      if Carried(ph) == Some(c) && ph != Idle {
        CarriedWasLive(states, moves, n - 1, t, c);
        StillInCall(states, n, t, c);
      } else {
        FreshlyCarried(s, m, s', t, c);
        assert InCall(states, n, n, t);
      }
    }
  }

  lemma StillInCall(states: seq<State>, n: nat, t: int, c: int)
    requires 0 < n < |states| && WasLive(states, n - 1, t, c) && PhaseOf(states[n], t) != Idle
    ensures WasLive(states, n, t, c)
  {
    var k :| 0 <= k <= n - 1 && c in states[k].live && InCall(states, k, n - 1, t);
    assert InCall(states, k, n, t);
  }

  lemma FreshlyCarried(s: State, m: Move, s': State, t: int, c: int)
    requires Inv(s) && Inv(s') && Follows(s, m, s')
    requires Carried(PhaseOf(s', t)) == Some(c) && Carried(PhaseOf(s, t)) != Some(c)
    ensures c in s'.live
  {
    OnlyCallerMoves(s, m, s', t);
    assert Writing(PhaseOf(s, t)) <==> s.writer == Some(t);
    assert Reading(PhaseOf(s, t)) <==> t in s.readers;
  }

  lemma OnlyCallerMoves(s: State, m: Move, s': State, t: int)
    requires Follows(s, m, s') && PhaseOf(s', t) != PhaseOf(s, t)
    ensures m.caller == t
  {
  }

  // ---------- what a call achieves ----------

  /** When `Close` releases the lock no connection is live and none is set. */
  lemma CloseCloses(states: seq<State>, moves: seq<Move>, n: nat, t: int)
    requires IsRun(states, moves) && n < |moves|
    requires PhaseOf(states[n], t).CloseEnd? && PhaseOf(states[n + 1], t) == Idle
    ensures states[n + 1].live == {} && states[n + 1].conn == None && states[n + 1].created == states[n + 1].closed
  {
    RunKeepsInv(states, moves, n);
    assert Follows(states[n], moves[n], states[n + 1]);
    OnlyCallerMoves(states[n], moves[n], states[n + 1], t);
    assert Writing(PhaseOf(states[n], t)) <==> states[n].writer == Some(t);
  }

  predicate Closing(ph: Phase) {
    ph.CloseStart? || ph.CloseLocked? || ph.CloseMid? || ph.CloseEnd?
  }

  ghost predicate ClosedBetween(states: seq<State>, i: nat, n: nat)
    requires n < |states|
  {
    exists k | i <= k <= n :: states[k].live == {} && states[k].conn == None
  }

  lemma ClosingStep(s: State, m: Move, s': State, t: int)
    requires Follows(s, m, s') && Closing(PhaseOf(s, t)) && !PhaseOf(s, t).CloseEnd?
    ensures Closing(PhaseOf(s', t))
  {
    if m.caller != t {
      assert PhaseOf(s', t) == PhaseOf(s, t);
    }
  }

  lemma {:induction false} ClosingCloses(states: seq<State>, moves: seq<Move>, i: nat, n: nat, t: int)
    requires IsRun(states, moves) && i <= n < |states| && PhaseOf(states[i], t).CloseStart?
    ensures Closing(PhaseOf(states[n], t)) || ClosedBetween(states, i, n)
  {
    if i < n {
      ClosingCloses(states, moves, i, n - 1, t);
      hide Apply, Closing;
      assert Follows(states[n - 1], moves[n - 1], states[n]);
      if PhaseOf(states[n - 1], t).CloseEnd? {
        EndIsClosed(states, moves, n - 1, t);
      } else if ClosedBetween(states, i, n - 1) {
        var k :| i <= k <= n - 1 && states[k].live == {} && states[k].conn == None;
      } else {
        ClosingStep(states[n - 1], moves[n - 1], states[n], t);
      }
    }
  }

  lemma EndIsClosed(states: seq<State>, moves: seq<Move>, n: nat, t: int)
    requires IsRun(states, moves) && n < |states| && PhaseOf(states[n], t).CloseEnd?
    ensures states[n].live == {} && states[n].conn == None
  {
    RunKeepsInv(states, moves, n);
    assert Writing(PhaseOf(states[n], t)) <==> states[n].writer == Some(t);
  }

  /** Inside every `Close` that is done there was an instant without a connection. */
  lemma ClosesAreDone(states: seq<State>, moves: seq<Move>, i: nat, n: nat, t: int)
    requires IsRun(states, moves) && i <= n < |states|
    requires PhaseOf(states[i], t).CloseStart? && PhaseOf(states[n], t) == Idle
    ensures ClosedBetween(states, i, n)
  {
    ClosingCloses(states, moves, i, n, t);
  }

  ghost predicate FailedSince(states: seq<State>, moves: seq<Move>, n: nat, t: int, k: nat)
    requires IsRun(states, moves) && n < |states|
  {
    k < n && moves[k] == Move(t, DialFails) && forall j | k < j <= n :: PhaseOf(states[j], t) != Idle
  }

  /** `getConn` comes back without a connection only if its own dialling failed. */
  lemma {:induction false} EmptyMeansFailed(states: seq<State>, moves: seq<Move>, n: nat, t: int) returns (k: nat)
    requires IsRun(states, moves) && n < |states|
    requires PhaseOf(states[n], t) == Have(None) || PhaseOf(states[n], t) == Returned(None)
    ensures FailedSince(states, moves, n, t, k)
  {
    assert n > 0;
    assert Follows(states[n - 1], moves[n - 1], states[n]);
    if moves[n - 1] == Move(t, DialFails) {
      k := n - 1;
    } else {
      k := EmptyMeansFailed(states, moves, n - 1, t);
    }
  }
}
