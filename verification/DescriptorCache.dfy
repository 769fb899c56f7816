/** The protoset cache: concurrent look-ups that load, parse on a miss, and settle with `LoadOrStore`. */
module DescriptorCache {
  datatype Phase =
    | Idle
    | Missed(file: string)
    | Parsed(file: string, source: int)
    | Got(file: string, source: int)
    | Failed(file: string)

  /** Each successful parse yields a source object of its own, numbered by `parses`. */
  datatype State = State(cache: map<string, int>, parses: nat, phases: map<int, Phase>)

  const INIT := State(map[], 0, map[])

  function PhaseOf(s: State, t: int): Phase {
    if t in s.phases then s.phases[t] else Idle
  }

  function At(s: State, t: int, ph: Phase): State {
    s.(phases := s.phases[t := ph])
  }

  datatype Action = Load(file: string) | Parse | ParseFails | LoadOrStore | Return

  predicate Enabled(s: State, t: int, a: Action) {
    match PhaseOf(s, t)
    case Idle => a.Load?
    case Missed(_) => a.Parse? || a.ParseFails?
    case Parsed(_, _) => a.LoadOrStore?
    case Got(_, _) => a.Return?
    case Failed(_) => a.Return?
  }

  function Apply(s: State, t: int, a: Action): State
    requires Enabled(s, t, a)
  {
    match PhaseOf(s, t)
    case Idle => At(s, t, if a.file in s.cache then Got(a.file, s.cache[a.file]) else Missed(a.file))
    case Missed(f) =>
      if a.ParseFails? then At(s, t, Failed(f)) else At(s.(parses := s.parses + 1), t, Parsed(f, s.parses))
    case Parsed(f, src) =>
      if f in s.cache then At(s, t, Got(f, s.cache[f])) else At(s.(cache := s.cache[f := src]), t, Got(f, src))
    case Got(_, _) => At(s, t, Idle)
    case Failed(_) => At(s, t, Idle)
  }

  datatype Move = Move(caller: int, action: Action)

  ghost predicate Follows(s: State, m: Move, s': State) {
    Enabled(s, m.caller, m.action) && s' == Apply(s, m.caller, m.action)
  }

  ghost predicate IsRun(states: seq<State>, moves: seq<Move>) {
    && |states| == |moves| + 1 && states[0] == INIT
    && forall i | 0 <= i < |moves| :: Follows(states[i], moves[i], states[i + 1])
  }

  /** A source that was returned is the one the cache holds. */
  ghost predicate Inv(s: State) {
    forall t | PhaseOf(s, t).Got? ::
      PhaseOf(s, t).file in s.cache && s.cache[PhaseOf(s, t).file] == PhaseOf(s, t).source
  }

  lemma {:induction false} RunKeepsInv(states: seq<State>, moves: seq<Move>, n: nat)
    requires IsRun(states, moves) && n < |states|
    ensures Inv(states[n])
  {
    if n > 0 {
      RunKeepsInv(states, moves, n - 1);
      var s, s', m := states[n - 1], states[n], moves[n - 1];
      assert Follows(s, m, s');
      forall t | PhaseOf(s', t).Got?
        ensures PhaseOf(s', t).file in s'.cache && s'.cache[PhaseOf(s', t).file] == PhaseOf(s', t).source
      {
        if t != m.caller {
          assert PhaseOf(s, t) == PhaseOf(s', t);
        }
      }
    }
  }

  /** An entry, once stored, stays. */
  lemma {:induction false} EntriesStay(states: seq<State>, moves: seq<Move>, i: nat, j: nat, f: string)
    requires IsRun(states, moves) && i <= j < |states| && f in states[i].cache
    ensures f in states[j].cache && states[j].cache[f] == states[i].cache[f]
  {
    if i < j {
      EntriesStay(states, moves, i, j - 1, f);
      assert Follows(states[j - 1], moves[j - 1], states[j]);
    }
  }

  /** All successful look-ups of one file, by any callers at any times, return the same source. */
  lemma OneSourcePerFile(states: seq<State>, moves: seq<Move>, i: nat, j: nat, t: int, u: int, f: string, a: int,
                         b: int)
    requires IsRun(states, moves) && i < |states| && j < |states|
    requires PhaseOf(states[i], t) == Got(f, a) && PhaseOf(states[j], u) == Got(f, b)
    ensures a == b
  {
    RunKeepsInv(states, moves, i);
    RunKeepsInv(states, moves, j);
    if i <= j {
      EntriesStay(states, moves, i, j, f);
    } else {
      EntriesStay(states, moves, j, i, f);
    }
  }

  // ---------- where sources come from ----------

  /** The k-th move parses the file and yields the source. */
  ghost predicate ParsedAt(states: seq<State>, moves: seq<Move>, k: nat, f: string, src: int)
    requires IsRun(states, moves)
  {
    && k < |moves| && moves[k].action.Parse? && PhaseOf(states[k], moves[k].caller) == Missed(f)
    && PhaseOf(states[k + 1], moves[k].caller) == Parsed(f, src) && states[k].parses == src < states[k + 1].parses
  }

  ghost predicate WasParsed(states: seq<State>, moves: seq<Move>, n: nat, f: string, src: int)
    requires IsRun(states, moves)
  {
    exists k: nat :: k < n && ParsedAt(states, moves, k, f, src)
  }

  /** Whatever source is in the cache or in a caller's hands was parsed from its own file at an earlier instant. */
  lemma {:induction false} SourcesWereParsed(states: seq<State>, moves: seq<Move>, n: nat)
    requires IsRun(states, moves) && n < |states|
    ensures forall f | f in states[n].cache :: WasParsed(states, moves, n, f, states[n].cache[f])
    ensures forall t | PhaseOf(states[n], t).Parsed? || PhaseOf(states[n], t).Got? ::
              WasParsed(states, moves, n, PhaseOf(states[n], t).file, PhaseOf(states[n], t).source)
  {
    if n > 0 {
      SourcesWereParsed(states, moves, n - 1);
      var s, s', m := states[n - 1], states[n], moves[n - 1];
      assert Follows(s, m, s');
      forall f, src | WasParsed(states, moves, n - 1, f, src) ensures WasParsed(states, moves, n, f, src) {
        var k: nat :| k < n - 1 && ParsedAt(states, moves, k, f, src);
      }
      if PhaseOf(s', m.caller).Parsed? {
        assert ParsedAt(states, moves, n - 1, PhaseOf(s', m.caller).file, PhaseOf(s', m.caller).source);
      }
      forall t | PhaseOf(s', t).Parsed? || PhaseOf(s', t).Got?
        ensures WasParsed(states, moves, n, PhaseOf(s', t).file, PhaseOf(s', t).source)
      {
        if t != m.caller {
          assert PhaseOf(s', t) == PhaseOf(s, t);
        }
      }
    }
  }

  lemma {:induction false} ParsesGrow(states: seq<State>, moves: seq<Move>, i: nat, j: nat)
    requires IsRun(states, moves) && i <= j < |states|
    ensures states[i].parses <= states[j].parses
  {
    if i < j {
      ParsesGrow(states, moves, i, j - 1);
      assert Follows(states[j - 1], moves[j - 1], states[j]);
    }
  }

  /** Sources parsed from different files are different. */
  lemma ParsedApart(states: seq<State>, moves: seq<Move>, k: nat, l: nat, f: string, g: string, src: int)
    requires IsRun(states, moves) && ParsedAt(states, moves, k, f, src) && ParsedAt(states, moves, l, g, src)
    ensures f == g
  {
    if k < l {
      ParsesGrow(states, moves, k + 1, l);
    } else if l < k {
      ParsesGrow(states, moves, l + 1, k);
    }
  }

  /** A look-up returns a source that was parsed from its own file before, and no other file's source. */
  lemma LookupsGetTheirOwn(states: seq<State>, moves: seq<Move>, i: nat, j: nat, t: int, u: int, f: string, g: string,
                           a: int, b: int)
    requires IsRun(states, moves) && i < |states| && j < |states|
    requires PhaseOf(states[i], t) == Got(f, a) && PhaseOf(states[j], u) == Got(g, b)
    ensures WasParsed(states, moves, i, f, a)
    ensures a == b <==> f == g
  {
    SourcesWereParsed(states, moves, i);
    SourcesWereParsed(states, moves, j);
    if f == g {
      OneSourcePerFile(states, moves, i, j, t, u, f, a, b);
    } else if a == b {
      var k: nat :| k < i && ParsedAt(states, moves, k, f, a);
      var l: nat :| l < j && ParsedAt(states, moves, l, g, b);
      ParsedApart(states, moves, k, l, f, g, a);
    }
  }
}
