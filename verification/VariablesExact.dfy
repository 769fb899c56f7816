/** Which stores of variables are safe: exactly when replacing one variable after another is one simultaneous
    substitution on every text, and exactly when doing it again changes nothing. */
module VariablesExact {
  import opened Placeholders
  import opened Variables
  import opened Rereading

  // ---------- what is asked of a store ----------

  /** On every text without stray braces, sequential replacement is simultaneous substitution. */
  ghost predicate Simultaneous(env: map<string, string>) {
    forall s | NoStrayBraces(s) :: Performed(s, env) == Text(Subst(Scan(s), env))
  }

  ghost predicate Idempotent(env: map<string, string>) {
    forall s | NoStrayBraces(s) :: Performed(Performed(s, env), env) == Performed(s, env)
  }

  /** No stray braces inside, and no plain brace at either end that a neighbour could complete. */
  ghost predicate SelfContained(v: string) {
    NoStrayBraces(v) && !Opens(Scan(v)) && !EndsOpen(Scan(v))
  }

  ghost predicate AllSelfContained(env: map<string, string>) {
    forall n | n in env && IsName(n) :: SelfContained(env[n])
  }

  ghost predicate NoneEmpty(env: map<string, string>) {
    forall n | n in env && IsName(n) :: env[n] != ""
  }

  ghost predicate Settled(env: map<string, string>) {
    forall n | n in env && IsName(n) :: SettledIn(Scan(env[n]), env)
  }

  ghost predicate Part(some: map<string, string>, env: map<string, string>) {
    forall n | n in some :: n in env && some[n] == env[n]
  }

  // ---------- values as tokens ----------

  /** Substitution that reads the values as tokens, as the next pass will. */
  ghost function Expand(toks: seq<Tok>, env: map<string, string>): seq<Tok> {
    if toks == [] then [] else ExpandOne(toks[0], env) + Expand(toks[1..], env)
  }

  ghost function ExpandOne(t: Tok, env: map<string, string>): seq<Tok> {
    if t.Ph? && t.name in env then Scan(env[t.name]) else [t]
  }

  lemma {:induction false} ExpandText(toks: seq<Tok>, env: map<string, string>)
    ensures Text(Expand(toks, env)) == Text(Subst(toks, env))
  {
    if toks != [] {
      ExpandText(toks[1..], env);
      var head, t := ExpandOne(toks[0], env), toks[0];
      TextConcat(head, Expand(toks[1..], env));
      TextOfSubst(t, toks[1..], env);
      assert [t] + toks[1..] == toks;
      if t.Ph? && t.name in env {
        TextOfScan(env[t.name]);
        TextChars(env[t.name]);
      } else {
        assert [t][1..] == [];
        assert Text([t]) == Raw(t);
      }
    }
  }

  lemma ValueIsGood(v: string)
    requires SelfContained(v) && v != ""
    ensures Good(Scan(v)) && Scan(v) != []
  {
    ScanIsReal(v);
    hide MatchAny;
    assert Text(Scan(v)) == v by { TextOfScan(v); }
  }

  lemma {:induction false} ExpandGood(toks: seq<Tok>, env: map<string, string>)
    requires Good(toks) && AllSelfContained(env) && NoneEmpty(env)
    ensures Good(Expand(toks, env)) && (Opens(Expand(toks, env)) ==> Opens(toks))
  {
    hide RealPlaceholder, Scan;
    if toks != [] {
      var rest, head := toks[1..], ExpandOne(toks[0], env);
      assert Good(rest);
      ExpandGood(rest, env);
      if toks[0].Ph? && toks[0].name in env {
        assert RealPlaceholder(toks[0].raw, toks[0].name);
        RealIsNamed(toks[0]);
        ValueIsGood(env[toks[0].name]);
      } else {
        assert head == [toks[0]];
        assert Good(head);
        assert !(Opens(toks) && Opens(rest));
      }
      GoodConcat(head, Expand(rest, env));
    }
  }

  /** Substituted text reads as the expanded tokens. */
  lemma ScanOfSubst(toks: seq<Tok>, env: map<string, string>)
    requires Good(toks) && AllSelfContained(env) && NoneEmpty(env)
    ensures Scan(Text(Subst(toks, env))) == Expand(toks, env) && Good(Expand(toks, env))
  {
    hide Good, Scan, AllSelfContained, NoneEmpty;
    ExpandGood(toks, env);
    ExpandText(toks, env);
    ScanOfText(Expand(toks, env));
  }

  lemma ScanIsGood(s: string)
    requires NoStrayBraces(s)
    ensures Good(Scan(s))
  {
    ScanIsReal(s);
  }

  // ---------- settled stores are safe ----------

  lemma SubstOfExpandOne(t: Tok, some: map<string, string>, more: map<string, string>, env: map<string, string>)
    requires Reals([t]) && Settled(env) && Part(some, env) && Part(more, env)
    ensures Text(Subst(ExpandOne(t, some), more)) == Text(Subst([t], more + some))
  {
    hide Scan, Subst, Text, RealPlaceholder;
    TextOfSubst(t, [], more);
    TextOfSubst(t, [], more + some);
    NoText(more);
    NoText(more + some);
    assert [t] + [] == [t];
    if t.Ph? && t.name in some {
      var v := some[t.name];
      assert RealPlaceholder([t][0].raw, t.name);
      RealIsNamed(t);
      assert SettledIn(Scan(v), more);
      SettledText(Scan(v), more);
      TextOfScan(v);
      TextChars(v);
    }
  }

  /** In a settled store a pass over expanded tokens reaches only the placeholders that were there before. */
  lemma {:induction false} SubstOfExpand(toks: seq<Tok>, some: map<string, string>, more: map<string, string>,
                                         env: map<string, string>)
    requires Reals(toks) && Settled(env) && Part(some, env) && Part(more, env)
    ensures Text(Subst(Expand(toks, some), more)) == Text(Subst(toks, more + some))
  {
    hide RealPlaceholder, Scan, Settled, Part, ExpandOne;
    if toks != [] {
      var t, rest := toks[0], toks[1..];
      SubstOfExpand(rest, some, more, env);
      SubstOfExpandOne(t, some, more, env);
      SubstConcat(ExpandOne(t, some), Expand(rest, some), more);
      TextConcat(Subst(ExpandOne(t, some), more), Subst(Expand(rest, some), more));
      SubstConcat([t], rest, more + some);
      TextConcat(Subst([t], more + some), Subst(rest, more + some));
      assert [t] + rest == toks;
    }
  }

  ghost predicate Safe(env: map<string, string>) {
    AllSelfContained(env) && NoneEmpty(env) && Settled(env)
  }

  lemma PartIsSafe(some: map<string, string>, env: map<string, string>)
    requires AllSelfContained(env) && NoneEmpty(env) && Part(some, env)
    ensures AllSelfContained(some) && NoneEmpty(some)
  {
  }

  lemma OneSettledPass(toks: seq<Tok>, some: map<string, string>, n: string, env: map<string, string>)
    requires Good(toks) && Safe(env) && Part(some, env) && n in env && IsName(n)
    ensures ReplaceOne(Text(Subst(toks, some)), n, env[n]) == Text(Subst(toks, map[n := env[n]] + some))
  {
    hide Scan, ReplaceOne, AllSelfContained, NoneEmpty, Settled;
    PartIsSafe(some, env);
    ScanOfSubst(toks, some);
    ReplaceIsSubst(Text(Subst(toks, some)), n, env[n]);
    SubstOfExpand(toks, some, map[n := env[n]], env);
  }

  lemma {:induction false} SequentialInSafe(s: string, names: seq<string>, env: map<string, string>)
    requires NoStrayBraces(s) && Safe(env) && AllNames(names)
    ensures Sequential(s, names, env) == Text(Subst(Scan(s), Restrict(env, names)))
  {
    hide ReplaceOne, Safe, NoStrayBraces, Restrict;
    var toks := Scan(s);
    if names == [] {
      TextOfScan(s);
      RestrictNone(env);
      NothingToSubst(toks, Restrict(env, names));
    } else {
      var k := |names| - 1;
      SequentialInSafe(s, names[..k], env);
      RestrictSnoc(env, names, k);
      if names[k] in env {
        RestrictPart(env, names[..k]);
        ScanIsGood(s);
        OneSettledPass(toks, Restrict(env, names[..k]), names[k], env);
      }
    }
  }

  lemma PerformInSafe(s: string, env: map<string, string>)
    requires NoStrayBraces(s) && Safe(env)
    ensures Performed(s, env) == Text(Subst(Scan(s), env))
  {
    ScanIsReal(s);
    UsedCovers(Scan(s));
    UsedAreNames(Scan(s));
    SequentialInSafe(s, Used(Scan(s)), env);
    SubstAgrees(Scan(s), env, Used(Scan(s)));
  }

  lemma PerformTwiceInSafe(s: string, env: map<string, string>)
    requires NoStrayBraces(s) && Safe(env)
    ensures Performed(Performed(s, env), env) == Performed(s, env)
  {
    hide Performed, NoStrayBraces, Scan, AllSelfContained, NoneEmpty, Settled;
    ScanIsGood(s);
    PerformInSafe(s, env);
    ScanOfSubst(Scan(s), env);
    StaysStrayFree(Performed(s, env), Expand(Scan(s), env));
    PerformInSafe(Performed(s, env), env);
    SubstOfExpand(Scan(s), env, env, env);
    assert env + env == env;
  }

  // ---------- other stores are not ----------

  lemma EmptyIsReread(n: string, env: map<string, string>)
    requires IsName(n) && n in env && env[n] == ""
    ensures !Idempotent(env)
  {
    hide Performed, Split;
    var s := Text(Split(n));
    BrokenOnce(n, env);
    PlainAlone(n, env);
    assert Performed(Performed(s, env), env) != Performed(s, env);
  }

  lemma EmptyIsNotSimultaneous(n: string, env: map<string, string>)
    requires IsName(n) && n in env && env[n] == ""
    ensures !Simultaneous(env)
  {
    hide Performed, Split, Subst, Scan;
    var s := Text(Split(n) + [Ph(Plain(n), n)]);
    BrokenTwice(n, env);
    assert Performed(s, env) != Text(Subst(Scan(s), env));
  }

  lemma ScanTwice(u: string)
    requires SelfContained(u) && u != ""
    ensures Scan(u + u) == Scan(u) + Scan(u) && Reals(Scan(u))
  {
    hide Scan;
    ValueIsGood(u);
    TextOfScan(u);
    GoodConcat(Scan(u), Scan(u));
    TextConcat(Scan(u), Scan(u));
    ScanOfText(Scan(u) + Scan(u));
  }

  /** The same for one name: used twice, it reads its own first replacement. */
  lemma SelfReread(a: string, env: map<string, string>)
    requires IsName(a) && a in env && SelfContained(env[a]) && env[a] != "" && Simultaneous(env)
    ensures SettledIn(Scan(env[a]), map[a := env[a]])
  {
    hide Scan, Subst, Text, ReplaceOne, Performed, Shape, SettledIn, NoStrayBraces, Reals, SelfContained;
    var s, t, u := Plain(a) + Plain(a), Ph(Plain(a), a), env[a];
    TwoPlains(a, a);
    NoStrayInTwo(s, t, t);
    PerformedTwo(s, a, a, env);
    FirstPass(a, a, u);
    TwoTexts(t, t, env);
    ReplaceIsSubst(u + u, a, u);
    TextOfScan(u + u);
    ScanTwice(u);
    RealsTwice(Scan(u));
    UnchangedIffSettled(Scan(u + u), a, u);
    SettledConcat(Scan(u), Scan(u), map[a := u]);
  }

  lemma RealsTwice(toks: seq<Tok>)
    requires Reals(toks)
    ensures Reals(toks + toks)
  {
  }

  lemma SimultaneousIsSettled(env: map<string, string>)
    requires AllSelfContained(env) && NoneEmpty(env) && Simultaneous(env)
    ensures Settled(env)
  {
    hide Scan, Simultaneous, RealPlaceholder, SelfContained;
    forall a | a in env && IsName(a) ensures SettledIn(Scan(env[a]), env) {
      var toks := Scan(env[a]);
      ScanIsReal(env[a]);
      forall i | 0 <= i < |toks| && toks[i].Ph? && toks[i].name in env ensures toks[i].raw == env[toks[i].name] {
        var b := toks[i].name;
        RealIsNamed(toks[i]);
        if a == b {
          SelfReread(a, env);
        } else {
          OtherReread(a, b, env);
        }
        assert SettledIn(toks, map[b := env[b]]);
      }
    }
  }

  lemma OtherReread(a: string, b: string, env: map<string, string>)
    requires IsName(a) && IsName(b) && a != b && a in env && b in env && Simultaneous(env)
    ensures SettledIn(Scan(env[a]), map[b := env[b]])
  {
    hide Scan, Subst, Text, Performed, Plain, SettledIn, NoStrayBraces;
    RereadIff(a, b, env);
  }

  // ---------- performing again ----------

  /** The passes as they act on tokens. */
  ghost function Passes(toks: seq<Tok>, names: seq<string>, env: map<string, string>): seq<Tok> {
    if names == [] then toks
    else
      var before, n := Passes(toks, names[..|names| - 1], env), names[|names| - 1];
      if n in env then Expand(before, map[n := env[n]]) else before
  }

  lemma {:induction false} ScanOfSequential(s: string, names: seq<string>, env: map<string, string>)
    requires NoStrayBraces(s) && AllSelfContained(env) && NoneEmpty(env) && AllNames(names)
    ensures Scan(Sequential(s, names, env)) == Passes(Scan(s), names, env)
    ensures Good(Passes(Scan(s), names, env))
  {
    hide Scan, ReplaceOne, Good, NoStrayBraces, AllSelfContained, NoneEmpty;
    if names == [] {
      ScanIsGood(s);
    } else {
      var k := |names| - 1;
      ScanOfSequential(s, names[..k], env);
      var before, n := Sequential(s, names[..k], env), names[k];
      if n in env {
        ReplaceIsSubst(before, n, env[n]);
        PartIsSafe(map[n := env[n]], env);
        ScanOfSubst(Scan(before), map[n := env[n]]);
      }
    }
  }

  lemma {:induction false} ExpandGrows(toks: seq<Tok>, n: string, v: string)
    requires Scan(v) != []
    ensures |Expand(toks, map[n := v])| >= |toks| + if Occurs(toks, n) then |Scan(v)| - 1 else 0
  {
    hide Scan;
    if toks != [] {
      ExpandGrows(toks[1..], n, v);
      if Occurs(toks, n) && !(toks[0].Ph? && toks[0].name == n) {
        assert Occurs(toks[1..], n);
      }
    }
  }

  /** Where the placeholders of a name come from in a pass over one name. */
  lemma {:induction false} ExpandOccurs(toks: seq<Tok>, n: string, v: string, m: string)
    ensures Occurs(Expand(toks, map[n := v]), m) <==>
            (m != n && Occurs(toks, m)) || (Occurs(toks, n) && Occurs(Scan(v), m))
  {
    hide Scan;
    if toks != [] {
      var head, rest := ExpandOne(toks[0], map[n := v]), toks[1..];
      ExpandOccurs(rest, n, v, m);
      OccursConcat(head, Expand(rest, map[n := v]), m);
      OccursConcat([toks[0]], rest, m);
      OccursConcat([toks[0]], rest, n);
      assert [toks[0]] + rest == toks;
      OccursOne(toks[0], m);
      OccursOne(toks[0], n);
    }
  }

  lemma OccursOne(t: Tok, m: string)
    ensures Occurs([t], m) <==> t.Ph? && t.name == m
  {
    assert [t][0] == t;
  }

  lemma OccursConcat(x: seq<Tok>, y: seq<Tok>, m: string)
    ensures Occurs(x + y, m) <==> Occurs(x, m) || Occurs(y, m)
  {
    var all := x + y;
    if Occurs(x, m) {
      var i :| 0 <= i < |x| && x[i].Ph? && x[i].name == m;
      assert all[i] == x[i];
    }
    if Occurs(y, m) {
      var i :| 0 <= i < |y| && y[i].Ph? && y[i].name == m;
      assert all[|x| + i] == y[i];
    }
    if Occurs(all, m) {
      var i :| 0 <= i < |all| && all[i].Ph? && all[i].name == m;
      assert if i < |x| then all[i] == x[i] else all[i] == y[i - |x|];
    }
  }

  ghost predicate NoneBlank(names: seq<string>, env: map<string, string>) {
    forall i | 0 <= i < |names| && names[i] in env :: Scan(env[names[i]]) != []
  }

  lemma {:induction false} PassesKeep(toks: seq<Tok>, names: seq<string>, env: map<string, string>, m: string)
    requires Occurs(toks, m) && m !in names
    ensures Occurs(Passes(toks, names, env), m)
  {
    hide Scan, Expand, Occurs;
    if names != [] {
      var k := |names| - 1;
      PassesKeep(toks, names[..k], env, m);
      if names[k] in env {
        ExpandOccurs(Passes(toks, names[..k], env), names[k], env[names[k]], m);
      }
    }
  }

  /** Passes never lose tokens, and one over a name that occurs adds all but one of its value's. */
  lemma {:induction false} PassesGrow(toks: seq<Tok>, names: seq<string>, env: map<string, string>, m: string)
    requires NoneBlank(names, env) && m in env && Occurs(toks, m)
    ensures |Passes(toks, names, env)| >= |toks| + if m in names then |Scan(env[m])| - 1 else 0
  {
    hide Scan, Expand, Occurs;
    if names != [] {
      var k := |names| - 1;
      assert NoneBlank(names[..k], env);
      PassesGrow(toks, names[..k], env, m);
      assert names == names[..k] + [names[k]];
      if names[k] in env {
        ExpandGrows(Passes(toks, names[..k], env), names[k], env[names[k]]);
        if m !in names[..k] {
          PassesKeep(toks, names[..k], env, m);
        }
      }
    }
  }

  /** The value of a name is its own placeholder and nothing else. */
  ghost predicate Self(env: map<string, string>, m: string)
    requires m in env
  {
    Scan(env[m]) == [Ph(env[m], m)]
  }

  lemma UsedInScan(s: string)
    ensures AllNames(Used(Scan(s)))
  {
    ScanIsReal(s);
    UsedAreNames(Scan(s));
  }

  lemma FixedUnderPasses(w: string, env: map<string, string>)
    requires AllSelfContained(env) && NoneEmpty(env) && NoStrayBraces(w) && Performed(w, env) == w
    ensures var names := Used(Scan(w));
            && Passes(Scan(w), names, env) == Scan(w) && AllNames(names) && NoneBlank(names, env)
            && (forall i | 0 <= i < |Scan(w)| && Scan(w)[i].Ph? :: Scan(w)[i].name in names)
  {
    hide Scan, Passes, NoStrayBraces;
    UsedCovers(Scan(w));
    UsedInScan(w);
    var names := Used(Scan(w));
    ScanOfSequential(w, names, env);
    forall i | 0 <= i < |names| && names[i] in env ensures Scan(env[names[i]]) != [] {
      ValueIsGood(env[names[i]]);
    }
  }

  lemma IdempotentFixesValues(env: map<string, string>, m: string)
    requires AllSelfContained(env) && Idempotent(env) && m in env && IsName(m)
    ensures NoStrayBraces(env[m]) && Performed(env[m], env) == env[m]
  {
    hide Performed;
    PlainAlone(m, env);
    assert SelfContained(env[m]);
  }

  /** If performing again changes nothing, a value that holds its own name is that placeholder. */
  lemma HoldsItself(env: map<string, string>, m: string)
    requires AllSelfContained(env) && NoneEmpty(env) && Idempotent(env) && m in env && IsName(m)
    requires Occurs(Scan(env[m]), m)
    ensures Self(env, m)
  {
    hide Scan, Passes, AllSelfContained, NoneEmpty, Idempotent, NoneBlank, NoStrayBraces, Performed, Used;
    var w := env[m];
    IdempotentFixesValues(env, m);
    FixedUnderPasses(w, env);
    PassesGrow(Scan(w), Used(Scan(w)), env, m);
    var i :| 0 <= i < |Scan(w)| && Scan(w)[i].Ph? && Scan(w)[i].name == m;
    assert |Scan(w)| <= 1;
    assert Scan(w) == [Scan(w)[0]];
    TextOfScan(w);
    OneText(Scan(w)[0]);
  }

  lemma OneText(t: Tok)
    ensures Text([t]) == Raw(t)
  {
    assert [t][1..] == [];
  }

  /** A name that is gone stays gone while only names that stand for themselves are replaced. */
  lemma {:induction false} StaysGone(toks: seq<Tok>, names: seq<string>, env: map<string, string>, m: string, k: nat)
    requires k <= |names| && !Occurs(Passes(toks, names[..k], env), m)
    requires forall i | k <= i < |names| && names[i] in env :: Self(env, names[i]) && names[i] != m
    ensures !Occurs(Passes(toks, names, env), m)
    decreases |names|
  {
    hide Scan, Expand, Occurs;
    if k == |names| {
      assert names[..k] == names;
    } else {
      var last := |names| - 1;
      var init := names[..last];
      assert init[..k] == names[..k];
      StaysGone(toks, init, env, m, k);
      if names[last] in env {
        ExpandOccurs(Passes(toks, init, env), names[last], env[names[last]], m);
        OccursOne(Ph(env[names[last]], names[last]), m);
      }
    }
  }

  /** If every name replaced still occurs afterwards, every one of them stands for itself. */
  lemma {:induction false} AllSelf(toks: seq<Tok>, names: seq<string>, env: map<string, string>, k: nat)
    requires k <= |names|
    requires forall i | 0 <= i < |names| && names[i] in env :: Occurs(Passes(toks, names, env), names[i])
    requires forall i | 0 <= i < |names| && names[i] in env && Occurs(Scan(env[names[i]]), names[i]) ::
               Self(env, names[i])
    ensures forall i | k <= i < |names| && names[i] in env :: Self(env, names[i])
    decreases |names| - k
  {
    hide Scan, Expand, Occurs, Passes;
    if k < |names| {
      AllSelf(toks, names, env, k + 1);
      var m := names[k];
      if m in env && !Self(env, m) {
        PassOver(toks, names[..k + 1], env);
        StaysGone(toks, names, env, m, k + 1);
      }
    }
  }

  lemma PassOver(toks: seq<Tok>, names: seq<string>, env: map<string, string>)
    requires names != [] && names[|names| - 1] in env
    ensures var m := names[|names| - 1]; Occurs(Passes(toks, names, env), m) ==> Occurs(Scan(env[m]), m)
  {
    hide Scan, Expand, Occurs;
    var k := |names| - 1;
    ExpandOccurs(Passes(toks, names[..k], env), names[k], env[names[k]], names[k]);
  }

  /** Afterwards the placeholders of names that stand for themselves read as their values. */
  lemma {:induction false} PassesSettle(toks: seq<Tok>, names: seq<string>, env: map<string, string>)
    requires forall i | 0 <= i < |names| && names[i] in env :: Self(env, names[i])
    ensures SettledIn(Passes(toks, names, env), Restrict(env, names))
  {
    hide Scan, Expand, SettledIn;
    if names == [] {
      SettledNowhere(toks, Restrict(env, names));
    } else {
      var k := |names| - 1;
      PassesSettle(toks, names[..k], env);
      RestrictSnoc(env, names, k);
      if names[k] in env {
        ExpandSettles(Passes(toks, names[..k], env), Restrict(env, names[..k]), names[k], env[names[k]]);
      }
    }
  }

  lemma SettledNowhere(toks: seq<Tok>, env: map<string, string>)
    requires env == map[]
    ensures SettledIn(toks, env)
  {
  }

  lemma {:induction false} ExpandSettles(toks: seq<Tok>, env: map<string, string>, n: string, v: string)
    requires SettledIn(toks, env) && Scan(v) == [Ph(v, n)] && (n in env ==> env[n] == v)
    ensures SettledIn(Expand(toks, map[n := v]), map[n := v] + env)
  {
    hide Scan;
    if toks != [] {
      var head, rest := ExpandOne(toks[0], map[n := v]), Expand(toks[1..], map[n := v]);
      ExpandSettles(toks[1..], env, n, v);
      assert |head| == 1;
    }
  }

  lemma IdempotentIsSettled(env: map<string, string>)
    requires AllSelfContained(env) && NoneEmpty(env) && Idempotent(env)
    ensures Settled(env)
  {
    hide Scan, AllSelfContained, NoneEmpty, Idempotent, Passes, Used, Self, NoneBlank, NoStrayBraces, Performed;
    hide SettledIn;
    forall a | a in env && IsName(a) ensures SettledIn(Scan(env[a]), env) {
      var toks := Scan(env[a]);
      var names := Used(toks);
      IdempotentFixesValues(env, a);
      FixedUnderPasses(env[a], env);
      forall i | 0 <= i < |names| && names[i] in env
        ensures Occurs(toks, names[i]) && (Occurs(Scan(env[names[i]]), names[i]) ==> Self(env, names[i]))
      {
        UsedOccurs(toks, names[i]);
        if Occurs(Scan(env[names[i]]), names[i]) {
          HoldsItself(env, names[i]);
        }
      }
      AllSelf(toks, names, env, 0);
      PassesSettle(toks, names, env);
      SettledWhereUsed(toks, names, env);
    }
  }

  lemma SettledWhereUsed(toks: seq<Tok>, names: seq<string>, env: map<string, string>)
    requires SettledIn(toks, Restrict(env, names))
    requires forall i | 0 <= i < |toks| && toks[i].Ph? :: toks[i].name in names
    ensures SettledIn(toks, env)
  {
  }

  lemma {:induction false} UsedOccurs(toks: seq<Tok>, n: string)
    requires n in Used(toks)
    ensures Occurs(toks, n)
  {
    OccursConcat([toks[0]], toks[1..], n);
    OccursOne(toks[0], n);
    assert [toks[0]] + toks[1..] == toks;
    if !(toks[0].Ph? && toks[0].name == n) {
      UsedOccurs(toks[1..], n);
    }
  }

  // ---------- the exact condition ----------

  /** In a store of self-contained values, replacing one variable after another is one simultaneous substitution on
      every text exactly when no value is empty and every placeholder of a known name inside a value reads as that
      name's value; and doing it again changes nothing in exactly the same stores. */
  lemma ExactlySafe(env: map<string, string>)
    requires AllSelfContained(env)
    ensures Simultaneous(env) <==> NoneEmpty(env) && Settled(env)
    ensures Idempotent(env) <==> NoneEmpty(env) && Settled(env)
  {
    hide Performed, Scan, NoStrayBraces, SelfContained, SettledIn;
    if n :| n in env && IsName(n) && env[n] == "" {
      EmptyIsNotSimultaneous(n, env);
      EmptyIsReread(n, env);
    } else {
      if Simultaneous(env) {
        SimultaneousIsSettled(env);
      }
      if Idempotent(env) {
        IdempotentIsSettled(env);
      }
      if Settled(env) {
        forall s | NoStrayBraces(s)
          ensures Performed(s, env) == Text(Subst(Scan(s), env))
          ensures Performed(Performed(s, env), env) == Performed(s, env)
        {
          PerformInSafe(s, env);
          PerformTwiceInSafe(s, env);
        }
      }
    }
  }

  lemma {:induction false} BraceFreeScan(v: string)
    requires '{' !in v
    ensures Scan(v) == Chars(v)
  {
    if v != "" {
      BraceFreeScan(v[1..]);
      assert Chars(v) == [Ch(v[0])] + Chars(v[1..]);
    }
  }

  /** So when no value has an opening brace, emptiness alone decides. */
  lemma BraceFreeExactlyNonEmpty(env: map<string, string>)
    requires forall n | n in env :: '{' !in env[n]
    ensures Simultaneous(env) <==> NoneEmpty(env)
    ensures Idempotent(env) <==> NoneEmpty(env)
  {
    hide Simultaneous, Idempotent, Scan;
    forall n | n in env ensures SelfContained(env[n]) && SettledIn(Scan(env[n]), env) {
      BraceFreeScan(env[n]);
    }
    ExactlySafe(env);
  }
}
