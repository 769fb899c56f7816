/** Variable substitution: one replacement pass per variable used, and the simultaneous substitution it amounts to. */
module Variables {
  import opened Wrappers
  import opened Placeholders

  // ---------- substitution on tokens ----------

  function Chars(v: string): (r: seq<Tok>)
    ensures |r| == |v| && forall i | 0 <= i < |v| :: r[i] == Ch(v[i])
  {
    seq(|v|, i requires 0 <= i < |v| => Ch(v[i]))
  }

  function SubstOne(t: Tok, env: map<string, string>): seq<Tok> {
    if t.Ph? && t.name in env then Chars(env[t.name]) else [t]
  }

  /** All placeholders with a value at once; values are not read again. */
  function Subst(toks: seq<Tok>, env: map<string, string>): seq<Tok> {
    if toks == [] then [] else SubstOne(toks[0], env) + Subst(toks[1..], env)
  }

  lemma {:induction false} SubstConcat(a: seq<Tok>, b: seq<Tok>, env: map<string, string>)
    ensures Subst(a + b, env) == Subst(a, env) + Subst(b, env)
  {
    if a == [] {
      assert a + b == b;
    } else {
      assert (a + b)[1..] == a[1..] + b;
      SubstConcat(a[1..], b, env);
    }
  }

  lemma {:induction false} SubstPlain(a: seq<Tok>, env: map<string, string>)
    requires forall i | 0 <= i < |a| :: a[i].Ch?
    ensures Subst(a, env) == a
  {
    if a != [] {
      SubstPlain(a[1..], env);
    }
  }

  /** Substituting twice is substituting once with the union in which the first wins. */
  lemma {:induction false} SubstTwice(toks: seq<Tok>, first: map<string, string>, second: map<string, string>)
    ensures Subst(Subst(toks, first), second) == Subst(toks, second + first)
  {
    if toks != [] {
      SubstTwice(toks[1..], first, second);
      var head := SubstOne(toks[0], first);
      SubstConcat(head, Subst(toks[1..], first), second);
      if toks[0].Ph? && toks[0].name in first {
        SubstPlain(head, second);
      } else {
        assert head == [toks[0]] && head[1..] == [];
        assert Subst(head, second) == SubstOne(toks[0], second);
      }
    }
  }

  ghost predicate GoodValue(v: string) {
    v != "" && '{' !in v
  }

  /** The values of the placeholders used are not empty and have no opening brace. */
  ghost predicate GoodFor(toks: seq<Tok>, env: map<string, string>) {
    forall i | 0 <= i < |toks| && toks[i].Ph? && toks[i].name in env :: GoodValue(env[toks[i].name])
  }

  predicate Opens(toks: seq<Tok>) {
    toks != [] && toks[0] == Ch('{')
  }

  predicate EndsOpen(toks: seq<Tok>) {
    toks != [] && toks[|toks| - 1] == Ch('{')
  }

  lemma GoodConcat(a: seq<Tok>, b: seq<Tok>)
    requires Good(a) && Good(b) && !(EndsOpen(a) && Opens(b))
    ensures Good(a + b)
  {
    hide RealPlaceholder;
    var all := a + b;
    forall i | 0 <= i < |all| && all[i].Ph? ensures RealPlaceholder(all[i].raw, all[i].name) {
      if i < |a| {
        assert all[i] == a[i];
      } else {
        assert all[i] == b[i - |a|];
      }
    }
    forall i | 0 <= i < |all| - 1 ensures !(all[i] == Ch('{') && all[i + 1] == Ch('{')) {
      if i + 1 < |a| {
        assert !(a[i] == Ch('{') && a[i + 1] == Ch('{'));
      } else if i >= |a| {
        assert !(b[i - |a|] == Ch('{') && b[i - |a| + 1] == Ch('{'));
      }
    }
  }

  /** Good values neither make nor break placeholders. */
  lemma {:induction false} SubstGood(toks: seq<Tok>, env: map<string, string>)
    requires Good(toks) && GoodFor(toks, env)
    ensures Good(Subst(toks, env)) && (Opens(Subst(toks, env)) ==> Opens(toks))
  {
    hide RealPlaceholder;
    if toks != [] {
      var rest, head := toks[1..], SubstOne(toks[0], env);
      assert Good(rest) && GoodFor(rest, env);
      SubstGood(rest, env);
      if toks[0].Ph? && toks[0].name in env {
        assert GoodValue(env[toks[0].name]);
        assert Good(head) && !EndsOpen(head) && !Opens(head);
      } else {
        assert head == [toks[0]];
        assert Good(head);
        assert !(Opens(toks) && Opens(rest));
      }
      GoodConcat(head, Subst(rest, env));
    }
  }

  lemma {:induction false} GoodForRest(toks: seq<Tok>, first: map<string, string>, env: map<string, string>)
    requires GoodFor(toks, env)
    ensures GoodFor(Subst(toks, first), env)
  {
    if toks != [] {
      assert GoodFor(toks[1..], env);
      GoodForRest(toks[1..], first, env);
      var head, tail := SubstOne(toks[0], first), Subst(toks[1..], first);
      var all: seq<Tok> := head + tail;
      forall i | 0 <= i < |all| && all[i].Ph? && all[i].name in env ensures GoodValue(env[all[i].name]) {
        if i < |head| {
          assert head[i] == toks[0];
        } else {
          assert all[i] == tail[i - |head|];
        }
      }
    }
  }

  // ---------- one variable on text ----------

  lemma {:induction false} TextConcat(a: seq<Tok>, b: seq<Tok>)
    ensures Text(a + b) == Text(a) + Text(b)
  {
    if a == [] {
      assert a + b == b;
    } else {
      assert (a + b)[1..] == a[1..] + b;
      TextConcat(a[1..], b);
    }
  }

  lemma {:induction false} TextChars(v: string)
    ensures Text(Chars(v)) == v
  {
    if v != "" {
      TextChars(v[1..]);
      assert Chars(v)[1..] == Chars(v[1..]);
      assert v == [v[0]] + v[1..];
    }
  }

  /** `Variable.Perform`: every match of the variable's own pattern, from the left. */
  function ReplaceOne(s: string, name: string, v: string): string
    decreases |s|
  {
    if s == "" then ""
    else match MatchOne(s, name)
         case Some(rest) => v + ReplaceOne(rest, name, v)
         case None => [s[0]] + ReplaceOne(s[1..], name, v)
  }

  lemma CopyChar(c: char, t: string, name: string, v: string)
    requires MatchOne([c] + t, name).None?
    ensures ReplaceOne([c] + t, name, v) == [c] + ReplaceOne(t, name, v)
  {
    hide MatchOne;
    var s := [c] + t;
    assert s[0] == c && s[1..] == t;
  }

  lemma OtherChar(c: char, t: string, name: string)
    requires c != '{'
    ensures MatchOne([c] + t, name).None?
  {
  }

  lemma {:induction false} CopyThrough(u: string, rest: string, name: string, v: string)
    requires '{' !in u
    ensures ReplaceOne(u + rest, name, v) == u + ReplaceOne(rest, name, v)
  {
    hide MatchOne;
    if u == "" {
      assert u + rest == rest;
    } else {
      var t := u[1..] + rest;
      assert u + rest == [u[0]] + t && u == [u[0]] + u[1..];
      OtherChar(u[0], t, name);
      CopyChar(u[0], t, name, v);
      CopyThrough(u[1..], rest, name, v);
    }
  }

  /** A placeholder of another name is copied as it is. */
  lemma CopyPlaceholder(raw: string, other: string, rest: string, name: string, v: string)
    requires RealPlaceholder(raw, other) && IsName(name) && other != name
    ensures ReplaceOne(raw + rest, name, v) == raw + ReplaceOne(rest, name, v)
  {
    hide MatchAny, MatchOne, RealPlaceholder;
    RealMatches(raw, other, rest);
    PatternsAgree(raw + rest, name);
    RealBraces(raw, other);
    var u := raw[2..];
    var t := u + rest;
    assert raw == ['{'] + (['{'] + u) && raw + rest == ['{'] + (['{'] + t);
    assert u[0] in u;
    SingleBrace(t, name);
    CopyChar('{', ['{'] + t, name, v);
    CopyChar('{', t, name, v);
    CopyThrough(u, rest, name, v);
  }

  lemma SingleBrace(t: string, name: string)
    requires t != "" && t[0] != '{'
    ensures MatchOne(['{'] + t, name).None?
  {
  }

  /** Replacing one variable in the text is substituting it in the tokens, whatever the text. */
  lemma {:induction false} ReplaceIsSubst(s: string, name: string, v: string)
    requires IsName(name)
    ensures ReplaceOne(s, name, v) == Text(Subst(Scan(s), map[name := v]))
    decreases |s|
  {
    if s != "" {
      var env := map[name := v];
      PatternsAgree(s, name);
      if MatchAny(s).Some? {
        var (other, rest) := MatchAny(s).value;
        MatchIsReal(s);
        ReplaceIsSubst(rest, name, v);
        var raw := s[..|s| - |rest|];
        if other != name {
          CopyPlaceholder(raw, other, rest, name, v);
        }
        hide MatchAny, MatchOne, RealPlaceholder;
        TextOfSubst(Ph(raw, other), Scan(rest), env);
        TextChars(v);
      } else {
        ReplaceIsSubst(s[1..], name, v);
        hide MatchAny, MatchOne, RealPlaceholder;
        TextOfSubst(Ch(s[0]), Scan(s[1..]), env);
      }
    }
  }

  lemma TextOfSubst(t: Tok, rest: seq<Tok>, env: map<string, string>)
    ensures Text(Subst([t] + rest, env)) ==
            (if t.Ph? && t.name in env then Text(Chars(env[t.name])) else Raw(t)) + Text(Subst(rest, env))
  {
    assert ([t] + rest)[1..] == rest;
    TextConcat(SubstOne(t, env), Subst(rest, env));
    assert Text([t]) == Raw(t) by {
      assert [t][1..] == [];
    }
  }

  // ---------- all variables, one after another ----------

  function Used(toks: seq<Tok>): seq<string> {
    if toks == [] then [] else (if toks[0].Ph? then [toks[0].name] else []) + Used(toks[1..])
  }

  /** One pass over the text for each name that has a value, in the order of the list. */
  function Sequential(s: string, names: seq<string>, env: map<string, string>): string {
    if names == [] then s
    else
      var before, n := Sequential(s, names[..|names| - 1], env), names[|names| - 1];
      if n in env then ReplaceOne(before, n, env[n]) else before
  }

  /** `perform`: the names are collected once, from the original text. */
  function Performed(s: string, env: map<string, string>): string {
    Sequential(s, Used(Scan(s)), env)
  }

  /** No "{{" outside placeholders. */
  ghost predicate NoStrayBraces(s: string) {
    forall i | 0 <= i < |Scan(s)| - 1 :: !(Scan(s)[i] == Ch('{') && Scan(s)[i + 1] == Ch('{'))
  }

  ghost predicate AllNames(names: seq<string>) {
    forall i | 0 <= i < |names| :: IsName(names[i])
  }

  function Restrict(env: map<string, string>, names: seq<string>): map<string, string> {
    map n | n in names && n in env :: env[n]
  }

  lemma RestrictSnoc(env: map<string, string>, names: seq<string>, k: nat)
    requires |names| == k + 1
    ensures names[k] in env ==> Restrict(env, names) == map[names[k] := env[names[k]]] + Restrict(env, names[..k])
    ensures names[k] !in env ==> Restrict(env, names) == Restrict(env, names[..k])
  {
    assert names == names[..k] + [names[k]];
  }

  lemma OneMorePass(toks: seq<Tok>, some: map<string, string>, n: string, v: string)
    requires IsName(n) && Scan(Text(Subst(toks, some))) == Subst(toks, some)
    ensures ReplaceOne(Text(Subst(toks, some)), n, v) == Text(Subst(toks, map[n := v] + some))
  {
    ReplaceIsSubst(Text(Subst(toks, some)), n, v);
    SubstTwice(toks, some, map[n := v]);
  }

  /** The passes up to any point amount to substituting the names seen so far. */
  lemma {:induction false} SequentialIsSubst(s: string, names: seq<string>, env: map<string, string>)
    requires NoStrayBraces(s) && GoodFor(Scan(s), env) && AllNames(names)
    ensures Sequential(s, names, env) == Text(Subst(Scan(s), Restrict(env, names)))
  {
    hide ReplaceOne, GoodFor, NoStrayBraces, Restrict;
    var toks := Scan(s);
    if names == [] {
      TextOfScan(s);
      RestrictNone(env);
      NothingToSubst(toks, Restrict(env, names));
    } else {
      var k := |names| - 1;
      SequentialIsSubst(s, names[..k], env);
      RestrictSnoc(env, names, k);
      if names[k] in env {
        RestrictPart(env, names[..k]);
        ScanStaysGood(s, env, Restrict(env, names[..k]));
        OneMorePass(toks, Restrict(env, names[..k]), names[k], env[names[k]]);
      }
    }
  }

  lemma RestrictNone(env: map<string, string>)
    ensures Restrict(env, []) == map[]
  {
  }

  lemma RestrictPart(env: map<string, string>, names: seq<string>)
    ensures forall n | n in Restrict(env, names) :: n in env && Restrict(env, names)[n] == env[n]
  {
  }

  lemma {:induction false} NothingToSubst(toks: seq<Tok>, env: map<string, string>)
    requires env == map[]
    ensures Subst(toks, env) == toks
  {
    if toks != [] {
      NothingToSubst(toks[1..], env);
    }
  }

  /** After substituting good values the text reads as the substituted tokens. */
  lemma ScanStaysGood(s: string, env: map<string, string>, some: map<string, string>)
    requires NoStrayBraces(s) && GoodFor(Scan(s), env) && forall n | n in some :: n in env && some[n] == env[n]
    ensures Scan(Text(Subst(Scan(s), some))) == Subst(Scan(s), some)
  {
    ScanIsReal(s);
    assert Good(Scan(s)) && GoodFor(Scan(s), some);
    SubstGood(Scan(s), some);
    ScanOfText(Subst(Scan(s), some));
  }

  lemma {:induction false} SubstAgrees(toks: seq<Tok>, env: map<string, string>, names: seq<string>)
    requires forall i | 0 <= i < |toks| && toks[i].Ph? :: toks[i].name in names
    ensures Subst(toks, Restrict(env, names)) == Subst(toks, env)
  {
    if toks != [] {
      SubstAgrees(toks[1..], env, names);
    }
  }

  lemma {:induction false} UsedCovers(toks: seq<Tok>)
    ensures forall i | 0 <= i < |toks| && toks[i].Ph? :: toks[i].name in Used(toks)
  {
    if toks != [] {
      UsedCovers(toks[1..]);
    }
  }

  lemma {:induction false} UsedAreNames(toks: seq<Tok>)
    requires forall i | 0 <= i < |toks| && toks[i].Ph? :: IsName(toks[i].name)
    ensures AllNames(Used(toks))
  {
    if toks != [] {
      UsedAreNames(toks[1..]);
    }
  }

  /** Passes in any order, over any names that include those used, are one simultaneous substitution. */
  lemma AnyOrderIsSimultaneous(s: string, names: seq<string>, env: map<string, string>)
    requires NoStrayBraces(s) && GoodFor(Scan(s), env) && AllNames(names)
    requires forall i | 0 <= i < |Scan(s)| && Scan(s)[i].Ph? :: Scan(s)[i].name in names
    ensures Sequential(s, names, env) == Text(Subst(Scan(s), env))
  {
    SequentialIsSubst(s, names, env);
    SubstAgrees(Scan(s), env, names);
  }

  lemma PerformIsSimultaneous(s: string, env: map<string, string>)
    requires NoStrayBraces(s) && GoodFor(Scan(s), env)
    ensures Performed(s, env) == Text(Subst(Scan(s), env))
  {
    ScanIsReal(s);
    UsedCovers(Scan(s));
    UsedAreNames(Scan(s));
    AnyOrderIsSimultaneous(s, Used(Scan(s)), env);
  }

  /** Two passes with different values are one pass in which whatever resolved first wins and the second only
      fills the rest.  Second values of names that resolved first are never looked at. */
  lemma TwoPassesAreOne(s: string, first: map<string, string>, second: map<string, string>)
    requires NoStrayBraces(s) && GoodFor(Scan(s), first) && GoodFor(Subst(Scan(s), first), second)
    ensures Performed(Performed(s, first), second) == Text(Subst(Scan(s), second + first))
  {
    hide Performed, NoStrayBraces, Scan;
    PerformIsSimultaneous(s, first);
    ScanStaysGood(s, first, first);
    var toks := Subst(Scan(s), first);
    SubstIsGood(s, first);
    StaysStrayFree(Text(toks), toks);
    PerformIsSimultaneous(Text(toks), second);
    SubstTwice(Scan(s), first, second);
  }

  lemma SubstIsGood(s: string, env: map<string, string>)
    requires NoStrayBraces(s) && GoodFor(Scan(s), env)
    ensures Good(Subst(Scan(s), env))
  {
    ScanIsReal(s);
    SubstGood(Scan(s), env);
  }

  lemma StaysStrayFree(s: string, toks: seq<Tok>)
    requires Scan(s) == toks && Good(toks)
    ensures NoStrayBraces(s)
  {
  }

  lemma PerformIsIdempotent(s: string, env: map<string, string>)
    requires NoStrayBraces(s) && GoodFor(Scan(s), env)
    ensures Performed(Performed(s, env), env) == Performed(s, env)
  {
    hide Performed, NoStrayBraces, Scan;
    GoodForRest(Scan(s), env, env);
    TwoPassesAreOne(s, env, env);
    PerformIsSimultaneous(s, env);
    assert env + env == env;
  }

  // ---------- the store ----------

  /** What `get` finds: the store first, then a non-empty environment variable. */
  function Known(store: map<string, string>, environ: map<string, string>): map<string, string> {
    (map n | n in environ && environ[n] != "" :: environ[n]) + store
  }

  // ---------- which value a placeholder reads as ----------

  function Lookup(m: map<string, string>, n: string): Option<string> {
    if n in m then Some(m[n]) else None
  }

  /** An environment variable that is empty counts as not set. */
  function FromEnviron(environ: map<string, string>, n: string): Option<string> {
    if n in environ && environ[n] != "" then Some(environ[n]) else None
  }

  function FirstOf(a: Option<string>, b: Option<string>): Option<string> {
    if a.Some? then a else b
  }

  /** Before the request: the store, then the environment. */
  function Value(store: map<string, string>, environ: map<string, string>, n: string): Option<string> {
    FirstOf(Lookup(store, n), FromEnviron(environ, n))
  }

  /** Over a whole test: its own variables, then the store, then the environment, and last what the response set. */
  function TestValue(combined: map<string, string>, store: map<string, string>, environ: map<string, string>,
                     response: map<string, string>, n: string): Option<string> {
    FirstOf(Lookup(combined, n), FirstOf(Lookup(store, n), FirstOf(FromEnviron(environ, n), Lookup(response, n))))
  }

  function ReadAs(t: Tok, v: Option<string>): string {
    if t.Ph? && v.Some? then v.value else Raw(t)
  }

  /** The text with each placeholder read as its value, if it has one. */
  ghost function ReadNow(toks: seq<Tok>, store: map<string, string>, environ: map<string, string>): string {
    if toks == [] then ""
    else
      var t := toks[0];
      ReadAs(t, if t.Ph? then Value(store, environ, t.name) else None) + ReadNow(toks[1..], store, environ)
  }

  ghost function ReadInTest(toks: seq<Tok>, combined: map<string, string>, store: map<string, string>,
                            environ: map<string, string>, response: map<string, string>): string {
    if toks == [] then ""
    else
      var t := toks[0];
      ReadAs(t, if t.Ph? then TestValue(combined, store, environ, response, t.name) else None) +
      ReadInTest(toks[1..], combined, store, environ, response)
  }

  /** The values read are not empty and have no opening brace. */
  ghost predicate GoodNow(toks: seq<Tok>, store: map<string, string>, environ: map<string, string>) {
    forall i | 0 <= i < |toks| && toks[i].Ph? ::
      var v := Value(store, environ, toks[i].name); v.Some? ==> GoodValue(v.value)
  }

  ghost predicate GoodInTest(toks: seq<Tok>, combined: map<string, string>, store: map<string, string>,
                             environ: map<string, string>, response: map<string, string>) {
    forall i | 0 <= i < |toks| && toks[i].Ph? ::
      var v := TestValue(combined, store, environ, response, toks[i].name); v.Some? ==> GoodValue(v.value)
  }

  lemma TextStep(toks: seq<Tok>, env: map<string, string>)
    requires toks != []
    ensures var t := toks[0];
            Text(Subst(toks, env)) ==
            ReadAs(t, if t.Ph? then Lookup(env, t.name) else None) + Text(Subst(toks[1..], env))
  {
    var t := toks[0];
    TextOfSubst(t, toks[1..], env);
    assert [t] + toks[1..] == toks;
    if t.Ph? && t.name in env {
      TextChars(env[t.name]);
    }
  }

  lemma {:induction false} ReadNowIs(toks: seq<Tok>, store: map<string, string>, environ: map<string, string>)
    ensures Text(Subst(toks, Known(store, environ))) == ReadNow(toks, store, environ)
    ensures GoodNow(toks, store, environ) ==> GoodFor(toks, Known(store, environ))
  {
    hide ReadAs;
    forall n ensures Lookup(Known(store, environ), n) == Value(store, environ, n) {
    }
    hide Value;
    if toks != [] {
      ReadNowIs(toks[1..], store, environ);
      TextStep(toks, Known(store, environ));
    }
    if GoodNow(toks, store, environ) {
      forall i | 0 <= i < |toks| && toks[i].Ph? && toks[i].name in Known(store, environ)
        ensures GoodValue(Known(store, environ)[toks[i].name])
      {
        assert Value(store, environ, toks[i].name) == Lookup(Known(store, environ), toks[i].name);
      }
    }
  }

  /** What the two passes of a test know between them. */
  function KnownInTest(combined: map<string, string>, store: map<string, string>, environ: map<string, string>,
                       response: map<string, string>): map<string, string> {
    Known(store + combined + response + combined, environ) + Known(store + combined, environ)
  }

  lemma KnownInTestIs(combined: map<string, string>, store: map<string, string>, environ: map<string, string>,
                      response: map<string, string>, n: string)
    ensures Lookup(KnownInTest(combined, store, environ, response), n) ==
            TestValue(combined, store, environ, response, n)
  {
  }

  lemma {:induction false} ReadInTestIs(toks: seq<Tok>, combined: map<string, string>, store: map<string, string>,
                                        environ: map<string, string>, response: map<string, string>)
    ensures Text(Subst(toks, KnownInTest(combined, store, environ, response))) ==
            ReadInTest(toks, combined, store, environ, response)
  {
    hide ReadAs, KnownInTest, TestValue, Lookup;
    if toks != [] {
      var t, env := toks[0], KnownInTest(combined, store, environ, response);
      ReadInTestIs(toks[1..], combined, store, environ, response);
      TextStep(toks, env);
      if t.Ph? {
        KnownInTestIs(combined, store, environ, response, t.name);
      }
    }
  }

  /** Good values over the test are good in each of its passes. */
  lemma GoodInPasses(toks: seq<Tok>, combined: map<string, string>, store: map<string, string>,
                     environ: map<string, string>, response: map<string, string>)
    requires GoodInTest(toks, combined, store, environ, response)
    ensures var first, second := Known(store + combined, environ),
                                 Known(store + combined + response + combined, environ);
            GoodFor(toks, first) && GoodFor(Subst(toks, first), second)
  {
    var first, second := Known(store + combined, environ), Known(store + combined + response + combined, environ);
    hide Subst, GoodValue;
    forall i | 0 <= i < |toks| && toks[i].Ph? && toks[i].name in first ensures GoodValue(first[toks[i].name]) {
      KnownInTestIs(combined, store, environ, response, toks[i].name);
    }
    var rest := Subst(toks, first);
    forall i | 0 <= i < |rest| && rest[i].Ph? && rest[i].name in second ensures GoodValue(second[rest[i].name]) {
      var j := LeftOver(toks, first, i);
      KnownInTestIs(combined, store, environ, response, toks[j].name);
    }
  }

  /** A placeholder that is left was there before and had no value. */
  lemma {:induction false} LeftOver(toks: seq<Tok>, env: map<string, string>, i: nat) returns (j: nat)
    requires i < |Subst(toks, env)| && Subst(toks, env)[i].Ph?
    ensures j < |toks| && toks[j] == Subst(toks, env)[i] && toks[j].name !in env
  {
    var head := SubstOne(toks[0], env);
    if i < |head| {
      j := 0;
    } else {
      j := LeftOver(toks[1..], env, i - |head|);
      j := j + 1;
    }
  }

  class VariableStore {
    var variables: map<string, string>

    constructor ()
      ensures variables == map[]
    {
      variables := map[];
    }

    /** Adds the given variables, replacing the values of those that exist. */
    method Load(vars: map<string, string>)
      modifies this
      ensures variables == old(variables) + vars
    {
      var todo := vars.Keys;
      while todo != {}
        invariant todo <= vars.Keys && variables == old(variables) + (map n | n in vars && n !in todo :: vars[n])
        decreases todo
      {
        var n :| n in todo;
        variables := variables[n := vars[n]];
        todo := todo - {n};
      }
      assert (map n | n in vars && n !in todo :: vars[n]) == vars;
    }

    method Merge(other: VariableStore)
      modifies this
      ensures variables == old(variables) + old(other.variables)
    {
      Load(other.variables);
    }

    /** A stored value wins; the environment is asked only for names that are not stored. */
    method Get(environ: map<string, string>, name: string) returns (v: Option<string>)
      ensures name in variables ==> v == Some(variables[name])
      ensures name !in variables && name in environ && environ[name] != "" ==> v == Some(environ[name])
      ensures name !in variables && (name !in environ || environ[name] == "") ==> v == None
    {
      if name in variables {
        return Some(variables[name]);
      }
      v := if name in environ && environ[name] != "" then Some(environ[name]) else None;
    }

    /** Good values are read in place of their placeholders, those of the store before those of the environment. */
    method Perform(environ: map<string, string>, s: string) returns (r: string)
      ensures r == Performed(s, Known(variables, environ))
      ensures NoStrayBraces(s) && GoodNow(Scan(s), variables, environ) ==> r == ReadNow(Scan(s), variables, environ)
    {
      hide Scan, ReplaceOne, NoStrayBraces, GoodNow;
      var names := Used(Scan(s));
      ghost var env := Known(variables, environ);
      r := s;
      for i := 0 to |names|
        invariant r == Sequential(s, names[..i], env)
      {
        var v := Get(environ, names[i]);
        if v.Some? {
          r := ReplaceOne(r, names[i], v.value);
        }
        assert names[..i + 1][..i] == names[..i];
      }
      assert names[..|names|] == names;
      ReadNowIs(Scan(s), variables, environ);
      if NoStrayBraces(s) && GoodNow(Scan(s), variables, environ) {
        PerformIsSimultaneous(s, env);
      }
    }

    /** What a test does to each of its texts: load and apply before the request, then add what the response
        set, load again and apply once more.  What the environment knew before the request stays even if the response
        sets it. */
    method ApplyTwice(environ: map<string, string>, combined: map<string, string>, response: VariableStore,
                      s: string) returns (r: string)
      requires response != this
      modifies this
      ensures variables == old(variables) + combined + response.variables + combined
      ensures NoStrayBraces(s) && GoodInTest(Scan(s), combined, old(variables), environ, response.variables) ==>
                r == ReadInTest(Scan(s), combined, old(variables), environ, response.variables)
    {
      hide Performed, NoStrayBraces, GoodFor, Scan, GoodInTest, GoodNow, Known;
      Load(combined);
      ghost var first := Known(variables, environ);
      r := Perform(environ, s);
      Merge(response);
      Load(combined);
      ghost var second := Known(variables, environ);
      r := Perform(environ, r);
      if NoStrayBraces(s) && GoodInTest(Scan(s), combined, old(variables), environ, response.variables) {
        GoodInPasses(Scan(s), combined, old(variables), environ, response.variables);
        TwoPassesAreOne(s, first, second);
        ReadInTestIs(Scan(s), combined, old(variables), environ, response.variables);
      }
    }
  }
}
