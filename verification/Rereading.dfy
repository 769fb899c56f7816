/** What a replacement pass does to text that earlier values became part of. */
module Rereading {
  import opened Wrappers
  import opened Placeholders
  import opened Variables

  // ---------- what a pass changes ----------

  ghost predicate Reals(toks: seq<Tok>) {
    forall i | 0 <= i < |toks| && toks[i].Ph? :: RealPlaceholder(toks[i].raw, toks[i].name)
  }

  ghost predicate Occurs(toks: seq<Tok>, n: string) {
    exists i | 0 <= i < |toks| :: toks[i].Ph? && toks[i].name == n
  }

  /** The placeholders of known names read exactly as the value of their name. */
  ghost predicate SettledIn(toks: seq<Tok>, env: map<string, string>) {
    forall i | 0 <= i < |toks| && toks[i].Ph? && toks[i].name in env :: toks[i].raw == env[toks[i].name]
  }

  lemma RealIsNamed(t: Tok)
    requires t.Ph? && RealPlaceholder(t.raw, t.name)
    ensures IsName(t.name)
  {
  }

  lemma NoText(env: map<string, string>)
    ensures Text(Subst([], env)) == "" == Text([])
  {
  }

  lemma Unfold(toks: seq<Tok>, env: map<string, string>)
    requires toks != []
    ensures Text(toks) == Raw(toks[0]) + Text(toks[1..])
    ensures Text(Subst(toks, env)) ==
            (if toks[0].Ph? && toks[0].name in env then env[toks[0].name] else Raw(toks[0])) +
            Text(Subst(toks[1..], env))
  {
    TextOfSubst(toks[0], toks[1..], env);
    assert [toks[0]] + toks[1..] == toks;
    if toks[0].Ph? && toks[0].name in env {
      TextChars(env[toks[0].name]);
    }
  }

  /** Replacing settled placeholders leaves the text as it is. */
  lemma {:induction false} SettledText(toks: seq<Tok>, env: map<string, string>)
    requires SettledIn(toks, env)
    ensures Text(Subst(toks, env)) == Text(toks)
  {
    if toks != [] {
      SettledText(toks[1..], env);
      Unfold(toks, env);
    }
  }

  /** How many opening braces the text has. */
  ghost function Braces(s: string): nat {
    multiset(s)['{']
  }

  lemma BracesConcat(a: string, b: string)
    ensures Braces(a + b) == Braces(a) + Braces(b)
  {
  }

  lemma NoBraces(s: string)
    ensures Braces(s) == 0 <==> '{' !in s
  {
    assert '{' in s <==> '{' in multiset(s);
  }

  lemma RawBraces(raw: string, name: string)
    requires RealPlaceholder(raw, name)
    ensures raw != "" && raw[0] == '{' && Braces(raw) == 2
  {
    RealBraces(raw, name);
    hide RealPlaceholder;
    var tail := raw[2..];
    assert raw == "{{" + tail;
    BracesConcat("{{", tail);
    NoBraces(tail);
  }

  /** Replacing text with two braces by text with fewer or more shows in the number of braces. */
  lemma {:induction false} BraceCount(toks: seq<Tok>, n: string, v: string)
    requires Reals(toks)
    ensures var before, after := Braces(Text(toks)), Braces(Text(Subst(toks, map[n := v])));
            && (Braces(v) <= 2 ==> after <= before)
            && (Braces(v) >= 2 ==> after >= before)
            && (after == before && Occurs(toks, n) ==> Braces(v) == 2)
  {
    hide RealPlaceholder, Text, Subst, Braces;
    if toks == [] {
      NoText(map[n := v]);
    } else {
      var t, rest, one := toks[0], toks[1..], map[n := v];
      BraceCount(rest, n, v);
      Unfold(toks, one);
      BracesConcat(Raw(t), Text(rest));
      if t.Ph? && t.name == n {
        RawBraces(t.raw, n);
        BracesConcat(v, Text(Subst(rest, one)));
      } else {
        BracesConcat(Raw(t), Text(Subst(rest, one)));
        assert Occurs(toks, n) ==> Occurs(rest, n);
      }
    }
  }

  lemma SameCount(y: string, g: string, z: string)
    requires y + g == g + z && '{' !in y
    ensures '{' !in z
  {
    BracesConcat(y, g);
    BracesConcat(g, z);
    NoBraces(y);
    NoBraces(z);
  }

  lemma Rotated(y: string, g: string, a: string, b: string) returns (z: string)
    requires y + (g + a) == g + b && '{' !in y
    ensures z + a == b && |z| == |y| && '{' !in z
  {
    var all := g + b;
    z := b[..|y|];
    assert (y + g) + a == all;
    assert y + g == all[..|y| + |g|] == g + z;
    assert all[|y| + |g|..] == a == b[|y|..];
    SameCount(y, g, z);
  }

  ghost predicate Shifted(y: string, was: string, now: string, ahead: bool) {
    if ahead then y + was == now else was == y + now
  }

  lemma NoBraceShift(y: string, was: string, now: string, ahead: bool)
    requires '{' !in y && Shifted(y, was, now, ahead) && was != "" && now != "" && was[0] == now[0] == '{'
    ensures y == ""
  {
    assert (if ahead then now else was)[0] == '{';
  }

  lemma ShiftPast(y: string, g: string, was: string, now: string, ahead: bool) returns (z: string)
    requires '{' !in y && Shifted(y, g + was, g + now, ahead)
    ensures '{' !in z && |z| == |y| && Shifted(z, was, now, ahead)
  {
    if ahead {
      z := Rotated(y, g, was, now);
    } else {
      z := Rotated(y, g, now, was);
    }
  }

  /** Two texts that differ by a shift without braces differ by nothing. */
  lemma {:induction false} NoShift(y: string, toks: seq<Tok>, n: string, v: string, ahead: bool)
    requires Reals(toks) && '{' !in y && v != "" && v[0] == '{'
    requires Shifted(y, Text(toks), Text(Subst(toks, map[n := v])), ahead)
    ensures y == ""
    decreases toks
  {
    hide RealPlaceholder, Subst, Text;
    if toks == [] {
      NoText(map[n := v]);
    } else {
      var t, rest, one := toks[0], toks[1..], map[n := v];
      Unfold(toks, one);
      if t.Ph? && t.name == n {
        RawBraces(t.raw, n);
        NoBraceShift(y, Text(toks), Text(Subst(toks, one)), ahead);
      } else {
        var z := ShiftPast(y, Raw(t), Text(rest), Text(Subst(rest, one)), ahead);
        NoShift(z, rest, n, v, ahead);
      }
    }
  }

  lemma HeadUnchanged(r: string, a: string, v: string, b: string) returns (y: string)
    requires r + a == v + b && Braces(r) == Braces(v)
    ensures '{' !in y && if |v| <= |r| then r == v + y && y + a == b else v == r + y && a == y + b
  {
    var all := r + a;
    if |v| <= |r| {
      y := r[|v|..];
      assert v == all[..|v|] == r[..|v|];
      assert r == v + y;
      BracesConcat(v, y);
      assert all[|v|..] == y + a == b;
    } else {
      y := v[|r|..];
      assert r == all[..|r|] == v[..|r|];
      assert v == r + y;
      BracesConcat(r, y);
      assert all[|r|..] == y + b == a;
    }
    NoBraces(y);
  }

  lemma CancelLeft(g: string, a: string, b: string)
    requires g + a == g + b
    ensures a == b
  {
    assert a == (g + a)[|g|..] && b == (g + b)[|g|..];
  }

  lemma HeadIsValue(r: string, rest: seq<Tok>, n: string, v: string)
    requires Reals(rest) && r != "" && r[0] == '{' && Braces(r) == Braces(v) == 2
    requires r + Text(rest) == v + Text(Subst(rest, map[n := v]))
    ensures r == v
  {
    hide Subst, Text, Reals;
    NoBraces(v);
    var y := HeadUnchanged(r, Text(rest), v, Text(Subst(rest, map[n := v])));
    assert v != "" && v[0] == (v + Text(Subst(rest, map[n := v])))[0];
    NoShift(y, rest, n, v, |v| <= |r|);
  }

  lemma {:induction false} UnchangedIsSettled(toks: seq<Tok>, n: string, v: string)
    requires Reals(toks) && Text(Subst(toks, map[n := v])) == Text(toks)
    ensures SettledIn(toks, map[n := v])
  {
    hide RealPlaceholder, Text, Subst, Braces;
    if toks != [] {
      var t, rest, one := toks[0], toks[1..], map[n := v];
      Unfold(toks, one);
      if t.Ph? && t.name == n {
        RawBraces(t.raw, n);
        assert Occurs(toks, n);
        BraceCount(toks, n, v);
        HeadIsValue(t.raw, rest, n, v);
      }
      CancelLeft(Raw(t), Text(Subst(rest, one)), Text(rest));
      UnchangedIsSettled(rest, n, v);
    }
  }

  /** Replacing a name leaves a text unchanged exactly when its placeholders already read as the value. */
  lemma UnchangedIffSettled(toks: seq<Tok>, n: string, v: string)
    requires Reals(toks)
    ensures Text(Subst(toks, map[n := v])) == Text(toks) <==> SettledIn(toks, map[n := v])
  {
    hide Text, Subst, Reals;
    if SettledIn(toks, map[n := v]) {
      SettledText(toks, map[n := v]);
    } else if Text(Subst(toks, map[n := v])) == Text(toks) {
      UnchangedIsSettled(toks, n, v);
    }
  }

  // ---------- texts of one and of two placeholders ----------

  /** The placeholder of a name without white space. */
  function Plain(n: string): string {
    Shape("", n, "")
  }

  lemma PlainIsReal(n: string)
    requires IsName(n)
    ensures RealPlaceholder(Plain(n), n)
  {
    assert Spaces("");
  }

  lemma ScanNothing()
    ensures Scan("") == []
  {
  }

  lemma PerformedOne(s: string, n: string, env: map<string, string>)
    requires Used(Scan(s)) == [n] && n in env
    ensures Performed(s, env) == ReplaceOne(s, n, env[n])
  {
    hide Scan, ReplaceOne;
    assert [n][..0] == [] && Sequential(s, [], env) == s;
  }

  lemma PerformedTwo(s: string, m: string, n: string, env: map<string, string>)
    requires Used(Scan(s)) == [m, n] && m in env && n in env
    ensures Performed(s, env) == ReplaceOne(ReplaceOne(s, m, env[m]), n, env[n])
  {
    hide Scan, ReplaceOne;
    assert [m, n][..1] == [m] && [m][..0] == [];
    assert Sequential(s, [m], env) == ReplaceOne(s, m, env[m]);
  }

  lemma PlainAlone(n: string, env: map<string, string>)
    requires IsName(n) && n in env
    ensures NoStrayBraces(Plain(n)) && Performed(Plain(n), env) == env[n]
  {
    hide MatchAny, RealPlaceholder, ReplaceOne, Shape;
    PlainIsReal(n);
    var t := Ph(Plain(n), n);
    ScanPlaceholder(Plain(n), n, "");
    assert Plain(n) + "" == Plain(n) && [t] + Scan("") == [t] && [t][1..] == [];
    assert Used([t]) == [n];
    PerformedOne(Plain(n), n, env);
    ReplaceIsSubst(Plain(n), n, env[n]);
    TextOfSubst(t, [], map[n := env[n]]);
    TextChars(env[n]);
    NoText(map[n := env[n]]);
    assert [t] + [] == [t] && env[n] + "" == env[n];
  }

  lemma PlainVanishes(n: string)
    requires IsName(n)
    ensures ReplaceOne(Plain(n), n, "") == ""
  {
    hide Scan, ReplaceOne, Shape, RealPlaceholder, Subst, Text;
    var t, one := Ph(Plain(n), n), map[n := ""];
    PlainIsReal(n);
    ScanPlaceholder(Plain(n), n, "");
    assert Plain(n) + "" == Plain(n) && [t] + Scan("") == [t] + [] by { ScanNothing(); }
    ReplaceIsSubst(Plain(n), n, "");
    TextOfSubst(t, [], one);
    TextChars("");
    NoText(one);
  }

  lemma TwoPlains(a: string, b: string)
    requires IsName(a) && IsName(b)
    ensures Scan(Plain(a) + Plain(b)) == [Ph(Plain(a), a), Ph(Plain(b), b)]
    ensures Used([Ph(Plain(a), a), Ph(Plain(b), b)]) == [a, b]
  {
    hide MatchAny, RealPlaceholder, Shape;
    var x, y := Ph(Plain(a), a), Ph(Plain(b), b);
    PlainIsReal(a);
    PlainIsReal(b);
    ScanPlaceholder(Plain(a), a, Plain(b));
    ScanPlaceholder(Plain(b), b, "");
    assert Plain(b) + "" == Plain(b);
    assert [x, y][1..] == [y] && [y][1..] == [];
    assert Used([y]) == [b];
  }

  lemma TwoTexts(x: Tok, y: Tok, env: map<string, string>)
    requires x.Ph? && y.Ph?
    ensures Text(Subst([x, y], env)) ==
            (if x.name in env then env[x.name] else x.raw) + (if y.name in env then env[y.name] else y.raw)
  {
    hide Text, Subst;
    Unfold([x, y], env);
    assert [x, y][1..] == [y] && [y][1..] == [];
    Unfold([y], env);
    NoText(env);
  }

  lemma NoStrayInTwo(s: string, x: Tok, y: Tok)
    requires x.Ph? && y.Ph? && Scan(s) == [x, y]
    ensures NoStrayBraces(s)
  {
  }

  // ---------- a placeholder inside a value is read again ----------

  /** A placeholder never reaches into one that follows. */
  lemma EndsBefore(u: string, raw: string, name: string, r: string, n: string)
    requires u != "" && RealPlaceholder(raw, name) && RealPlaceholder(r, n) && r <= u + raw
    ensures r <= u
  {
    hide RealPlaceholder;
    RealBraces(raw, name);
    RealBraces(r, n);
    var all, inner := u + raw, r[2..];
    assert all[|u|] == raw[..2][0] == '{' && all[|u| + 1] == raw[..2][1] == '{';
    assert forall i | 2 <= i < |r| :: all[i] == inner[i - 2] && inner[i - 2] in inner;
    assert |r| <= |u| + 1;
    assert |r| <= |u|;
  }

  lemma NoMatchAcross(u: string, raw: string, name: string)
    requires u != "" && MatchAny(u).None? && RealPlaceholder(raw, name)
    ensures MatchAny(u + raw).None?
  {
    hide MatchAny, RealPlaceholder;
    var all := u + raw;
    if MatchAny(all).Some? {
      var (n, rest) := MatchAny(all).value;
      MatchIsReal(all);
      var r := all[..|all| - |rest|];
      EndsBefore(u, raw, name, r, n);
      assert u == r + u[|r|..];
      RealMatches(r, n, u[|r|..]);
    }
  }

  /** A placeholder at the end is read as one, whatever stands before it. */
  lemma {:induction false} ScanBefore(u: string, raw: string, name: string)
    requires RealPlaceholder(raw, name)
    ensures Scan(u + raw) == Scan(u) + [Ph(raw, name)]
    decreases |u|
  {
    hide MatchAny, RealPlaceholder;
    if u == "" {
      ScanPlaceholder(raw, name, "");
      assert raw + "" == raw == u + raw;
    } else if MatchAny(u).Some? {
      var (n, rest) := MatchAny(u).value;
      MatchIsReal(u);
      var r := u[..|u| - |rest|];
      ScanBefore(rest, raw, name);
      ScanPlaceholder(r, n, rest + raw);
      assert u + raw == r + (rest + raw);
    } else {
      NoMatchAcross(u, raw, name);
      ScanBefore(u[1..], raw, name);
      assert u + raw == [u[0]] + (u[1..] + raw);
      ScanChar(u[0], u[1..] + raw);
    }
  }

  lemma FirstPass(a: string, b: string, u: string)
    requires IsName(a) && IsName(b)
    ensures ReplaceOne(Plain(a) + Plain(b), a, u) == u + if a == b then u else Plain(b)
  {
    hide Scan, Subst, Text, ReplaceOne, Shape;
    TwoPlains(a, b);
    ReplaceIsSubst(Plain(a) + Plain(b), a, u);
    TwoTexts(Ph(Plain(a), a), Ph(Plain(b), b), map[a := u]);
  }

  lemma SecondPass(u: string, b: string, v: string)
    requires IsName(b)
    ensures ReplaceOne(u + Plain(b), b, v) == Text(Subst(Scan(u), map[b := v])) + v
  {
    hide Scan, Subst, Text, ReplaceOne, Shape, RealPlaceholder;
    var y, one := Ph(Plain(b), b), map[b := v];
    ReplaceIsSubst(u + Plain(b), b, v);
    PlainIsReal(b);
    ScanBefore(u, Plain(b), b);
    SubstConcat(Scan(u), [y], one);
    TextConcat(Subst(Scan(u), one), Subst([y], one));
    Unfold([y], one);
    NoText(one);
    assert [y][1..] == [] && v + "" == v;
  }

  lemma CancelRight(a: string, b: string, g: string)
    ensures a + g == b + g <==> a == b
  {
    if a + g == b + g {
      assert |a| == |b| && a == (a + g)[..|a|] && b == (b + g)[..|b|];
    }
  }

  /** For any store and any two names: the text of the two placeholders is substituted simultaneously exactly when
      each placeholder of the second name inside the first value already reads as the second value. */
  lemma RereadIff(a: string, b: string, env: map<string, string>)
    requires IsName(a) && IsName(b) && a != b && a in env && b in env
    ensures NoStrayBraces(Plain(a) + Plain(b))
    ensures Performed(Plain(a) + Plain(b), env) == Text(Subst(Scan(Plain(a) + Plain(b)), env)) <==>
            SettledIn(Scan(env[a]), map[b := env[b]])
  {
    hide Scan, Subst, Text, ReplaceOne, Performed, Shape, SettledIn, NoStrayBraces, RealPlaceholder;
    var s, x, y, u := Plain(a) + Plain(b), Ph(Plain(a), a), Ph(Plain(b), b), env[a];
    TwoPlains(a, b);
    NoStrayInTwo(s, x, y);
    PerformedTwo(s, a, b, env);
    FirstPass(a, b, u);
    SecondPass(u, b, env[b]);
    TwoTexts(x, y, env);
    ScanIsReal(u);
    UnchangedIffSettled(Scan(u), b, env[b]);
    TextOfScan(u);
    CancelRight(Text(Subst(Scan(u), map[b := env[b]])), u, env[b]);
  }

  lemma SettledConcat(x: seq<Tok>, y: seq<Tok>, env: map<string, string>)
    requires SettledIn(x + y, env)
    ensures SettledIn(x, env) && SettledIn(y, env)
  {
    forall i | 0 <= i < |x| && x[i].Ph? && x[i].name in env ensures x[i].raw == env[x[i].name] {
      assert (x + y)[i] == x[i];
    }
    forall i | 0 <= i < |y| && y[i].Ph? && y[i].name in env ensures y[i].raw == env[y[i].name] {
      assert (x + y)[|x| + i] == y[i];
    }
  }

  // ---------- an empty value joins its neighbours ----------

  /** What follows the first opening brace of a plain placeholder. */
  function Tail(n: string): string {
    "{$" + n + "}}"
  }

  lemma TailCompletes(n: string)
    ensures "{" + Tail(n) == Plain(n)
  {
  }

  /** A brace, the placeholder, and the rest of another one. */
  function Split(n: string): seq<Tok> {
    [Ch('{')] + ([Ph(Plain(n), n)] + Chars(Tail(n)))
  }

  lemma SplitIsGood(n: string, more: seq<Tok>)
    requires IsName(n) && Good(more) && !Opens(more)
    ensures Good(Split(n) + more)
  {
    hide RealPlaceholder;
    PlainIsReal(n);
    var tail := Chars(Tail(n));
    assert forall i | 1 <= i < |Tail(n)| :: Tail(n)[i] != '{';
    assert Good(tail) && Good([Ph(Plain(n), n)]) && Good([Ch('{')]);
    GoodConcat([Ph(Plain(n), n)], tail);
    GoodConcat([Ch('{')], [Ph(Plain(n), n)] + tail);
    GoodConcat(Split(n), more);
  }

  lemma {:induction false} UsedPlain(toks: seq<Tok>, more: seq<Tok>)
    requires forall i | 0 <= i < |toks| :: toks[i].Ch?
    ensures Used(toks + more) == Used(more)
  {
    if toks == [] {
      assert toks + more == more;
    } else {
      assert (toks + more)[1..] == toks[1..] + more;
      UsedPlain(toks[1..], more);
    }
  }

  lemma SplitUsed(n: string, more: seq<Tok>)
    ensures Used(Split(n) + more) == [n] + Used(more)
  {
    var tail := Chars(Tail(n));
    var p := [Ph(Plain(n), n)] + (tail + more);
    assert Split(n) + more == [Ch('{')] + p && ([Ch('{')] + p)[1..] == p && p[1..] == tail + more;
    UsedPlain(tail, more);
  }

  /** Once the placeholder in the middle is gone, its neighbours are one. */
  lemma SplitJoins(n: string, more: seq<Tok>, env: map<string, string>)
    requires n in env && env[n] == ""
    ensures Text(Subst(Split(n) + more, env)) == Plain(n) + Text(Subst(more, env))
  {
    hide Subst, Text;
    var tail := Chars(Tail(n));
    var p := [Ph(Plain(n), n)] + (tail + more);
    assert Split(n) + more == [Ch('{')] + p;
    TextOfSubst(Ch('{'), p, env);
    TextOfSubst(Ph(Plain(n), n), tail + more, env);
    SubstConcat(tail, more, env);
    SubstPlain(tail, env);
    TextConcat(tail, Subst(more, env));
    TextChars(Tail(n));
    TextChars("");
    TailCompletes(n);
  }

  lemma JoinsWithLast(n: string, env: map<string, string>)
    requires n in env && env[n] == ""
    ensures Text(Subst(Split(n) + [Ph(Plain(n), n)], env)) == Plain(n)
  {
    hide Split, Text, Subst;
    var last := [Ph(Plain(n), n)];
    SplitJoins(n, last, env);
    TextOfSubst(Ph(Plain(n), n), [], env);
    TextChars("");
    NoText(env);
    assert last + [] == last;
  }

  lemma BrokenOnce(n: string, env: map<string, string>)
    requires IsName(n) && n in env && env[n] == ""
    ensures NoStrayBraces(Text(Split(n))) && Performed(Text(Split(n)), env) == Plain(n)
  {
    hide Scan, Subst, ReplaceOne, Text, Performed, Split;
    var s := Text(Split(n));
    assert Split(n) + [] == Split(n);
    SplitIsGood(n, []);
    ScanOfText(Split(n));
    StaysStrayFree(s, Split(n));
    SplitUsed(n, []);
    assert Used([]) == [];
    assert [n] + [] == [n] && Plain(n) + "" == Plain(n);
    PerformedOne(s, n, env);
    ReplaceIsSubst(s, n, "");
    SplitJoins(n, [], map[n := ""]);
    NoText(map[n := ""]);
  }

  lemma BrokenTwice(n: string, env: map<string, string>)
    requires IsName(n) && n in env && env[n] == ""
    ensures var s := Text(Split(n) + [Ph(Plain(n), n)]);
            NoStrayBraces(s) && Performed(s, env) == "" && Text(Subst(Scan(s), env)) == Plain(n)
  {
    hide Scan, Subst, ReplaceOne, Text, Split, RealPlaceholder, Performed;
    var last := [Ph(Plain(n), n)];
    var toks := Split(n) + last;
    var s := Text(toks);
    PlainIsReal(n);
    assert Good(last);
    SplitIsGood(n, last);
    hide Good;
    ScanOfText(toks);
    StaysStrayFree(s, toks);
    SplitUsed(n, last);
    assert Used(last) == [n] by { assert last[1..] == []; }
    assert [n] + [n] == [n, n];
    PerformedTwo(s, n, n, env);
    ReplaceIsSubst(s, n, "");
    JoinsWithLast(n, map[n := ""]);
    JoinsWithLast(n, env);
    PlainVanishes(n);
  }
}
