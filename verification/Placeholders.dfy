/** Text with `{{ $name }}` placeholders: how the two regular expressions read it, and what substitution means. */
module Placeholders {
  import opened Wrappers

  predicate IsSpace(c: char) {
    c == ' ' || c == '\t' || c == '\n' || c == '\r' || c == '\U{000C}'
  }

  /** The class `\s` of Go's regular expressions. */
  lemma SpaceIs(c: char)
    ensures IsSpace(c) <==> c in "\t\n\U{000C}\r "
  {
    var all := "\t\n\U{000C}\r ";
    if IsSpace(c) {
      assert c == all[0] || c == all[1] || c == all[2] || c == all[3] || c == all[4];
    }
  }

  predicate IsWord(c: char) {
    'a' <= c <= 'z' || 'A' <= c <= 'Z' || '0' <= c <= '9' || c == '_'
  }

  predicate IsName(n: string) {
    n != "" && forall i | 0 <= i < |n| :: IsWord(n[i])
  }

  predicate Spaces(s: string) {
    forall i | 0 <= i < |s| :: IsSpace(s[i])
  }

  /** The text behind the leading white space. */
  function SkipSpaces(s: string): (r: string)
    ensures |r| <= |s|
  {
    if s != "" && IsSpace(s[0]) then SkipSpaces(s[1..]) else s
  }

  function Front(s: string, r: string): string
    requires |r| <= |s|
  {
    s[..|s| - |r|]
  }

  lemma {:induction false} SkipSplit(s: string)
    ensures var r := SkipSpaces(s); s == Front(s, r) + r && Spaces(Front(s, r)) && (r == "" || !IsSpace(r[0]))
  {
    if s != "" && IsSpace(s[0]) {
      SkipSplit(s[1..]);
      MoreSpaces(s[0], s[1..], SkipSpaces(s[1..]));
      assert [s[0]] + s[1..] == s;
    } else {
      assert s[..0] + s == s;
    }
  }

  lemma MoreSpaces(c: char, s: string, r: string)
    requires IsSpace(c) && |r| <= |s| && s == Front(s, r) + r && Spaces(Front(s, r))
    ensures var t := [c] + s; t == Front(t, r) + r && Spaces(Front(t, r))
  {
    hide IsSpace;
    assert Front([c] + s, r) == [c] + Front(s, r);
  }

  function WordLength(s: string): (n: nat)
    ensures n <= |s| && (forall i | 0 <= i < n :: IsWord(s[i])) && (n < |s| ==> !IsWord(s[n]))
  {
    if s != "" && IsWord(s[0]) then 1 + WordLength(s[1..]) else 0
  }

  /** After "{{": optional space and a dollar sign. */
  function AfterDollar(s: string): (r: Option<string>)
    ensures r.Some? ==> |r.value| < |s|
  {
    if |s| < 2 || s[0] != '{' || s[1] != '{' then None
    else
      var t := SkipSpaces(s[2..]);
      if t == "" || t[0] != '$' then None else Some(t[1..])
  }

  /** Optional space and "}}". */
  function AfterClose(s: string): (r: Option<string>)
    ensures r.Some? ==> |r.value| < |s|
    ensures r.Some? ==> !IsWord(s[0])
  {
    var t := SkipSpaces(s);
    if |t| >= 2 && t[0] == '}' && t[1] == '}' then
      SkipSplit(s);
      Some(t[2..])
    else None
  }

  /** The placeholder the text begins with, by the pattern for any name: its name and the text behind it. */
  function MatchAny(s: string): (r: Option<(string, string)>)
    ensures r.Some? ==> |r.value.1| < |s| && IsName(r.value.0)
  {
    match AfterDollar(s)
    case None => None
    case Some(t) =>
      var n := WordLength(t);
      if n == 0 then None
      else match AfterClose(t[n..])
           case None => None
           case Some(rest) => Some((t[..n], rest))
  }

  /** The same by the pattern built for one variable, whose name is matched literally. */
  function MatchOne(s: string, name: string): (r: Option<string>)
    ensures r.Some? ==> |r.value| < |s|
  {
    match AfterDollar(s)
    case None => None
    case Some(t) => if name <= t then AfterClose(t[|name|..]) else None
  }

  lemma {:induction false} NameLength(name: string)
    requires IsName(name)
    ensures |name| > 0
  {
  }

  /** For a proper name the two patterns find the same placeholders. */
  lemma {:induction false} PatternsAgree(s: string, name: string)
    requires IsName(name)
    ensures MatchOne(s, name).Some? <==> MatchAny(s).Some? && MatchAny(s).value.0 == name
    ensures MatchOne(s, name).Some? ==> MatchAny(s) == Some((name, MatchOne(s, name).value))
  {
    hide AfterDollar, AfterClose, WordLength, IsName, IsWord;
    var d := AfterDollar(s);
    if d.Some? {
      var t := d.value;
      if name <= t && AfterClose(t[|name|..]).Some? {
        assert t == name + t[|name|..];
        WordIs(name, t[|name|..]);
      }
      NameLength(name);
    }
  }

  // ---------- tokens ----------

  datatype Tok = Ch(c: char) | Ph(raw: string, name: string)

  function Scan(s: string): seq<Tok>
    decreases |s|
  {
    if s == "" then []
    else match MatchAny(s)
         case Some((name, rest)) => [Ph(s[..|s| - |rest|], name)] + Scan(rest)
         case None => [Ch(s[0])] + Scan(s[1..])
  }

  function Raw(t: Tok): string {
    match t
    case Ch(c) => [c]
    case Ph(raw, _) => raw
  }

  function Text(toks: seq<Tok>): string {
    if toks == [] then "" else Raw(toks[0]) + Text(toks[1..])
  }

  // ---------- the shape of a placeholder ----------

  function Shape(before: string, name: string, after: string): string {
    "{{" + before + "$" + name + after + "}}"
  }

  ghost predicate RealPlaceholder(raw: string, name: string) {
    IsName(name) && exists before, after :: Spaces(before) && Spaces(after) && raw == Shape(before, name, after)
  }

  lemma {:induction false} SkipIs(sp: string, t: string)
    requires Spaces(sp) && t != "" && !IsSpace(t[0])
    ensures SkipSpaces(sp + t) == t
  {
    if sp == "" {
      assert sp + t == t;
    } else {
      SkipIs(sp[1..], t);
      assert (sp + t)[1..] == sp[1..] + t;
    }
  }

  lemma {:induction false} DollarIs(sp: string, t: string)
    requires Spaces(sp)
    ensures AfterDollar("{{" + sp + "$" + t) == Some(t)
  {
    hide SkipSpaces, Spaces;
    var u := "$" + t;
    SkipIs(sp, u);
    assert ("{{" + sp + "$" + t)[2..] == sp + u;
    assert u[1..] == t;
  }

  lemma {:induction false} CloseIs(sp: string, t: string)
    requires Spaces(sp)
    ensures AfterClose(sp + "}}" + t) == Some(t)
  {
    hide SkipSpaces, Spaces;
    var u := "}}" + t;
    SkipIs(sp, u);
    assert sp + "}}" + t == sp + u;
    assert u[2..] == t;
  }

  lemma {:induction false} WordIs(name: string, t: string)
    requires IsName(name) && t != "" && !IsWord(t[0])
    ensures WordLength(name + t) == |name|
  {
    var u, n := name + t, WordLength(name + t);
    assert u[|name|] == t[0];
  }

  lemma {:induction false} TailIsNoWord(after: string, rest: string)
    requires Spaces(after)
    ensures var tail := after + "}}" + rest; tail != "" && !IsWord(tail[0])
  {
    var tail := after + "}}" + rest;
    assert tail[0] == (if after == "" then '}' else after[0]);
  }

  /** A placeholder matches wherever it stands, whatever follows it. */
  lemma {:induction false} RealMatches(raw: string, name: string, rest: string)
    requires RealPlaceholder(raw, name)
    ensures MatchAny(raw + rest) == Some((name, rest))
  {
    hide AfterDollar, AfterClose, WordLength;
    var before, after :| Spaces(before) && Spaces(after) && raw == Shape(before, name, after);
    var tail := after + "}}" + rest;
    TailIsNoWord(after, rest);
    hide Spaces, IsName, IsWord;
    assert raw + rest == "{{" + before + "$" + (name + tail);
    DollarIs(before, name + tail);
    CloseIs(after, rest);
    WordIs(name, tail);
    assert (name + tail)[|name|..] == tail && (name + tail)[..|name|] == name;
  }

  lemma {:induction false} DollarSplit(s: string) returns (before: string)
    requires AfterDollar(s).Some?
    ensures Spaces(before) && |s| >= 2 && s[..2] == "{{" && s[2..] == before + ("$" + AfterDollar(s).value)
  {
    hide SkipSpaces, IsSpace, Spaces;
    SkipSplit(s[2..]);
    var r := SkipSpaces(s[2..]);
    before := Front(s[2..], r);
    assert r == "$" + r[1..];
  }

  lemma {:induction false} CloseSplit(s: string) returns (after: string)
    requires AfterClose(s).Some?
    ensures Spaces(after) && s == after + ("}}" + AfterClose(s).value)
  {
    hide SkipSpaces, IsSpace, Spaces;
    SkipSplit(s);
    var r := SkipSpaces(s);
    after := Front(s, r);
    assert r == "}}" + r[2..];
  }

  lemma {:induction false} Assemble(s: string, before: string, t: string, name: string, u: string, after: string,
                                    rest: string)
    requires |s| >= 2 && s[..2] == "{{" && s[2..] == before + ("$" + t) && t == name + u && u == after + ("}}" + rest)
    ensures s == Shape(before, name, after) + rest && s[..|s| - |rest|] == Shape(before, name, after)
  {
  }

  /** Whatever matches is a placeholder followed by the rest. */
  lemma {:induction false} MatchIsReal(s: string)
    requires MatchAny(s).Some?
    ensures var (name, rest) := MatchAny(s).value;
            RealPlaceholder(s[..|s| - |rest|], name) && s == s[..|s| - |rest|] + rest
  {
    hide AfterDollar, AfterClose, WordLength, Shape, Spaces, IsName;
    var name, rest := MatchAny(s).value.0, MatchAny(s).value.1;
    var t := AfterDollar(s).value;
    var n := WordLength(t);
    var before := DollarSplit(s);
    var after := CloseSplit(t[n..]);
    assert t == name + t[n..];
    Assemble(s, before, t, name, t[n..], after, rest);
  }

  /** After its two opening braces a placeholder has no further opening brace. */
  lemma {:induction false} RealBraces(raw: string, name: string)
    requires RealPlaceholder(raw, name)
    ensures |raw| > 2 && raw[..2] == "{{" && '{' !in raw[2..]
  {
    var before, after :| Spaces(before) && Spaces(after) && raw == Shape(before, name, after);
    assert raw[2..] == before + "$" + name + after + "}}";
    assert '{' !in before && '{' !in name && '{' !in after;
  }

  // ---------- good token lists ----------

  /** Real placeholders, and no two plain opening braces in a row. */
  ghost predicate Good(toks: seq<Tok>) {
    && (forall i | 0 <= i < |toks| && toks[i].Ph? :: RealPlaceholder(toks[i].raw, toks[i].name))
    && (forall i | 0 <= i < |toks| - 1 :: !(toks[i] == Ch('{') && toks[i + 1] == Ch('{')))
  }

  lemma {:induction false} TextOfScan(s: string)
    ensures Text(Scan(s)) == s
    decreases |s|
  {
    if s != "" {
      if MatchAny(s).Some? {
        var (name, rest) := MatchAny(s).value;
        MatchIsReal(s);
        TextOfScan(rest);
        var first := Ph(s[..|s| - |rest|], name);
        assert Scan(s)[0] == first && Scan(s)[1..] == Scan(rest);
      } else {
        TextOfScan(s[1..]);
        assert Scan(s)[0] == Ch(s[0]) && Scan(s)[1..] == Scan(s[1..]);
      }
    }
  }

  lemma {:induction false} ScanIsReal(s: string)
    ensures forall i | 0 <= i < |Scan(s)| && Scan(s)[i].Ph? :: RealPlaceholder(Scan(s)[i].raw, Scan(s)[i].name)
    decreases |s|
  {
    hide RealPlaceholder;
    if s != "" {
      if MatchAny(s).Some? {
        MatchIsReal(s);
        ScanIsReal(MatchAny(s).value.1);
      } else {
        ScanIsReal(s[1..]);
      }
    }
  }

  lemma {:induction false} ScanPlaceholder(raw: string, name: string, rest: string)
    requires RealPlaceholder(raw, name)
    ensures Scan(raw + rest) == [Ph(raw, name)] + Scan(rest)
  {
    RealMatches(raw, name, rest);
    RealBraces(raw, name);
    hide MatchAny, RealPlaceholder;
    var s := raw + rest;
    assert s != "" && s[..|s| - |rest|] == raw;
  }

  lemma {:induction false} ScanChar(c: char, rest: string)
    requires MatchAny([c] + rest).None?
    ensures Scan([c] + rest) == [Ch(c)] + Scan(rest)
  {
    hide MatchAny;
    var s := [c] + rest;
    assert s != "" && s[1..] == rest;
  }

  /** The text of a good token list reads back as that list. */
  lemma {:induction false} ScanOfText(toks: seq<Tok>)
    requires Good(toks)
    ensures Scan(Text(toks)) == toks
  {
    hide MatchAny, RealPlaceholder;
    if toks != [] {
      var rest := toks[1..];
      assert Good(rest);
      ScanOfText(rest);
      assert Text(toks) == Raw(toks[0]) + Text(rest);
      match toks[0]
      case Ph(raw, name) => ScanPlaceholder(raw, name, Text(rest));
      case Ch(c) =>
        NoMatchAtChar(toks);
        ScanChar(c, Text(rest));
    }
  }

  lemma {:induction false} NoMatchAtChar(toks: seq<Tok>)
    requires Good(toks) && toks != [] && toks[0].Ch?
    ensures MatchAny(Text(toks)).None?
  {
    var s, rest := Text(toks), Text(toks[1..]);
    assert s == [toks[0].c] + rest;
    if toks[0].c == '{' && |toks| > 1 {
      var next := toks[1];
      assert rest == Raw(next) + Text(toks[1..][1..]);
      if next.Ph? {
        RealBraces(next.raw, next.name);
        assert s[1] == '{' && s[2] == '{';
        assert SkipSpaces(s[2..]) == s[2..];
      } else {
        assert s[1] == next.c;
      }
    }
  }
}
