/** Printing strings into a VALUES tuple and reading them back by the rules of the dialect. */
module SqlLiterals {
  import opened Wrappers

  // ---------- printing ----------

  /** `strings.ReplaceAll` of a one-byte pattern. */
  function ReplaceAll(s: string, c: char, by': string): string {
    if s == "" then "" else (if s[0] == c then by' else [s[0]]) + ReplaceAll(s[1..], c, by')
  }

  /** Two global passes: first quotes are doubled, then backslashes. */
  function Escaped(s: string): string {
    ReplaceAll(ReplaceAll(s, '\'', "''"), '\\', "\\\\")
  }

  function QuotePostgres(s: string): string {
    (if '\\' in s then "E" else "") + "'" + Escaped(s) + "'"
  }

  function QuoteMysql(s: string): string {
    "'" + Escaped(s) + "'"
  }

  datatype Dialect = Postgres | Mysql

  function Quote(d: Dialect, s: string): string {
    if d.Postgres? then QuotePostgres(s) else QuoteMysql(s)
  }

  // ---------- reading ----------

  /** How a literal treats a backslash: as itself, or by the escapes of a PostgreSQL `E''` or a MySQL string. */
  datatype Syntax = Standard | PgEscape | MyEscape

  /** What a backslash and c stand for; None for the numeric PostgreSQL escapes, which this reader does not know. */
  function Unescape(x: Syntax, c: char): Option<string> {
    if x.PgEscape? then
      if c == 'b' then Some("\U{0008}") else if c == 'f' then Some("\U{000C}") else if c == 'n' then Some("\n")
      else if c == 'r' then Some("\r") else if c == 't' then Some("\t")
      else if '0' <= c <= '7' || c == 'x' || c == 'u' || c == 'U' then None
      else Some([c])
    else
    if c == '0' then Some("\0") else if c == 'b' then Some("\U{0008}") else if c == 'n' then Some("\n")
    else if c == 'r' then Some("\r") else if c == 't' then Some("\t") else if c == 'Z' then Some("\U{001A}")
    else if c == '%' || c == '_' then Some(['\\', c])
    else Some([c])
  }

  /** After the opening quote: the value up to the closing quote, and the text behind it. */
  function ScanBody(x: Syntax, t: string): (r: Option<(string, string)>)
    ensures r.Some? ==> |r.value.1| < |t|
    decreases |t|
  {
    if t == "" then None
    else if t[0] == '\'' then
      if |t| > 1 && t[1] == '\'' then Cons("'", ScanBody(x, t[2..])) else Some(("", t[1..]))
    else if t[0] == '\\' && !x.Standard? then
      if |t| == 1 then None
      else match Unescape(x, t[1])
           case None => None
           case Some(v) => Cons(v, ScanBody(x, t[2..]))
    else Cons([t[0]], ScanBody(x, t[1..]))
  }

  function Cons(front: string, r: Option<(string, string)>): Option<(string, string)> {
    match r
    case None => None
    case Some((v, rest)) => Some((front + v, rest))
  }

  function ScanLiteral(d: Dialect, t: string): (r: Option<(string, string)>)
    ensures r.Some? ==> |r.value.1| < |t|
  {
    if t != "" && t[0] == '\'' then ScanBody(if d.Mysql? then MyEscape else Standard, t[1..])
    else if d.Postgres? && |t| > 1 && t[0] == 'E' && t[1] == '\'' then ScanBody(PgEscape, t[2..])
    else None
  }

  /** Literals separated by ", " up to a final ")". */
  function ScanRest(d: Dialect, t: string): Option<seq<string>>
    decreases |t|
  {
    if t == ")" then Some([])
    else if |t| < 2 || t[0] != ',' || t[1] != ' ' then None
    else match ScanLiteral(d, t[2..])
         case None => None
         case Some((v, rest)) =>
           match ScanRest(d, rest)
           case None => None
           case Some(vs) => Some([v] + vs)
  }

  function ScanTuple(d: Dialect, t: string): Option<seq<string>> {
    if t == "()" then Some([])
    else if t == "" || t[0] != '(' then None
    else match ScanLiteral(d, t[1..])
         case None => None
         case Some((v, rest)) =>
           match ScanRest(d, rest)
           case None => None
           case Some(vs) => Some([v] + vs)
  }

  // ---------- the round trip ----------

  function EscapedChar(c: char): string {
    if c == '\'' then "''" else if c == '\\' then "\\\\" else [c]
  }

  lemma {:induction false} ReplaceAllConcat(s: string, t: string, c: char, by': string)
    ensures ReplaceAll(s + t, c, by') == ReplaceAll(s, c, by') + ReplaceAll(t, c, by')
  {
    if s == "" {
      assert s + t == t;
    } else {
      assert (s + t)[1..] == s[1..] + t;
      ReplaceAllConcat(s[1..], t, c, by');
    }
  }

  /** The two passes together treat each character by itself. */
  lemma EscapedStep(s: string)
    requires s != ""
    ensures Escaped(s) == EscapedChar(s[0]) + Escaped(s[1..])
  {
    var front := if s[0] == '\'' then "''" else [s[0]];
    ReplaceAllConcat(front, ReplaceAll(s[1..], '\'', "''"), '\\', "\\\\");
    if s[0] == '\'' {
      assert "''"[1..] == "'" && "'"[1..] == "";
      assert ReplaceAll("'", '\\', "\\\\") == "'" + ReplaceAll("", '\\', "\\\\");
      assert ReplaceAll("''", '\\', "\\\\") == "''";
    } else {
      assert [s[0]][1..] == "";
      assert ReplaceAll([s[0]], '\\', "\\\\") == EscapedChar(s[0]);
    }
  }

  /** Reading one escaped character takes it and leaves the rest. */
  lemma BodyStep(x: Syntax, c: char, tail: string)
    requires x.Standard? ==> c != '\\'
    requires ScanBody(x, tail).Some?
    ensures ScanBody(x, EscapedChar(c) + tail) == Some(([c] + ScanBody(x, tail).value.0, ScanBody(x, tail).value.1))
  {
    var t := EscapedChar(c) + tail;
    if c == '\'' || c == '\\' {
      assert t[2..] == tail;
    } else {
      assert t[1..] == tail;
    }
  }

  /** A single quote ends the literal. */
  lemma BodyEnd(x: Syntax, rest: string)
    requires rest != "" && rest[0] != '\''
    ensures ScanBody(x, "'" + rest) == Some(("", rest))
  {
    assert ("'" + rest)[1..] == rest;
  }

  lemma EscapedNothing(rest: string)
    ensures Escaped("") + "'" + rest == "'" + rest
  {
  }

  lemma {:induction false} BodyRoundTrip(x: Syntax, s: string, rest: string)
    requires x.Standard? ==> '\\' !in s
    requires rest != "" && rest[0] != '\''
    ensures ScanBody(x, Escaped(s) + "'" + rest) == Some((s, rest))
  {
    hide ScanBody, Escaped, EscapedChar;
    if s == "" {
      EscapedNothing(rest);
      BodyEnd(x, rest);
    } else {
      EscapedStep(s);
      BodyRoundTrip(x, s[1..], rest);
      BodyStep(x, s[0], Escaped(s[1..]) + "'" + rest);
      Regroup(EscapedChar(s[0]), Escaped(s[1..]), "'", rest);
      assert [s[0]] + s[1..] == s;
    }
  }

  lemma Regroup(a: string, b: string, c: string, d: string)
    ensures (a + b) + c + d == a + (b + c + d)
  {
  }

  lemma LiteralRoundTrip(d: Dialect, s: string, rest: string)
    requires rest != "" && rest[0] != '\''
    ensures ScanLiteral(d, Quote(d, s) + rest) == Some((s, rest))
  {
    hide Escaped, ScanBody;
    var t := Quote(d, s) + rest;
    var body := Escaped(s) + "'" + rest;
    if d.Postgres? && '\\' in s {
      assert t[2..] == body;
      BodyRoundTrip(PgEscape, s, rest);
    } else {
      assert t[1..] == body;
      BodyRoundTrip(if d.Mysql? then MyEscape else Standard, s, rest);
    }
  }

  /** `strings.Join` with ", ", closed by a parenthesis. */
  function JoinClose(parts: seq<string>): (t: string)
    ensures t != ""
  {
    if parts == [] then ")" else if |parts| == 1 then parts[0] + ")" else parts[0] + ", " + JoinClose(parts[1..])
  }

  function Quotes(d: Dialect, values: seq<string>): (r: seq<string>)
    ensures |r| == |values| && forall i | 0 <= i < |r| :: r[i] == Quote(d, values[i])
  {
    seq(|values|, i requires 0 <= i < |values| => Quote(d, values[i]))
  }

  function Rest(d: Dialect, values: seq<string>): (t: string)
    ensures t != "" && t[0] != '\''
  {
    if values == [] then ")" else ", " + JoinClose(Quotes(d, values))
  }

  lemma JoinStep(d: Dialect, values: seq<string>)
    requires values != []
    ensures JoinClose(Quotes(d, values)) == Quote(d, values[0]) + Rest(d, values[1..])
  {
    hide Quote;
    assert Quotes(d, values)[1..] == Quotes(d, values[1..]);
  }

  lemma {:induction false} RestRoundTrip(d: Dialect, values: seq<string>)
    ensures ScanRest(d, Rest(d, values)) == Some(values)
  {
    hide Quote, ScanLiteral;
    if values != [] {
      JoinStep(d, values);
      var rest := Rest(d, values[1..]);
      assert Rest(d, values)[2..] == Quote(d, values[0]) + rest;
      LiteralRoundTrip(d, values[0], rest);
      RestRoundTrip(d, values[1..]);
      assert [values[0]] + values[1..] == values;
    }
  }

  /** Reading the printed tuple gives back the values, for every list of strings, in both dialects. */
  lemma TupleRoundTrip(d: Dialect, values: seq<string>)
    ensures ScanTuple(d, "(" + JoinClose(Quotes(d, values))) == Some(values)
  {
    hide Quote, ScanLiteral;
    var t := "(" + JoinClose(Quotes(d, values));
    if values == [] {
      assert t == "()";
    } else {
      JoinStep(d, values);
      var rest := Rest(d, values[1..]);
      assert t[1..] == Quote(d, values[0]) + rest;
      LiteralRoundTrip(d, values[0], rest);
      RestRoundTrip(d, values[1..]);
      assert [values[0]] + values[1..] == values;
    }
  }

  /** Values beginning with `$` are expressions and take another path. */
  predicate PlainValue(s: string) {
    s == "" || s[0] != '$'
  }

  /** The VALUES tuple of one row of plain strings. */
  method PrintTuple(d: Dialect, values: seq<string>) returns (t: string)
    requires forall i | 0 <= i < |values| :: PlainValue(values[i])
    ensures ScanTuple(d, t) == Some(values)
  {
    hide Quote, ScanTuple;
    var printed: seq<string> := [];
    for i := 0 to |values|
      invariant printed == Quotes(d, values)[..i]
    {
      printed := printed + [Quote(d, values[i])];
    }
    assert printed == Quotes(d, values);
    TupleRoundTrip(d, values);
    t := "(" + JoinClose(printed);
  }
}
