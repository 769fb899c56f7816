/** The values that are compared, and the matchers a string expectation can carry. */
module Json {
  import opened Wrappers
  import opened ArrayLen

  /** A decoded value.  A Go string is a sequence of bytes, so each char of the model is one byte; `Byte` is
      what indexing a string yields. */
  datatype Value =
    | Null
    | Bool(b: bool)
    | Num(n: real)
    | Byte(code: char)
    | Str(s: string)
    | Arr(items: seq<Value>)
    | Obj(fields: map<string, Value>)

  datatype Kind = NilKind | BoolKind | NumKind | ByteKind | StrKind | ArrKind | MapKind

  function KindOf(v: Value): Kind {
    match v
    case Null => NilKind
    case Bool(_) => BoolKind
    case Num(_) => NumKind
    case Byte(_) => ByteKind
    case Str(_) => StrKind
    case Arr(_) => ArrKind
    case Obj(_) => MapKind
  }

  predicate Scalar(v: Value) {
    !v.Arr? && !v.Obj?
  }

  /** What reflection finds by indexing: the items of an array, the bytes of a string. */
  function Elems(v: Value): seq<Value> {
    match v
    case Arr(items) => items
    case Str(s) => seq(|s|, i requires 0 <= i < |s| => Byte(s[i]))
    case _ => []
  }

  /** The regexp engine and number formatting, as parameters. */
  datatype Engine = Engine(compiles: string -> bool, matches: (string, string) -> bool, render: real -> string)

  /** `fmt.Sprintf("%v", v)` on a scalar. */
  function Render(eng: Engine, v: Value): string {
    match v
    case Null => "<nil>"
    case Bool(b) => if b then "true" else "false"
    case Num(n) => eng.render(n)
    case Byte(c) => eng.render(c as int as real)
    case Str(s) => s
    case _ => ""
  }

  // ---------- matchers ----------

  datatype LeafMatch = Pure | Regex(pattern: string) | Length(spec: string)

  const REGEX_OPEN := "$matchRegexp("
  const LENGTH_OPEN := "$matchArrayLen("

  /** The text between `open` and a final closing parenthesis. */
  function Inner(s: string, open: string): (r: Option<string>)
    ensures r.Some? ==> s == open + r.value + ")"
  {
    if |s| > |open| && open <= s && s[|s| - 1] == ')' then
      assert s == open + s[|open|..|s| - 1] + ")";
      Some(s[|open|..|s| - 1])
    else None
  }

  function LeafMatchType(v: Value): (mt: LeafMatch)
    ensures !mt.Pure? ==> v.Str?
  {
    if !v.Str? then Pure
    else
      var rx := Inner(v.s, REGEX_OPEN);
      var len := Inner(v.s, LENGTH_OPEN);
      if rx.Some? && rx.value != "" && '\n' !in rx.value then Regex(rx.value)
      else if len.Some? && ')' !in len.value then Length(len.value)
      else Pure
  }

  /** Exactly the strings of the two forms are matchers, with the text between the parentheses. */
  lemma MatcherForms(v: Value, t: string)
    ensures LeafMatchType(v) == Regex(t) <==> v.Str? && v.s == REGEX_OPEN + t + ")" && t != "" && '\n' !in t
    ensures LeafMatchType(v) == Length(t) <==> v.Str? && v.s == LENGTH_OPEN + t + ")" && ')' !in t
  {
    if v.Str? {
      InnerIs(v.s, REGEX_OPEN, t);
      InnerIs(v.s, LENGTH_OPEN, t);
      if REGEX_OPEN <= v.s {
        assert v.s[6] == REGEX_OPEN[6] == 'R' && LENGTH_OPEN[6] == 'A';
      }
    }
  }

  lemma InnerIs(s: string, open: string, t: string)
    ensures Inner(s, open) == Some(t) <==> s == open + t + ")"
  {
    if s == open + t + ")" {
      assert s[|open|..|s| - 1] == t;
    }
  }

  /** No string anywhere in the value is a matcher. */
  ghost predicate MatcherFree(v: Value) {
    match v
    case Arr(items) => forall i | 0 <= i < |items| :: MatcherFree(items[i])
    case Obj(fields) => forall k | k in fields :: MatcherFree(fields[k])
    case _ => LeafMatchType(v).Pure?
  }
}
