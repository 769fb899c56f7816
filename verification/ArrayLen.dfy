/** The length specification inside `$matchArrayLen(...)`: "N", "min=N", "max=M" or "min=N,max=M". */
module ArrayLen {
  import opened Wrappers

  /** The largest value of a 64-bit int, the bound used when no `max` is given. */
  const MAX_INT: int := 0x7fff_ffff_ffff_ffff

  // ---------- the string helpers the parser calls ----------

  predicate IsSpace(c: char) {
    c == ' ' || '\t' <= c <= '\r'
  }

  function TrimLeft(s: string): string {
    if s != "" && IsSpace(s[0]) then TrimLeft(s[1..]) else s
  }

  function TrimRight(s: string): string {
    if s != "" && IsSpace(s[|s| - 1]) then TrimRight(s[..|s| - 1]) else s
  }

  function Trim(s: string): string {
    TrimRight(TrimLeft(s))
  }

  /** The pieces of s between occurrences of sep; always at least one. */
  function Split(s: string, sep: char): (parts: seq<string>)
    ensures |parts| >= 1
    ensures forall i | 0 <= i < |parts| :: sep !in parts[i]
  {
    if s == "" then [""]
    else
      var rest := Split(s[1..], sep);
      if s[0] == sep then [""] + rest else [[s[0]] + rest[0]] + rest[1..]
  }

  /** The text before and after the first sep, if there is one. */
  function Cut(s: string, sep: char): (r: Option<(string, string)>)
    ensures r.Some? ==> s == r.value.0 + [sep] + r.value.1 && sep !in r.value.0
    ensures r.None? ==> sep !in s
  {
    if s == "" then None
    else if s[0] == sep then Some(("", s[1..]))
    else match Cut(s[1..], sep)
         case None => None
         case Some((k, v)) => Some(([s[0]] + k, v))
  }

  lemma {:induction false} SplitWhole(s: string, sep: char)
    requires sep !in s
    ensures Split(s, sep) == [s]
  {
    if s != "" {
      SplitWhole(s[1..], sep);
      assert [s[0]] + s[1..] == s;
    }
  }

  lemma {:induction false} CutAt(k: string, sep: char, v: string)
    requires sep !in k
    ensures Cut(k + [sep] + v, sep) == Some((k, v))
  {
    var s := k + [sep] + v;
    if k == "" {
      assert s[1..] == v;
    } else {
      CutAt(k[1..], sep, v);
      assert s[1..] == k[1..] + [sep] + v;
      assert [k[0]] + k[1..] == k;
    }
  }

  function Digits(s: string): (n: Option<nat>)
  {
    if s == "" then Some(0)
    else match Digits(s[..|s| - 1])
         case None => None
         case Some(n) =>
           var c := s[|s| - 1];
           if '0' <= c <= '9' then Some(10 * n + (c as int - '0' as int)) else None
  }

  /** Decimal text with an optional sign, within the 64-bit range. */
  function Atoi(s: string): (n: Option<int>)
  {
    var neg := s != "" && s[0] == '-';
    var body := if s != "" && (s[0] == '-' || s[0] == '+') then s[1..] else s;
    if body == "" then None
    else match Digits(body)
         case None => None
         case Some(n) =>
           var v: int := if neg then -(n as int) else n;
           if -MAX_INT - 1 <= v <= MAX_INT then Some(v) else None
  }

  // ---------- what a specification means ----------

  datatype Bound = Min(n: nat) | Max(n: nat)

  /** One comma-separated part: a known key and a length. */
  function BoundOf(part: string): Option<Bound> {
    match Cut(part, '=')
    case None => None
    case Some((k, v)) =>
      match Atoi(Trim(v))
      case None => None
      case Some(n) =>
        if n < 0 then None
        else if Trim(k) == "min" then Some(Min(n))
        else if Trim(k) == "max" then Some(Max(n))
        else None
  }

  ghost predicate HasBound(parts: seq<string>, b: Bound) {
    exists i | 0 <= i < |parts| :: BoundOf(parts[i]) == Some(b)
  }

  /** Every part is a bound, and no two parts bound the same side. */
  ghost predicate GoodParts(parts: seq<string>) {
    && (forall i | 0 <= i < |parts| :: BoundOf(parts[i]).Some?)
    && (forall i, j | 0 <= i < j < |parts| && BoundOf(parts[i]).Some? && BoundOf(parts[j]).Some? ::
          BoundOf(parts[i]).value.Min? != BoundOf(parts[j]).value.Min?)
  }

  ghost predicate MinIs(parts: seq<string>, lo: int) {
    if exists n: nat :: HasBound(parts, Min(n)) then lo >= 0 && HasBound(parts, Min(lo)) else lo == 0
  }

  ghost predicate MaxIs(parts: seq<string>, hi: int) {
    if exists n: nat :: HasBound(parts, Max(n)) then hi >= 0 && HasBound(parts, Max(hi)) else hi == MAX_INT
  }

  /** The specification allows exactly the lengths from lo to hi. */
  ghost predicate Denotes(body: string, lo: int, hi: int) {
    var text := Trim(body);
    match Atoi(text)
    case Some(n) => 0 <= n == lo == hi
    case None =>
      var parts := Split(text, ',');
      text != "" && GoodParts(parts) && MinIs(parts, lo) && MaxIs(parts, hi) && lo <= hi
  }

  lemma SidesDetermined(parts: seq<string>)
    requires GoodParts(parts)
    ensures forall l1, l2 | MinIs(parts, l1) && MinIs(parts, l2) :: l1 == l2
    ensures forall h1, h2 | MaxIs(parts, h1) && MaxIs(parts, h2) :: h1 == h2
  {
  }

  /** A specification denotes at most one range, and only ranges of lengths. */
  lemma DenotesUnique(body: string, lo1: int, hi1: int, lo2: int, hi2: int)
    requires Denotes(body, lo1, hi1) && Denotes(body, lo2, hi2)
    ensures 0 <= lo1 == lo2 <= hi1 == hi2
  {
    if Atoi(Trim(body)).None? {
      SidesDetermined(Split(Trim(body), ','));
    }
  }

  // ---------- the parser ----------

  lemma SameSideTwice(parts: seq<string>, i: nat, b: Bound)
    requires i < |parts| && HasBound(parts[..i], b)
    requires BoundOf(parts[i]).Some? && BoundOf(parts[i]).value.Min? == b.Min?
    ensures !GoodParts(parts)
  {
    var j :| 0 <= j < i && BoundOf(parts[..i][j]) == Some(b);
    assert BoundOf(parts[j]) == Some(b);
  }

  lemma BoundsGrow(before: seq<string>, part: string)
    ensures forall b :: HasBound(before + [part], b) <==> HasBound(before, b) || BoundOf(part) == Some(b)
  {
    var after := before + [part];
    forall b | HasBound(before, b) ensures HasBound(after, b) {
      var i :| 0 <= i < |before| && BoundOf(before[i]) == Some(b);
      assert after[i] == before[i];
    }
    assert after[|before|] == part;
  }

  /** What the scan knows after some of the parts. */
  ghost predicate Scanned(parts: seq<string>, haveMin: bool, lo: int, haveMax: bool, hi: int) {
    && GoodParts(parts)
    && (if haveMin then lo >= 0 && HasBound(parts, Min(lo)) else lo == 0 && forall n: nat :: !HasBound(parts, Min(n)))
    && (if haveMax then hi >= 0 && HasBound(parts, Max(hi))
        else hi == MAX_INT && forall n: nat :: !HasBound(parts, Max(n)))
  }

  lemma ScannedNext(parts: seq<string>, i: nat, haveMin: bool, lo: int, haveMax: bool, hi: int)
    requires i < |parts| && Scanned(parts[..i], haveMin, lo, haveMax, hi)
    requires BoundOf(parts[i]).Some?
    ensures match BoundOf(parts[i]).value
            case Min(n) => if haveMin then !GoodParts(parts) else Scanned(parts[..i + 1], true, n, haveMax, hi)
            case Max(n) => if haveMax then !GoodParts(parts) else Scanned(parts[..i + 1], haveMin, lo, true, n)
  {
    BoundsGrow(parts[..i], parts[i]);
    assert parts[..i + 1] == parts[..i] + [parts[i]];
    match BoundOf(parts[i]).value
    case Min(n) => if haveMin { SameSideTwice(parts, i, Min(lo)); }
    case Max(n) => if haveMax { SameSideTwice(parts, i, Max(hi)); }
  }

  lemma ScannedNothing()
    ensures Scanned([], false, 0, false, MAX_INT)
  {
  }

  lemma ScannedAll(parts: seq<string>, haveMin: bool, lo: int, haveMax: bool, hi: int)
    requires Scanned(parts, haveMin, lo, haveMax, hi)
    ensures GoodParts(parts) && MinIs(parts, lo) && MaxIs(parts, hi)
  {
  }

  /** The loop over the comma-separated parts: None where the source returns an error. */
  method ScanBounds(parts: seq<string>) returns (range: Option<(int, int)>)
    requires |parts| >= 1
    ensures range.Some? <==> GoodParts(parts)
    ensures range.Some? ==> MinIs(parts, range.value.0) && MaxIs(parts, range.value.1)
  {
    hide Scanned, HasBound, MinIs, MaxIs, BoundOf;
    var lo, hi := 0, MAX_INT;
    var haveMin, haveMax := false, false;
    ScannedNothing();
    assert parts[..0] == [];
    for i := 0 to |parts|
      invariant Scanned(parts[..i], haveMin, lo, haveMax, hi)
      invariant i > 0 ==> haveMin || haveMax
    {
      var bound := BoundOf(parts[i]);
      if bound.None? {
        return None;
      }
      ScannedNext(parts, i, haveMin, lo, haveMax, hi);
      match bound.value {
        case Min(n) =>
          if haveMin {
            return None;
          }
          haveMin, lo := true, n;
        case Max(n) =>
          if haveMax {
            return None;
          }
          haveMax, hi := true, n;
      }
    }
    assert parts[..|parts|] == parts;
    ScannedAll(parts, haveMin, lo, haveMax, hi);
    // the error for a specification without any bound cannot arise: there is always a part
    assert haveMin || haveMax;
    return Some((lo, hi));
  }

  /** A parsed range, or None where the source returns an error. */
  method ParseArrayLenSpec(body: string) returns (range: Option<(int, int)>)
    ensures range.Some? ==> Denotes(body, range.value.0, range.value.1)
    ensures range.None? ==> forall lo, hi :: !Denotes(body, lo, hi)
  {
    var text := Trim(body);
    if text == "" {
      return None;
    }
    var exact := Atoi(text);
    if exact.Some? {
      return if exact.value < 0 then None else Some((exact.value, exact.value));
    }
    range := ScanBounds(Split(text, ','));
    if range.Some? && range.value.0 > range.value.1 {
      SidesDetermined(Split(text, ','));
      return None;
    }
  }
}
