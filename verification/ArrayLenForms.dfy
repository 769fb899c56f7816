/** Which texts are length specifications, and of which lengths: numbers in decimal notation, the forms the
    documentation lists, and white space around every sign. */
module ArrayLenForms {
  import opened Wrappers
  import opened ArrayLen

  // ---------- numbers ----------

  function Digit(d: nat): char
    requires d < 10
  {
    ('0' as int + d) as char
  }

  /** The usual decimal notation. */
  function Decimal(n: nat): (s: string)
    ensures s != "" && forall i | 0 <= i < |s| :: '0' <= s[i] <= '9'
  {
    if n < 10 then [Digit(n)] else Decimal(n / 10) + [Digit(n % 10)]
  }

  function Zeros(k: nat): (s: string)
    ensures |s| == k && forall i | 0 <= i < k :: s[i] == '0'
  {
    seq(k, i => '0')
  }

  function Abs(v: int): nat {
    if v < 0 then -v else v
  }

  predicate WrittenAs(s: string, v: int, sign: string, k: nat) {
    && s == sign + Zeros(k) + Decimal(Abs(v))
    && (sign == "" || sign == "+" || sign == "-") && (if sign == "-" then v <= 0 else v >= 0)
  }

  /** An optional sign, any zeros, and the number in decimal notation. */
  ghost predicate Written(s: string, v: int) {
    exists sign, k :: WrittenAs(s, v, sign, k)
  }

  lemma DigitsSnoc(s: string, d: nat)
    requires d < 10 && Digits(s).Some?
    ensures Digits(s + [Digit(d)]) == Some(10 * Digits(s).value + d)
  {
    assert (s + [Digit(d)])[..|s|] == s;
  }

  lemma {:induction false} ZerosRead(k: nat)
    ensures Digits(Zeros(k)) == Some(0)
  {
    if k > 0 {
      ZerosRead(k - 1);
      DigitsSnoc(Zeros(k - 1), 0);
      assert Zeros(k) == Zeros(k - 1) + [Digit(0)];
    }
  }

  /** Decimal notation is read as its number, with or without leading zeros. */
  lemma {:induction false} DecimalReads(k: nat, n: nat)
    ensures Digits(Zeros(k) + Decimal(n)) == Some(n)
  {
    hide Digits;
    if n < 10 {
      ZerosRead(k);
      DigitsSnoc(Zeros(k), n);
    } else {
      DecimalReads(k, n / 10);
      DigitsSnoc(Zeros(k) + Decimal(n / 10), n % 10);
      assert Zeros(k) + Decimal(n) == Zeros(k) + Decimal(n / 10) + [Digit(n % 10)];
    }
  }

  lemma LastDigit(s: string) returns (m: nat, d: nat)
    requires s != "" && Digits(s).Some?
    ensures d < 10 && Digits(s[..|s| - 1]) == Some(m) && Digits(s) == Some(10 * m + d)
    ensures s == s[..|s| - 1] + [Digit(d)]
  {
    m, d := Digits(s[..|s| - 1]).value, s[|s| - 1] as int - '0' as int;
  }

  /** Only decimal notation with leading zeros is read. */
  lemma {:induction false} OnlyDecimalReads(s: string) returns (k: nat)
    requires s != "" && Digits(s).Some?
    ensures s == Zeros(k) + Decimal(Digits(s).value)
  {
    hide Digits;
    var m, d := LastDigit(s);
    var before := s[..|s| - 1];
    if before == "" {
      assert Digits("") == Some(0) by { NoDigits(); }
      k := 0;
    } else {
      k := OnlyDecimalReads(before);
      if m == 0 {
        assert Decimal(0) == Zeros(1);
        k := k + 1;
      }
    }
  }

  lemma NoDigits()
    ensures Digits("") == Some(0)
  {
  }

  /** `strconv.Atoi` reads exactly the written numbers of 64 bits, as the numbers they are. */
  lemma AtoiIff(s: string, v: int)
    ensures Atoi(s) == Some(v) <==> Written(s, v) && -MAX_INT - 1 <= v <= MAX_INT
  {
    hide Digits;
    if Atoi(s) == Some(v) {
      AtoiIsWritten(s, v);
    }
    if Written(s, v) && -MAX_INT - 1 <= v <= MAX_INT {
      var sign, k :| WrittenAs(s, v, sign, k);
      WrittenReads(s, v, sign, k);
    }
  }

  lemma SignSplits(s: string, v: int) returns (sign: string, body: string)
    requires Atoi(s) == Some(v)
    ensures s == sign + body && body != "" && Digits(body) == Some(Abs(v)) && -MAX_INT - 1 <= v <= MAX_INT
    ensures (sign == "" || sign == "+" || sign == "-") && (if sign == "-" then v <= 0 else v >= 0)
  {
    hide Digits;
    sign := if s[0] == '-' || s[0] == '+' then [s[0]] else "";
    body := s[|sign|..];
  }

  lemma AtoiIsWritten(s: string, v: int)
    requires Atoi(s) == Some(v)
    ensures Written(s, v) && -MAX_INT - 1 <= v <= MAX_INT
  {
    hide Digits, Atoi, Decimal;
    var sign, body := SignSplits(s, v);
    var k := OnlyDecimalReads(body);
    assert sign + (Zeros(k) + Decimal(Abs(v))) == sign + Zeros(k) + Decimal(Abs(v));
    assert WrittenAs(s, v, sign, k);
  }

  lemma WrittenReads(s: string, v: int, sign: string, k: nat)
    requires WrittenAs(s, v, sign, k) && -MAX_INT - 1 <= v <= MAX_INT
    ensures Atoi(s) == Some(v)
  {
    hide Digits;
    var body := Zeros(k) + Decimal(Abs(v));
    DecimalReads(k, Abs(v));
    assert s == sign + body && '0' <= body[0] <= '9';
    assert s[|sign|..] == body;
  }

  // ---------- white space ----------

  /** White space is what `unicode.IsSpace` finds among the bytes of ASCII. */
  lemma SpaceIs(c: char)
    ensures IsSpace(c) <==> c in "\t\n\U{000B}\U{000C}\r "
  {
    var all := "\t\n\U{000B}\U{000C}\r ";
    if IsSpace(c) {
      assert c == all[0] || c == all[1] || c == all[2] || c == all[3] || c == all[4] || c == all[5];
    }
  }

  ghost predicate Blank(s: string) {
    forall i | 0 <= i < |s| :: IsSpace(s[i])
  }

  predicate Solid(s: string) {
    s != "" && !IsSpace(s[0]) && !IsSpace(s[|s| - 1])
  }

  lemma {:induction false} TrimLeftIs(a: string, s: string)
    requires Blank(a) && (s == "" || !IsSpace(s[0]))
    ensures TrimLeft(a + s) == s
  {
    if a == "" {
      assert a + s == s;
    } else {
      TrimLeftIs(a[1..], s);
      assert (a + s)[1..] == a[1..] + s;
    }
  }

  lemma {:induction false} TrimRightIs(s: string, b: string)
    requires Blank(b) && (s == "" || !IsSpace(s[|s| - 1]))
    ensures TrimRight(s + b) == s
  {
    if b == "" {
      assert s + b == s;
    } else {
      var n := |b| - 1;
      TrimRightIs(s, b[..n]);
      assert (s + b)[..|s + b| - 1] == s + b[..n];
    }
  }

  lemma TrimIs(a: string, s: string, b: string)
    requires Blank(a) && Blank(b) && Solid(s)
    ensures Trim(a + s + b) == s
  {
    hide TrimLeft, TrimRight;
    assert a + s + b == a + (s + b) && (s + b)[0] == s[0];
    TrimLeftIs(a, s + b);
    TrimRightIs(s, b);
  }

  lemma {:induction false} TrimLeftSplits(s: string) returns (a: string)
    ensures s == a + TrimLeft(s) && Blank(a) && (TrimLeft(s) == "" || !IsSpace(TrimLeft(s)[0]))
  {
    a := "";
    if s != "" && IsSpace(s[0]) {
      var rest := TrimLeftSplits(s[1..]);
      a := [s[0]] + rest;
      assert s == [s[0]] + s[1..];
    }
  }

  lemma {:induction false} TrimRightSplits(s: string) returns (b: string)
    ensures s == TrimRight(s) + b && Blank(b)
    ensures TrimRight(s) == "" || !IsSpace(TrimRight(s)[|TrimRight(s)| - 1])
  {
    b := "";
    if s != "" && IsSpace(s[|s| - 1]) {
      var init, c := s[..|s| - 1], s[|s| - 1];
      var rest := TrimRightSplits(init);
      b := rest + [c];
      assert s == init + [c] == TrimRight(init) + b;
    }
  }

  lemma TrimSplits(s: string) returns (a: string, b: string)
    ensures s == a + Trim(s) + b && Blank(a) && Blank(b) && (Trim(s) == "" || Solid(Trim(s)))
  {
    hide TrimLeft, TrimRight;
    a := TrimLeftSplits(s);
    b := TrimRightSplits(TrimLeft(s));
    assert a + (Trim(s) + b) == a + Trim(s) + b;
    assert Trim(s) != "" ==> Trim(s)[0] == TrimLeft(s)[0];
  }

  lemma BlankHas(s: string, c: char)
    requires Blank(s) && !IsSpace(c)
    ensures c !in s
  {
  }

  lemma BlankConcat(a: string, b: string)
    requires Blank(a) && Blank(b)
    ensures Blank(a + b)
  {
  }

  lemma WrittenIsSolid(s: string, v: int)
    requires Written(s, v)
    ensures Solid(s) && '=' !in s && ',' !in s && s[0] != 'm' && '0' <= s[|s| - 1] <= '9'
  {
    var sign, k :| WrittenAs(s, v, sign, k);
    var z, d := Zeros(k), Decimal(Abs(v));
    assert s[|s| - 1] == d[|d| - 1];
    assert s[0] == if sign != "" then sign[0] else if k > 0 then z[0] else d[0];
  }

  // ---------- one bound ----------

  function KeyText(key: string, b: string, c: string, num: string): string {
    key + b + "=" + c + num
  }

  ghost predicate KeyedAs(part: string, key: string, n: int, a: string, b: string, c: string, num: string, d: string) {
    && part == a + KeyText(key, b, c, num) + d
    && Blank(a) && Blank(b) && Blank(c) && Blank(d) && Written(num, n) && 0 <= n <= MAX_INT
  }

  /** "key=number", with white space anywhere around the three. */
  ghost predicate Keyed(part: string, key: string, n: int) {
    exists a, b, c, num, d :: KeyedAs(part, key, n, a, b, c, num, d)
  }

  predicate IsKey(key: string) {
    key == "min" || key == "max"
  }

  function BoundFor(key: string, n: nat): Bound {
    if key == "min" then Min(n) else Max(n)
  }

  lemma KeyIsSolid(key: string)
    requires IsKey(key)
    ensures Solid(key) && '=' !in key && ',' !in key && key[0] == 'm'
  {
  }

  lemma KeyedIsBound(part: string, key: string, n: int, a: string, b: string, c: string, num: string, d: string)
    requires IsKey(key) && KeyedAs(part, key, n, a, b, c, num, d)
    ensures BoundOf(part) == Some(BoundFor(key, n))
  {
    hide Cut, Atoi, Trim;
    KeyIsSolid(key);
    WrittenIsSolid(num, n);
    AtoiIff(num, n);
    TrimIs(a, key, b);
    TrimIs(c, num, d);
    BlankHas(a, '=');
    BlankHas(b, '=');
    CutAt(a + key + b, '=', c + num + d);
    Regrouped(a, key, b, c, num, d);
  }

  lemma Regrouped(a: string, key: string, b: string, c: string, num: string, d: string)
    ensures a + KeyText(key, b, c, num) + d == (a + key + b) + ['='] + (c + num + d)
  {
  }

  lemma BoundIsKeyed(part: string, key: string, n: nat)
    requires IsKey(key) && BoundOf(part) == Some(BoundFor(key, n))
    ensures Keyed(part, key, n)
  {
    hide Atoi, Trim;
    var k, v := Cut(part, '=').value.0, Cut(part, '=').value.1;
    hide Cut;
    assert Trim(k) == key && Atoi(Trim(v)) == Some(n as int);
    hide BoundOf, Blank, Written, Solid;
    var a, b := TrimSplits(k);
    var c, d := TrimSplits(v);
    AtoiIff(Trim(v), n);
    Regrouped(a, key, b, c, Trim(v), d);
    assert KeyedAs(part, key, n, a, b, c, Trim(v), d);
  }

  /** A part is a bound exactly when it has that form. */
  lemma BoundIff(part: string, key: string, n: nat)
    requires IsKey(key)
    ensures BoundOf(part) == Some(BoundFor(key, n)) <==> Keyed(part, key, n)
  {
    hide BoundOf, Keyed;
    if BoundOf(part) == Some(BoundFor(key, n)) {
      BoundIsKeyed(part, key, n);
    }
    if Keyed(part, key, n) {
      var a, b, c, num, d := Unkeyed(part, key, n);
      KeyedIsBound(part, key, n, a, b, c, num, d);
    }
  }

  lemma Unkeyed(part: string, key: string, n: int) returns (a: string, b: string, c: string, num: string, d: string)
    requires Keyed(part, key, n)
    ensures KeyedAs(part, key, n, a, b, c, num, d)
  {
    a, b, c, num, d :| KeyedAs(part, key, n, a, b, c, num, d);
  }

  lemma KeyedPadded(x: string, part: string, y: string, key: string, n: int)
    requires Blank(x) && Blank(y) && Keyed(part, key, n)
    ensures Keyed(x + part + y, key, n)
  {
    hide Blank;
    var a, b, c, num, d := Unkeyed(part, key, n);
    BlankConcat(x, a);
    BlankConcat(d, y);
    assert x + part + y == (x + a) + KeyText(key, b, c, num) + (d + y);
    assert KeyedAs(x + part + y, key, n, x + a, b, c, num, d + y);
  }

  // ---------- whole specifications ----------

  ghost predicate ExactForm(body: string, n: int) {
    exists a, num, b :: body == a + num + b && Blank(a) && Blank(b) && Written(num, n) && 0 <= n <= MAX_INT
  }

  ghost predicate BothForm(body: string, lo: int, hi: int) {
    exists x, y :: body == x + "," + y && (
                     || (Keyed(x, "min", lo) && Keyed(y, "max", hi))
                     || (Keyed(x, "max", hi) && Keyed(y, "min", lo)))
  }

  /** The forms the documentation lists: "N", "min=N", "max=M", and both bounds in either order. */
  ghost predicate Documented(body: string, lo: int, hi: int) {
    || (ExactForm(body, lo) && hi == lo)
    || (Keyed(body, "min", lo) && hi == MAX_INT)
    || (Keyed(body, "max", hi) && lo == 0)
    || (BothForm(body, lo, hi) && lo <= hi)
  }

  lemma {:induction false} SplitAt(x: string, sep: char, y: string)
    requires sep !in x
    ensures Split(x + [sep] + y, sep) == [x] + Split(y, sep)
  {
    var s := x + [sep] + y;
    if x == "" {
      assert s[1..] == y;
    } else {
      SplitAt(x[1..], sep, y);
      assert s[1..] == x[1..] + [sep] + y && [x[0]] + x[1..] == x;
    }
  }

  function Join(parts: seq<string>, sep: char): string
    requires parts != []
  {
    if |parts| == 1 then parts[0] else parts[0] + [sep] + Join(parts[1..], sep)
  }

  /** Splitting loses nothing. */
  lemma {:induction false} JoinOfSplit(s: string, sep: char)
    ensures Join(Split(s, sep), sep) == s
  {
    if s != "" {
      JoinOfSplit(s[1..], sep);
      var rest := Split(s[1..], sep);
      var all := Split(s, sep);
      if s[0] == sep {
        assert all == [""] + rest && all[1..] == rest;
      } else {
        assert all == [[s[0]] + rest[0]] + rest[1..];
        assert all[1..] == rest[1..];
      }
      assert [s[0]] + s[1..] == s;
    }
  }

  // ---------- documented forms are read ----------

  lemma {:induction false} NotDigits(s: string, k: nat)
    requires k < |s| && !('0' <= s[k] <= '9')
    ensures Digits(s).None?
  {
    if k < |s| - 1 {
      assert s[..|s| - 1][k] == s[k];
      NotDigits(s[..|s| - 1], k);
    }
  }

  lemma KeyedIsNoNumber(s: string)
    requires s != "" && s[0] == 'm'
    ensures Atoi(s).None?
  {
    NotDigits(s, 0);
  }

  lemma SinglePart(x: string, b: Bound)
    requires BoundOf(x) == Some(b)
    ensures GoodParts([x])
    ensures if b.Min? then MinIs([x], b.n) && MaxIs([x], MAX_INT) else MinIs([x], 0) && MaxIs([x], b.n)
  {
    hide BoundOf;
    var parts := [x];
    assert BoundOf(parts[0]) == Some(b);
    assert HasBound(parts, b);
  }

  lemma BothParts(parts: seq<string>, i: nat, lo: nat, hi: nat)
    requires |parts| == 2 && i < 2 && BoundOf(parts[i]) == Some(Min(lo)) && BoundOf(parts[1 - i]) == Some(Max(hi))
    ensures GoodParts(parts) && MinIs(parts, lo) && MaxIs(parts, hi)
  {
    hide BoundOf;
    assert HasBound(parts, Min(lo)) && HasBound(parts, Max(hi));
    assert BoundOf(parts[0]).Some? && BoundOf(parts[1]).Some?;
  }

  lemma ExactIsRead(body: string, n: int)
    requires ExactForm(body, n)
    ensures Denotes(body, n, n)
  {
    hide Atoi, Trim;
    var a, num, b :| body == a + num + b && Blank(a) && Blank(b) && Written(num, n) && 0 <= n <= MAX_INT;
    WrittenIsSolid(num, n);
    TrimIs(a, num, b);
    AtoiIff(num, n);
  }

  /** The text of a bound without the white space around it. */
  lemma KeyTextIs(key: string, b: string, c: string, num: string, n: int)
    requires IsKey(key) && Blank(b) && Blank(c) && Written(num, n)
    ensures var t := KeyText(key, b, c, num); Solid(t) && t[0] == 'm' && ',' !in t
  {
    KeyIsSolid(key);
    WrittenIsSolid(num, n);
    BlankHas(b, ',');
    BlankHas(c, ',');
    hide Blank, IsSpace;
    var t := KeyText(key, b, c, num);
    assert t[0] == key[0] && t[|t| - 1] == num[|num| - 1];
    assert !IsSpace(num[|num| - 1]) && !IsSpace(key[0]);
  }

  lemma SingleIsRead(body: string, key: string, n: int)
    requires IsKey(key) && Keyed(body, key, n)
    ensures if key == "min" then n <= MAX_INT && Denotes(body, n, MAX_INT) else Denotes(body, 0, n)
  {
    hide Atoi, Trim, Split, BoundOf, GoodParts, MinIs, MaxIs, Blank, Written, IsSpace;
    var a, b, c, num, d := Unkeyed(body, key, n);
    var t := KeyText(key, b, c, num);
    KeyTextIs(key, b, c, num, n);
    TrimIs(a, t, d);
    KeyedIsNoNumber(t);
    SplitWhole(t, ',');
    NoBlank();
    assert t == "" + t + "";
    KeyedIsBound(t, key, n, "", b, c, num, "");
    SinglePart(t, BoundFor(key, n));
  }

  lemma NoBlank()
    ensures Blank("")
  {
  }

  lemma BothIsRead(x: string, y: string, key: string, m: int, n: int)
    requires IsKey(key) && Keyed(x, key, m) && Keyed(y, if key == "min" then "max" else "min", n)
    requires if key == "min" then m <= n else n <= m
    ensures if key == "min" then Denotes(x + "," + y, m, n) else Denotes(x + "," + y, n, m)
  {
    hide Atoi, Trim, Split, BoundOf, GoodParts, MinIs, MaxIs, Blank, Written, IsSpace, KeyText;
    var other := if key == "min" then "max" else "min";
    var a, b, c, num, d := Unkeyed(x, key, m);
    var a', b', c', num', d' := Unkeyed(y, other, n);
    var t, t' := KeyText(key, b, c, num), KeyText(other, b', c', num');
    KeyTextIs(key, b, c, num, m);
    KeyTextIs(other, b', c', num', n);
    var p, p' := t + d, a' + t';
    PairText(x, y, a, t, d, a', t', d');
    KeyedIsNoNumber(p + "," + p');
    NoBlank();
    assert p == "" + t + d && p' == a' + t' + "";
    KeyedIsBound(p, key, m, "", b, c, num, d);
    KeyedIsBound(p', other, n, a', b', c', num', "");
    if key == "min" {
      BothParts([p, p'], 0, m, n);
    } else {
      BothParts([p, p'], 1, n, m);
    }
  }

  lemma PairText(x: string, y: string, a: string, t: string, d: string, a': string, t': string, d': string)
    requires x == a + t + d && y == a' + t' + d' && Blank(a) && Blank(d) && Blank(a') && Blank(d')
    requires Solid(t) && Solid(t') && t[0] == 'm' && ',' !in t && ',' !in t'
    ensures var p, p' := t + d, a' + t';
            && Trim(x + "," + y) == p + "," + p' && Split(p + "," + p', ',') == [p, p'] && (p + "," + p')[0] == 'm'
  {
    hide Trim, Split;
    var p, p' := t + d, a' + t';
    BlankHas(d, ',');
    BlankHas(a', ',');
    hide Blank;
    var text := p + "," + p';
    assert x + "," + y == a + text + d';
    assert text[0] == t[0] && text[|text| - 1] == t'[|t'| - 1];
    TrimIs(a, text, d');
    SplitAt(p, ',', p');
    SplitWhole(p', ',');
  }

  lemma DocumentedIsRead(body: string, lo: int, hi: int)
    requires Documented(body, lo, hi)
    ensures Denotes(body, lo, hi)
  {
    hide Denotes, Keyed, ExactForm;
    if ExactForm(body, lo) && hi == lo {
      ExactIsRead(body, lo);
    } else if Keyed(body, "min", lo) && hi == MAX_INT {
      SingleIsRead(body, "min", lo);
    } else if Keyed(body, "max", hi) && lo == 0 {
      SingleIsRead(body, "max", hi);
    } else {
      var x, y :| body == x + "," + y && (
                    || (Keyed(x, "min", lo) && Keyed(y, "max", hi))
                    || (Keyed(x, "max", hi) && Keyed(y, "min", lo)));
      if Keyed(x, "min", lo) && Keyed(y, "max", hi) {
        BothIsRead(x, y, "min", lo, hi);
      } else {
        BothIsRead(x, y, "max", hi, lo);
      }
    }
  }

  // ---------- nothing else is ----------

  lemma ThreeClash(parts: seq<string>)
    requires |parts| > 2
    ensures !GoodParts(parts)
  {
    var x, y, z := BoundOf(parts[0]), BoundOf(parts[1]), BoundOf(parts[2]);
  }

  function KeyFor(b: Bound): string {
    if b.Min? then "min" else "max"
  }

  lemma PartIsKeyed(part: string)
    requires BoundOf(part).Some?
    ensures Keyed(part, KeyFor(BoundOf(part).value), BoundOf(part).value.n)
  {
    hide BoundOf;
    BoundIsKeyed(part, KeyFor(BoundOf(part).value), BoundOf(part).value.n);
  }

  lemma SingleIsDocumented(body: string, a: string, part: string, b: string, lo: int, hi: int)
    requires body == a + part + b && Blank(a) && Blank(b)
    requires GoodParts([part]) && MinIs([part], lo) && MaxIs([part], hi)
    ensures Documented(body, lo, hi)
  {
    assert BoundOf([part][0]).Some?;
    hide BoundOf, Keyed, ExactForm, BothForm, Blank, MinIs, MaxIs;
    var bound := BoundOf(part).value;
    PartIsKeyed(part);
    KeyedPadded(a, part, b, KeyFor(bound), bound.n);
    SinglePart(part, bound);
    SidesDetermined([part]);
  }

  lemma TwoBounds(parts: seq<string>, lo: int, hi: int) returns (i: nat)
    requires |parts| == 2 && GoodParts(parts) && MinIs(parts, lo) && MaxIs(parts, hi)
    ensures i < 2 && lo >= 0 && hi >= 0 && BoundOf(parts[i]) == Some(Min(lo)) && BoundOf(parts[1 - i]) == Some(Max(hi))
  {
    SidesDetermined(parts);
    var m, n := BoundOf(parts[0]), BoundOf(parts[1]);
    i := if m.value.Min? then 0 else 1;
    hide BoundOf, MinIs, MaxIs;
    BothParts(parts, i, BoundOf(parts[i]).value.n, BoundOf(parts[1 - i]).value.n);
  }

  lemma BothIsDocumented(body: string, a: string, parts: seq<string>, b: string, lo: int, hi: int)
    requires |parts| == 2 && body == a + (parts[0] + "," + parts[1]) + b && Blank(a) && Blank(b) && lo <= hi
    requires GoodParts(parts) && MinIs(parts, lo) && MaxIs(parts, hi)
    ensures Documented(body, lo, hi)
  {
    hide BoundOf, Keyed, ExactForm, Blank, MinIs, MaxIs, GoodParts;
    var i := TwoBounds(parts, lo, hi);
    PartIsKeyed(parts[0]);
    PartIsKeyed(parts[1]);
    NoBlank();
    KeyedPadded(a, parts[0], "", if i == 0 then "min" else "max", if i == 0 then lo else hi);
    KeyedPadded("", parts[1], b, if i == 0 then "max" else "min", if i == 0 then hi else lo);
    var x, y := a + parts[0], parts[1] + b;
    assert a + parts[0] + "" == x && "" + parts[1] + b == y && body == x + "," + y;
    assert BothForm(body, lo, hi);
  }

  lemma ReadIsDocumented(body: string, lo: int, hi: int)
    requires Denotes(body, lo, hi)
    ensures Documented(body, lo, hi)
  {
    hide Trim, Atoi, Split, GoodParts, MinIs, MaxIs, Keyed, BothForm, Documented, Blank;
    var text := Trim(body);
    var a, b := TrimSplits(body);
    if Atoi(text).Some? {
      AtoiIff(text, lo);
      assert ExactForm(body, lo);
      ExactIsDocumented(body, lo);
    } else {
      var parts := Split(text, ',');
      JoinOfSplit(text, ',');
      if |parts| > 2 {
        ThreeClash(parts);
      } else if |parts| == 1 {
        assert parts == [text];
        SingleIsDocumented(body, a, text, b, lo, hi);
      } else {
        assert parts[1..] == [parts[1]] && text == parts[0] + [','] + parts[1];
        BothIsDocumented(body, a, parts, b, lo, hi);
      }
    }
  }

  lemma ExactIsDocumented(body: string, n: int)
    requires ExactForm(body, n)
    ensures Documented(body, n, n)
  {
  }

  /** A text allows the lengths from lo to hi exactly when it is one of the documented forms for that range. */
  lemma DenotesIff(body: string, lo: int, hi: int)
    ensures Denotes(body, lo, hi) <==> Documented(body, lo, hi)
  {
    hide Denotes, Documented;
    if Denotes(body, lo, hi) {
      ReadIsDocumented(body, lo, hi);
    }
    if Documented(body, lo, hi) {
      DocumentedIsRead(body, lo, hi);
    }
  }

  /** The plainest texts of each form. */
  lemma PlainForms(n: nat, m: nat)
    requires n <= m <= MAX_INT
    ensures Denotes(Decimal(n), n, n)
    ensures Denotes("min=" + Decimal(n), n, MAX_INT) && Denotes("max=" + Decimal(m), 0, m)
    ensures Denotes("min=" + Decimal(n) + ",max=" + Decimal(m), n, m)
  {
    hide Denotes, Written, BothForm, ExactForm;
    hide Keyed;
    PlainKey("min", n);
    PlainKey("max", m);
    assert "min" + "=" == "min=" && "max" + "=" == "max=";
    PlainExact(n);
    DenotesIff(Decimal(n), n, n);
    DenotesIff("min=" + Decimal(n), n, MAX_INT);
    DenotesIff("max=" + Decimal(m), 0, m);
    var both := "min=" + Decimal(n) + ",max=" + Decimal(m);
    assert both == ("min=" + Decimal(n)) + "," + ("max=" + Decimal(m));
    PlainBoth("min=" + Decimal(n), "max=" + Decimal(m), n, m);
    DenotesIff(both, n, m);
  }

  lemma PlainNumber(n: nat)
    ensures Written(Decimal(n), n)
  {
    assert "" + Zeros(0) + Decimal(n) == Decimal(n);
    assert WrittenAs(Decimal(n), n, "", 0);
  }

  lemma PlainExact(n: nat)
    requires n <= MAX_INT
    ensures ExactForm(Decimal(n), n)
  {
    PlainNumber(n);
    assert Decimal(n) == "" + Decimal(n) + "" && Blank("");
  }

  lemma PlainKey(key: string, n: nat)
    requires n <= MAX_INT
    ensures Keyed(key + "=" + Decimal(n), key, n)
  {
    PlainNumber(n);
    NoBlank();
    hide Written;
    assert key + "=" + Decimal(n) == "" + KeyText(key, "", "", Decimal(n)) + "";
    assert KeyedAs(key + "=" + Decimal(n), key, n, "", "", "", Decimal(n), "");
  }

  lemma PlainBoth(x: string, y: string, n: int, m: int)
    requires Keyed(x, "min", n) && Keyed(y, "max", m)
    ensures BothForm(x + "," + y, n, m)
  {
  }
}
