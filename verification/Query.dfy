/** Matching of query parameter lists: `Query` with regexps, and the sort-and-compare of the plain constraint. */
module Query {
  import opened Wrappers
  import opened ArrayLen
  import opened Json
  import opened Matching

  /** The regexp in a `$matchRegexp(...)` value. */
  function Pattern(e: string): Option<string> {
    match LeafMatchType(Str(e))
    case Regex(p) => Some(p)
    case _ => None
  }

  predicate Broken(eng: Engine, e: string) {
    Pattern(e).Some? && !eng.compiles(Pattern(e).value)
  }

  predicate Agrees(eng: Engine, e: string, a: string) {
    match Pattern(e)
    case Some(p) => eng.matches(p, a)
    case None => e == a
  }

  // ---------- what a pair of values must be ----------

  /** The value is a matcher for the regexp t. */
  predicate IsRegexp(e: string, t: string) {
    e == "$matchRegexp(" + t + ")" && t != "" && '\n' !in t
  }

  /** A matcher fits what its regexp matches; any other value fits its equal. */
  ghost predicate Fits(eng: Engine, e: string, a: string) {
    if exists t :: IsRegexp(e, t) then exists t :: IsRegexp(e, t) && eng.matches(t, a) else e == a
  }

  lemma PatternIs(e: string, t: string)
    ensures Pattern(e) == Some(t) <==> IsRegexp(e, t)
  {
    MatcherForms(Str(e), t);
  }

  /** The code pairs exactly the values that fit. */
  lemma AgreesIffFits(eng: Engine, e: string, a: string)
    ensures Agrees(eng, e, a) <==> Fits(eng, e, a)
  {
    hide Pattern, IsRegexp;
    if Pattern(e).Some? {
      PatternIs(e, Pattern(e).value);
    }
    forall t | IsRegexp(e, t) ensures Pattern(e) == Some(t) {
      PatternIs(e, t);
    }
  }

  lemma BrokenIff(eng: Engine, e: string)
    ensures Broken(eng, e) <==> exists t :: IsRegexp(e, t) && !eng.compiles(t)
  {
    hide Pattern, IsRegexp;
    if Pattern(e).Some? {
      PatternIs(e, Pattern(e).value);
    }
    forall t | IsRegexp(e, t) ensures Pattern(e) == Some(t) {
      PatternIs(e, t);
    }
  }

  /** The pairs fit, and nothing that fits is left over on both sides. */
  ghost predicate Exhausts(eng: Engine, expected: seq<string>, actual: seq<string>, q: Pairing) {
    && q.Valid()
    && (forall i | i in q.to ::
          0 <= i < |expected| && 0 <= q.to[i] < |actual| && Fits(eng, expected[i], actual[q.to[i]]))
    && (forall i, j | 0 <= i < |expected| && 0 <= j < |actual| && i !in q.to && j !in q.from ::
          !Fits(eng, expected[i], actual[j]))
  }

  /** A positive verdict pairs all values one to one with values they fit; a negative one leaves an expected value
      without a partner although nothing left over fits. */
  ghost predicate Shown(eng: Engine, expected: seq<string>, actual: seq<string>, ok: bool) {
    exists q :: Exhausts(eng, expected, actual, q) && (ok <==> Bijection(q, |expected|))
  }

  ghost function Agreement(eng: Engine, expected: seq<string>, actual: seq<string>): (m: Matrix)
  {
    seq(|expected|, i requires 0 <= i < |expected| =>
      seq(|actual|, j requires 0 <= j < |actual| => Agrees(eng, expected[i], actual[j])))
  }

  datatype Verdict = LengthsDiffer | BadRegexp | Matched(ok: bool)

  datatype Scan = Found(i: nat, j: nat) | Nothing | Invalid

  /** The nested scan for the first agreeing pair among the first n cells. */
  method FindPair(eng: Engine, expected: array<string>, actual: array<string>, n: nat) returns (s: Scan)
    requires 0 < n <= expected.Length && n <= actual.Length
    ensures s.Found? ==> s.i < n && s.j < n && Agrees(eng, expected[s.i], actual[s.j]) && !Broken(eng, expected[s.i])
    ensures s.Invalid? ==> exists i | 0 <= i < n :: Broken(eng, expected[i])
    ensures s.Nothing? ==> forall i | 0 <= i < n ::
                !Broken(eng, expected[i]) && forall j | 0 <= j < n :: !Agrees(eng, expected[i], actual[j])
  {
    for i := 0 to n
      invariant forall k | 0 <= k < i ::
          !Broken(eng, expected[k]) && forall j | 0 <= j < n :: !Agrees(eng, expected[k], actual[j])
    {
      for j := 0 to n
        invariant j > 0 ==> !Broken(eng, expected[i])
        invariant forall k | 0 <= k < j :: !Agrees(eng, expected[i], actual[k])
      {
        if Broken(eng, expected[i]) {
          return Invalid;
        }
        if Agrees(eng, expected[i], actual[j]) {
          return Found(i, j);
        }
      }
    }
    return Nothing;
  }

  ghost predicate Names(cells: seq<string>, idx: seq<int>, original: seq<string>) {
    |cells| == |idx| && forall k | 0 <= k < |idx| :: 0 <= idx[k] < |original| && cells[k] == original[idx[k]]
  }

  lemma NamesAfterRemoval(cells: seq<string>, idx: seq<int>, original: seq<string>, k: nat)
    requires Names(cells, idx, original) && k < |cells|
    ensures Names(SwapRemove(cells, k), SwapRemove(idx, k), original)
  {
  }

  ghost predicate PlainList(expected: seq<string>) {
    forall i | 0 <= i < |expected| :: Pattern(expected[i]).None?
  }

  /** The loop invariant of `Query`: `es` and `others` are what is left of the two copies. */
  ghost predicate Midway(eng: Engine, expected: seq<string>, actual: seq<string>, es: seq<string>, others: seq<string>,
                         rows: seq<int>, cols: seq<int>, q: Pairing) {
    && Names(es, rows, expected) && Names(others, cols, actual)
    && Underway(Agreement(eng, expected, actual), q, rows, cols)
    && (forall x | 0 <= x < |expected| && x !in rows :: !Broken(eng, expected[x]))
    && (PlainList(expected) ==> (multiset(es) == multiset(others) <==> multiset(expected) == multiset(actual)))
  }

  lemma MidwayStart(eng: Engine, expected: seq<string>, actual: seq<string>)
    requires |expected| == |actual|
    ensures Midway(eng, expected, actual, expected, actual, Indices(|expected|), Indices(|expected|),
                   Pairing(map[], map[]))
  {
    UnderwayStart(Agreement(eng, expected, actual));
    forall x | 0 <= x < |expected| ensures x in Indices(|expected|) {
      assert Indices(|expected|)[x] == x;
    }
  }

  lemma MidwayTake(eng: Engine, expected: seq<string>, actual: seq<string>, es: seq<string>, others: seq<string>,
                   rows: seq<int>, cols: seq<int>, q: Pairing, i: nat, j: nat)
    requires Midway(eng, expected, actual, es, others, rows, cols, q)
    requires i < |es| && j < |others| && Agrees(eng, es[i], others[j]) && !Broken(eng, es[i])
    ensures i < |rows| && j < |cols|
    ensures Midway(eng, expected, actual, SwapRemove(es, i), SwapRemove(others, j),
                   SwapRemove(rows, i), SwapRemove(cols, j), Add(q, rows[i], cols[j]))
  {
    var m := Agreement(eng, expected, actual);
    assert Links(m, rows[i], cols[j]);
    UnderwayTake(m, q, rows, cols, i, j);
    SwapRemoveDistinct(rows, i);
    NamesAfterRemoval(es, rows, expected, i);
    NamesAfterRemoval(others, cols, actual, j);
    if PlainList(expected) {
      assert Pattern(expected[rows[i]]).None?;
      BagsAfterRemoval(es, others, i, j);
    }
  }

  lemma BagsAfterRemoval(es: seq<string>, others: seq<string>, i: nat, j: nat)
    requires i < |es| && j < |others| && es[i] == others[j]
    ensures multiset(SwapRemove(es, i)) == multiset(SwapRemove(others, j)) <==> multiset(es) == multiset(others)
  {
    SwapRemoveBag(es, i);
    SwapRemoveBag(others, j);
    var x := es[i];
    assert multiset(es) == multiset(es) - multiset{x} + multiset{x};
    assert multiset(others) == multiset(others) - multiset{x} + multiset{x};
  }

  /** What the verdict says about the two lists. */
  ghost predicate Justified(eng: Engine, expected: seq<string>, actual: seq<string>, ok: bool) {
    var m := Agreement(eng, expected, actual);
    && (exists q :: IsMaximal(m, q) && (ok <==> IsPerfect(m, q)))
    && (PlainList(expected) ==> (ok <==> multiset(expected) == multiset(actual)))
  }

  lemma MidwayEnd(eng: Engine, expected: seq<string>, actual: seq<string>, es: seq<string>, others: seq<string>,
                  rows: seq<int>, cols: seq<int>, q: Pairing)
    requires |expected| == |actual| && |es| == |others| && Midway(eng, expected, actual, es, others, rows, cols, q)
    requires forall i | 0 <= i < |es| ::
               !Broken(eng, es[i]) && forall j | 0 <= j < |es| :: !Agrees(eng, es[i], others[j])
    ensures Justified(eng, expected, actual, es == [])
    ensures forall x | 0 <= x < |expected| :: !Broken(eng, expected[x])
  {
    var m := Agreement(eng, expected, actual);
    forall x, y | x in rows && y in cols ensures !Links(m, x, y) {
      var i :| 0 <= i < |rows| && rows[i] == x;
      var j :| 0 <= j < |cols| && cols[j] == y;
    }
    UnderwayDone(m, q, rows, cols);
    if es != [] && PlainList(expected) {
      assert Pattern(expected[rows[0]]).None?;
      assert es[0] in multiset(es) && es[0] !in others;
    }
    forall x | 0 <= x < |expected| ensures !Broken(eng, expected[x]) {
      if x in rows {
        var i :| 0 <= i < |rows| && rows[i] == x;
      }
    }
  }

  lemma JustifiedIsShown(eng: Engine, expected: seq<string>, actual: seq<string>, ok: bool)
    requires |expected| == |actual| && Justified(eng, expected, actual, ok)
    ensures Shown(eng, expected, actual, ok)
  {
    var m := Agreement(eng, expected, actual);
    var q :| IsMaximal(m, q) && (ok <==> IsPerfect(m, q));
    hide Agrees, Fits;
    FitLinks(eng, expected, actual);
    hide Agreement;
    assert Exhausts(eng, expected, actual, q);
  }

  method Copy(source: array<string>) returns (copy: array<string>)
    ensures fresh(copy) && copy[..] == source[..]
  {
    copy := new string[source.Length](i requires 0 <= i < source.Length reads source => source[i]);
    assert copy[..] == source[..];
  }

  /** Moves the last of the first n cells over cell i. */
  method Remove(cells: array<string>, n: nat, i: nat)
    requires i < n <= cells.Length
    modifies cells
    ensures cells[..n - 1] == SwapRemove(old(cells[..n]), i)
  {
    cells[i] := cells[n - 1];
  }

  /** Swap-removal of one agreeing pair after another from the two copies, until none is left. */
  method Drain(eng: Engine, es: array<string>, others: array<string>, ghost want: seq<string>,
               ghost got: seq<string>) returns (r: Verdict)
    requires es != others && es.Length == others.Length && es[..] == want && others[..] == got
    modifies es, others
    ensures !r.LengthsDiffer?
    ensures r.BadRegexp? <==> exists i | 0 <= i < |want| :: Broken(eng, want[i])
    ensures r.Matched? ==> Justified(eng, want, got, r.ok)
  {
    hide Midway, Justified, Broken, Agrees, SwapRemove, Indices;
    var n := es.Length;
    ghost var rows, cols, q := Indices(n), Indices(n), Pairing(map[], map[]);
    assert es[..n] == want && others[..n] == got;
    MidwayStart(eng, want, got);
    while n != 0
      invariant n <= es.Length
      invariant Midway(eng, want, got, es[..n], others[..n], rows, cols, q)
    {
      var s := FindPair(eng, es, others, n);
      if s.Invalid? {
        StillBroken(eng, want, got, es[..n], others[..n], rows, cols, q);
        return BadRegexp;
      }
      if s.Nothing? {
        MidwayEnd(eng, want, got, es[..n], others[..n], rows, cols, q);
        return Matched(false);
      }
      MidwayTake(eng, want, got, es[..n], others[..n], rows, cols, q, s.i, s.j);
      q, rows, cols := Add(q, rows[s.i], cols[s.j]), SwapRemove(rows, s.i), SwapRemove(cols, s.j);
      Remove(es, n, s.i);
      Remove(others, n, s.j);
      n := n - 1;
    }
    MidwayEnd(eng, want, got, es[..n], others[..n], rows, cols, q);
    return Matched(true);
  }

  /** Both input lists stay as they are. */
  method Query(eng: Engine, expected: array<string>, actual: array<string>) returns (r: Verdict)
    ensures r.LengthsDiffer? <==> expected.Length != actual.Length
    ensures r.BadRegexp? <==>
            && expected.Length == actual.Length
            && exists i, t | 0 <= i < expected.Length :: IsRegexp(expected[..][i], t) && !eng.compiles(t)
    ensures r.Matched? ==> Shown(eng, expected[..], actual[..], r.ok)
    ensures r.Matched? ==> Justified(eng, expected[..], actual[..], r.ok)
  {
    hide Justified, Broken, Shown;
    if expected.Length != actual.Length {
      return LengthsDiffer;
    }
    ghost var want, got := expected[..], actual[..];
    var es := Copy(expected);
    var others := Copy(actual);
    assert es.Length == |es[..]| == |expected[..]| && others.Length == |others[..]|;
    r := Drain(eng, es, others, want, got);
    assert expected[..] == want && actual[..] == got;
    SomeBroken(eng, want);
    if r.Matched? {
      JustifiedIsShown(eng, want, got, r.ok);
    }
  }

  lemma SomeBroken(eng: Engine, expected: seq<string>)
    ensures (exists i | 0 <= i < |expected| :: Broken(eng, expected[i])) <==>
            exists i, t | 0 <= i < |expected| :: IsRegexp(expected[i], t) && !eng.compiles(t)
  {
    hide Broken, IsRegexp;
    forall i | 0 <= i < |expected|
      ensures Broken(eng, expected[i]) <==> exists t :: IsRegexp(expected[i], t) && !eng.compiles(t)
    {
      BrokenIff(eng, expected[i]);
    }
  }

  lemma StillBroken(eng: Engine, expected: seq<string>, actual: seq<string>, es: seq<string>, others: seq<string>,
                    rows: seq<int>, cols: seq<int>, q: Pairing)
    requires Midway(eng, expected, actual, es, others, rows, cols, q)
    requires exists i | 0 <= i < |es| :: Broken(eng, es[i])
    ensures exists i | 0 <= i < |expected| :: Broken(eng, expected[i])
  {
    var i :| 0 <= i < |es| && Broken(eng, es[i]);
    assert expected[rows[i]] == es[i];
  }

  /** If values that share a fitting value fit the same values, the verdict is positive exactly when all values can be
      paired one to one with values they fit. */
  lemma QueryExact(eng: Engine, expected: seq<string>, actual: seq<string>, ok: bool)
    requires |expected| == |actual| && Justified(eng, expected, actual, ok)
    requires forall x, y, a, b | x in expected && y in expected && a in actual && b in actual &&
                                 Fits(eng, x, a) && Fits(eng, y, a) && Fits(eng, y, b) :: Fits(eng, x, b)
    ensures ok <==> exists q :: FitsBy(eng, expected, actual, q)
  {
    hide Agrees, Fits, Agreement, IsPerfect, IsMaximal, Difunctional;
    var m := Agreement(eng, expected, actual);
    var q :| IsMaximal(m, q) && (ok <==> IsPerfect(m, q));
    FitsDifunctional(eng, expected, actual);
    AgreementSquare(eng, expected, actual);
    DifunctionalOutcome(m, q);
    forall q ensures IsPerfect(m, q) <==> FitsBy(eng, expected, actual, q) {
      PerfectIff(eng, expected, actual, q);
    }
  }

  ghost predicate FitsBy(eng: Engine, expected: seq<string>, actual: seq<string>, q: Pairing)
    requires |expected| == |actual|
  {
    Bijection(q, |expected|) && forall i | 0 <= i < |expected| :: Fits(eng, expected[i], actual[q.to[i]])
  }

  lemma AgreementSquare(eng: Engine, expected: seq<string>, actual: seq<string>)
    requires |expected| == |actual|
    ensures Square(Agreement(eng, expected, actual))
  {
  }

  lemma FitsDifunctional(eng: Engine, expected: seq<string>, actual: seq<string>)
    requires forall x, y, a, b | x in expected && y in expected && a in actual && b in actual &&
                                 Fits(eng, x, a) && Fits(eng, y, a) && Fits(eng, y, b) :: Fits(eng, x, b)
    ensures Difunctional(Agreement(eng, expected, actual))
  {
    hide Agrees, Fits;
    FitLinks(eng, expected, actual);
    hide Agreement, Links;
  }

  lemma PerfectIff(eng: Engine, expected: seq<string>, actual: seq<string>, q: Pairing)
    requires |expected| == |actual|
    ensures IsPerfect(Agreement(eng, expected, actual), q) <==> FitsBy(eng, expected, actual, q)
  {
    hide Agrees, Fits;
    assert |Agreement(eng, expected, actual)| == |expected|;
    FitLinks(eng, expected, actual);
    hide Agreement, Links;
  }

  lemma FitLinks(eng: Engine, expected: seq<string>, actual: seq<string>)
    ensures forall i, j :: Links(Agreement(eng, expected, actual), i, j) <==>
                           0 <= i < |expected| && 0 <= j < |actual| && Fits(eng, expected[i], actual[j])
  {
    hide Agrees, Fits;
    forall i, j ensures Links(Agreement(eng, expected, actual), i, j) <==>
                        0 <= i < |expected| && 0 <= j < |actual| && Fits(eng, expected[i], actual[j])
    {
      if 0 <= i < |expected| && 0 <= j < |actual| {
        AgreesIffFits(eng, expected[i], actual[j]);
      }
    }
  }

  // ---------- sort and compare ----------

  /** Byte-wise lexicographic order, the order of `sort.Strings`. */
  predicate Leq(s: string, t: string) {
    s == "" || (t != "" && (s[0] < t[0] || (s[0] == t[0] && Leq(s[1..], t[1..]))))
  }

  lemma {:induction false} LeqAntisymmetric(s: string, t: string)
    requires Leq(s, t) && Leq(t, s)
    ensures s == t
  {
    if s != "" {
      LeqAntisymmetric(s[1..], t[1..]);
      assert s == [s[0]] + s[1..] && t == [t[0]] + t[1..];
    }
  }

  ghost predicate Sorted(s: seq<string>) {
    forall i, j | 0 <= i <= j < |s| :: Leq(s[i], s[j])
  }

  lemma SameFirst(s: seq<string>, t: seq<string>)
    requires Sorted(s) && Sorted(t) && s != [] && t != [] && multiset(s) == multiset(t)
    ensures s[0] == t[0]
  {
    assert s[0] in multiset(t) && t[0] in multiset(s);
    var i :| 0 <= i < |t| && t[i] == s[0];
    var j :| 0 <= j < |s| && s[j] == t[0];
    assert Leq(t[0], t[i]) && Leq(s[0], s[j]);
    LeqAntisymmetric(s[0], t[0]);
  }

  lemma RestBag(s: seq<string>)
    requires s != []
    ensures multiset(s[1..]) == multiset(s) - multiset{s[0]}
  {
    assert s == [s[0]] + s[1..];
  }

  lemma {:induction false} SortedUnique(s: seq<string>, t: seq<string>)
    requires Sorted(s) && Sorted(t) && multiset(s) == multiset(t)
    ensures s == t
  {
    hide Leq;
    assert |multiset(s)| == |s| && |multiset(t)| == |t|;
    if s != [] {
      SameFirst(s, t);
      var s', t' := s[1..], t[1..];
      RestBag(s);
      RestBag(t);
      assert Sorted(s') && Sorted(t');
      SortedUnique(s', t');
      assert s == [s[0]] + s' && t == [t[0]] + t';
    }
  }

  /** Sorting both plain lists and comparing them decides as `Query` does. */
  lemma SortAndCompareAgrees(eng: Engine, want: seq<string>, got: seq<string>, want': seq<string>, got': seq<string>,
                             ok: bool)
    requires Sorted(want') && multiset(want') == multiset(want)
    requires Sorted(got') && multiset(got') == multiset(got)
    requires PlainList(want) && |want| == |got| && Justified(eng, want, got, ok)
    ensures want' == got' <==> ok
  {
    if multiset(want) == multiset(got) {
      SortedUnique(want', got');
    }
  }
}
