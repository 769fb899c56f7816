/** The comparison as the code runs it: recursive methods with loops, a fail-fast mode, a greedy matcher that
    swap-removes from a buffer, and map keys visited in any order. */
module Compare {
  import opened Wrappers
  import opened ArrayLen
  import opened Json
  import opened Matching
  import opened Acceptance

  datatype Step = At(i: int) | Field(k: string)

  datatype Issue =
    | TypesDiffer | ValuesDiffer
    | RegexInvalid | RegexMismatch
    | ArrayLengthsDiffer | MapLengthsDiffer | KeyMissing(key: string)
    | SpecInvalid | NotAnArray | LengthOutOfBounds

  /** One reported error: where, and what is wrong there. */
  datatype Error = Error(path: seq<Step>, issue: Issue)

  // ---------- what a full comparison reports ----------

  predicate LeafIssue(eng: Engine, e: Value, a: Value, issue: Issue) {
    match LeafMatchType(e)
    case Regex(pattern) =>
      if !eng.compiles(pattern) then issue == RegexInvalid
      else !eng.matches(pattern, Render(eng, a)) && issue == RegexMismatch
    case _ => e != a && issue == ValuesDiffer
  }

  ghost predicate LengthIssue(spec: string, a: Value, issue: Issue) {
    if forall lo, hi :: !Denotes(spec, lo, hi) then issue == SpecInvalid
    else if !a.Arr? then issue == NotAnArray
    else !LengthAccepts(spec, a) && issue == LengthOutOfBounds
  }

  /** What reflection gives as the length: of a map its keys, of a string its bytes. */
  function Size(e: Value): nat {
    match e
    case Obj(fields) => |fields|
    case _ => |Elems(e)|
  }

  /** What is wrong at this very node. */
  ghost predicate OwnIssue(eng: Engine, p: Flags, e: Value, a: Value, issue: Issue) {
    var mt := LeafMatchType(e);
    if mt.Length? then LengthIssue(mt.spec, a, issue)
    else if mt.Pure? && KindOf(e) != KindOf(a) then issue == TypesDiffer
    else match a
         case Arr(items) => |Elems(e)| != |items| && issue == ArrayLengthsDiffer
         case Obj(fields) =>
           if p.disallowExtra && Size(e) != |fields| then issue == MapLengthsDiffer
           else e.Obj? && issue.KeyMissing? && issue.key in e.fields && issue.key !in fields
         case _ => !p.ignoreValues && LeafIssue(eng, e, a, issue)
  }

  /** The children that are compared: all pairs in order, or the leftovers of the greedy matcher. */
  ghost function Remaining(eng: Engine, p: Flags, e: Value, items: seq<Value>): (seq<int>, seq<int>)
    requires !LeafMatchType(e).Length?
  {
    if p.unordered then
      var g := Greedy(Verdicts(eng, p, e, items), 0, Indices(|items|));
      (g.left, g.free)
    else (Indices(|items|), Indices(|items|))
  }

  /** A node's own issues are found on the way down the given path. */
  ghost predicate Reports(eng: Engine, p: Flags, e: Value, a: Value, path: seq<Step>, issue: Issue)
    decreases Rank(e), e
  {
    if path == [] then OwnIssue(eng, p, e, a, issue)
    else if LeafMatchType(e).Length? || (LeafMatchType(e).Pure? && KindOf(e) != KindOf(a)) then false
    else match path[0]
         case At(i) =>
           && a.Arr? && |Elems(e)| == |a.items|
           && var (l, r) := Remaining(eng, p, e, a.items);
           && 0 <= i < |l| && i < |r| && 0 <= l[i] < |Elems(e)| && 0 <= r[i] < |a.items|
           && Reports(eng, p, Elems(e)[l[i]], a.items[r[i]], path[1..], issue)
         case Field(k) =>
           && a.Obj? && e.Obj? && (p.disallowExtra ==> |e.fields| == |a.fields|)
           && k in e.fields && k in a.fields
           && Reports(eng, p, e.fields[k], a.fields[k], path[1..], issue)
  }

  ghost predicate NoRepeats(errs: seq<Error>) {
    forall i, j | 0 <= i < j < |errs| :: errs[i] != errs[j]
  }

  lemma NoRepeatsConcat(errs: seq<Error>, more: seq<Error>)
    requires NoRepeats(errs) && NoRepeats(more) && forall x | x in errs :: x !in more
    ensures NoRepeats(errs + more)
  {
    var all := errs + more;
    forall i, j | 0 <= i < j < |all| ensures all[i] != all[j] {
      if i < |errs| <= j {
        assert all[i] in errs && all[j] in more;
      }
    }
  }

  /** The list holds exactly the reported issues, once each, with their paths below `base`. */
  ghost predicate Exactly(eng: Engine, p: Flags, base: seq<Step>, e: Value, a: Value, errs: seq<Error>) {
    && (forall x | x in errs :: base <= x.path && Reports(eng, p, e, a, x.path[|base|..], x.issue))
    && (forall path, issue | Reports(eng, p, e, a, path, issue) :: Error(base + path, issue) in errs)
    && NoRepeats(errs)
  }

  // ---------- where the code is defined ----------

  /** The node passes the type check and goes on to its children. */
  ghost predicate Descends(e: Value, a: Value) {
    !LeafMatchType(e).Length? && (LeafMatchType(e).Regex? || KindOf(e) == KindOf(a))
  }

  /** The i-th pair of an ordered comparison is reached: under fail-fast only if all before it agree. */
  ghost predicate Reached(eng: Engine, p: Flags, failFast: bool, es: seq<Value>, items: seq<Value>, i: nat)
    requires i < |es| && i < |items|
  {
    failFast ==> forall j | 0 <= j < i :: Accepts(eng, p, es[j], items[j])
  }

  /** No `$matchRegexp` expectation meets an object in any comparison that is made, unless the length check comes
      first and differs: the code would ask a string for its map keys. */
  ghost predicate NoPanic(eng: Engine, p: Flags, failFast: bool, e: Value, a: Value)
    decreases Rank(e), e, 1
  {
    Descends(e, a) ==>
      match a
      case Obj(fields) =>
        || (p.disallowExtra && Size(e) != |fields|)
        || (e.Obj? && forall k | k in e.fields && k in fields :: NoPanic(eng, p, failFast, e.fields[k], fields[k]))
      case Arr(items) =>
        |Elems(e)| == |items| ==>
          if p.unordered then
            && ScanSafe(eng, p, failFast, e, items, 0, Indices(|items|))
            && (!failFast ==>
                  var (l, r) := Remaining(eng, p, e, items);
                  forall i | 0 <= i < |l| && i < |r| && 0 <= l[i] < |items| && 0 <= r[i] < |items| ::
                    NoPanic(eng, p, false, Elems(e)[l[i]], items[r[i]]))
          else
            forall i | 0 <= i < |items| && Reached(eng, p, failFast, Elems(e), items, i) ::
              NoPanic(eng, p, failFast, Elems(e)[i], items[i])
      case _ => true
  }

  /** The same for the comparisons the matcher makes from the i-th expected element on. */
  ghost predicate ScanSafe(eng: Engine, p: Flags, failFast: bool, e: Value, items: seq<Value>, i: nat, rem: seq<int>)
    requires !LeafMatchType(e).Length? && i <= |Elems(e)|
    decreases Rank(e), e, 0, |Elems(e)| - i
  {
    i < |Elems(e)| ==>
      var k := FirstLink(Verdicts(eng, p, e, items)[i], rem);
      && (forall j | 0 <= j < |rem| && j <= k && 0 <= rem[j] < |items| ::
            NoPanic(eng, p, true, Elems(e)[i], items[rem[j]]))
      && if k < |rem| then ScanSafe(eng, p, failFast, e, items, i + 1, SwapRemove(rem, k))
         else !failFast ==> ScanSafe(eng, p, failFast, e, items, i + 1, rem)
  }

  // ---------- leaves ----------

  /** Called with a matcher-free or regexp expectation only, so "unknown compare type" is never reached. */
  method CompareLeafs(eng: Engine, path: seq<Step>, e: Value, a: Value) returns (errs: seq<Error>)
    requires Scalar(a) && !LeafMatchType(e).Length?
    ensures |errs| <= 1 && (errs == [] <==> LeafAccepts(eng, e, a))
    ensures errs != [] ==> errs[0].path == path && LeafIssue(eng, e, a, errs[0].issue)
  {
    match LeafMatchType(e)
    case Pure => errs := if e != a then [Error(path, ValuesDiffer)] else [];
    case Regex(pattern) =>
      if !eng.compiles(pattern) {
        return [Error(path, RegexInvalid)];
      }
      errs := if !eng.matches(pattern, Render(eng, a)) then [Error(path, RegexMismatch)] else [];
    case Length(_) => assert false;
  }

  method CompareArrayLen(path: seq<Step>, spec: string, a: Value) returns (errs: seq<Error>)
    ensures |errs| <= 1 && (errs == [] <==> LengthAccepts(spec, a))
    ensures errs != [] ==> errs[0].path == path && LengthIssue(spec, a, errs[0].issue)
  {
    hide Denotes;
    var range := ParseArrayLenSpec(spec);
    if range.None? {
      return [Error(path, SpecInvalid)];
    }
    if !a.Arr? {
      return [Error(path, NotAnArray)];
    }
    var got, lo, hi := |a.items|, range.value.0, range.value.1;
    forall l, h | Denotes(spec, l, h) ensures l == lo && h == hi {
      DenotesUnique(spec, lo, hi, l, h);
    }
    errs := if got < lo || got > hi then [Error(path, LengthOutOfBounds)] else [];
  }

  // ---------- the greedy matcher ----------

  function Pick(s: seq<Value>, idx: seq<int>): (r: seq<Value>)
    ensures |r| == |idx|
    ensures forall k | 0 <= k < |idx| && 0 <= idx[k] < |s| :: r[k] == s[idx[k]]
  {
    seq(|idx|, k requires 0 <= k < |idx| => if 0 <= idx[k] < |s| then s[idx[k]] else Null)
  }

  /** The first `len` cells of the buffer hold the original items named by `rem`. */
  ghost predicate Holds(buf: seq<Value>, rem: seq<int>, items: seq<Value>) {
    |buf| == |rem| && forall k | 0 <= k < |rem| :: 0 <= rem[k] < |items| && buf[k] == items[rem[k]]
  }

  /** The comparisons of the i-th expected element with the items up to its partner are safe. */
  ghost predicate RowSafe(eng: Engine, p: Flags, e: Value, items: seq<Value>, i: nat, rem: seq<int>)
    requires !LeafMatchType(e).Length? && i < |Elems(e)|
  {
    forall j | 0 <= j < |rem| && j <= FirstLink(Verdicts(eng, p, e, items)[i], rem) && 0 <= rem[j] < |items| ::
      NoPanic(eng, p, true, Elems(e)[i], items[rem[j]])
  }

  lemma ScanSafeRow(eng: Engine, p: Flags, failFast: bool, e: Value, items: seq<Value>, i: nat, rem: seq<int>)
    requires !LeafMatchType(e).Length? && i < |Elems(e)| && ScanSafe(eng, p, failFast, e, items, i, rem)
    ensures RowSafe(eng, p, e, items, i, rem)
    ensures var k := FirstLink(Verdicts(eng, p, e, items)[i], rem);
            if k < |rem| then ScanSafe(eng, p, failFast, e, items, i + 1, SwapRemove(rem, k))
            else failFast || ScanSafe(eng, p, failFast, e, items, i + 1, rem)
  {
    hide NoPanic, FirstLink, Verdicts;
  }

  lemma {:induction false} FirstLinkIs(row: seq<bool>, rem: seq<int>, k: nat)
    requires k <= |rem|
    requires forall j | 0 <= j < k :: 0 <= rem[j] < |row| && !row[rem[j]]
    requires k < |rem| ==> 0 <= rem[k] < |row| && row[rem[k]]
    ensures FirstLink(row, rem) == k
  {
    if k > 0 {
      FirstLinkIs(row, rem[1..], k - 1);
    }
  }

  lemma {:induction false} NotYetLinked(row: seq<bool>, rem: seq<int>, k: nat)
    requires k <= |rem| && forall j | 0 <= j < k :: 0 <= rem[j] < |row| && !row[rem[j]]
    ensures k <= FirstLink(row, rem)
  {
    if k > 0 {
      NotYetLinked(row, rem[1..], k - 1);
    }
  }

  /** The inner scan: the first remaining actual item the i-th expected element accepts, or `len`. */
  method FirstMatch(eng: Engine, p: Flags, ghost e: Value, i: nat, elem: Value, actual: array<Value>, len: nat,
                    ghost rem: seq<int>, ghost items: seq<Value>) returns (k: nat)
    requires !LeafMatchType(e).Length? && i < |Elems(e)| && elem == Elems(e)[i]
    requires len <= actual.Length && Holds(actual[..len], rem, items) && RowSafe(eng, p, e, items, i, rem)
    ensures k == FirstLink(Verdicts(eng, p, e, items)[i], rem) <= len
    ensures k == len ==> forall j | 0 <= j < len :: !Verdicts(eng, p, e, items)[i][rem[j]]
    decreases Rank(e), e, 0, 0
  {
    ghost var row := Verdicts(eng, p, e, items)[i];
    k := 0;
    while k < len
      invariant k <= len
      invariant forall j | 0 <= j < k :: !row[rem[j]]
    {
      assert actual[..len][k] == items[rem[k]];
      NotYetLinked(row, rem, k);
      var res := CompareBranch(eng, p, true, [], elem, actual[k]);
      if res == [] {
        break;
      }
      k := k + 1;
    }
    FirstLinkIs(row, rem, k);
  }

  /** What the matcher has done before the i-th expected element: `buf` holds the items not yet taken. */
  ghost predicate Midway(m: Matrix, expected: seq<Value>, items: seq<Value>, i: nat, buf: seq<Value>,
                         unmatched: seq<Value>, rem: seq<int>, left: seq<int>) {
    var g, rest := Greedy(m, 0, Indices(|items|)), Greedy(m, i, rem);
    && Holds(buf, rem, items) && unmatched == Pick(expected, left)
    && g.left == left + rest.left && g.free == rest.free
  }

  lemma MidwayStart(m: Matrix, expected: seq<Value>, items: seq<Value>)
    ensures Midway(m, expected, items, 0, items, [], Indices(|items|), [])
  {
  }

  lemma MidwayHolds(m: Matrix, expected: seq<Value>, items: seq<Value>, i: nat, buf: seq<Value>, unmatched: seq<Value>,
                    rem: seq<int>, left: seq<int>)
    requires Midway(m, expected, items, i, buf, unmatched, rem, left)
    ensures Holds(buf, rem, items)
  {
  }

  lemma MidwayTaken(m: Matrix, expected: seq<Value>, items: seq<Value>, i: nat, buf: seq<Value>, unmatched: seq<Value>,
                    rem: seq<int>, left: seq<int>, k: nat)
    requires Midway(m, expected, items, i, buf, unmatched, rem, left)
    requires i < |m| && k == FirstLink(m[i], rem) && k < |buf|
    ensures k < |rem| && Midway(m, expected, items, i + 1, SwapRemove(buf, k), unmatched, SwapRemove(rem, k), left)
  {
    hide Greedy, Pick, Holds, SwapRemove, FirstLink;
    HoldsAfterRemoval(buf, rem, items, k);
    GreedyTakes(m, i, rem, k);
  }

  lemma HoldsAfterRemoval(buf: seq<Value>, rem: seq<int>, items: seq<Value>, k: nat)
    requires Holds(buf, rem, items) && k < |buf|
    ensures k < |rem| && Holds(SwapRemove(buf, k), SwapRemove(rem, k), items)
  {
  }

  lemma GreedyTakes(m: Matrix, i: nat, rem: seq<int>, k: nat)
    requires i < |m| && k == FirstLink(m[i], rem) && k < |rem|
    ensures var g, rest := Greedy(m, i, rem), Greedy(m, i + 1, SwapRemove(rem, k));
            g.left == rest.left && g.free == rest.free
  {
  }

  lemma MidwayMissed(m: Matrix, expected: seq<Value>, items: seq<Value>, i: nat, buf: seq<Value>, unmatched: seq<Value>,
                     rem: seq<int>, left: seq<int>)
    requires Midway(m, expected, items, i, buf, unmatched, rem, left)
    requires i < |m| == |expected| && FirstLink(m[i], rem) == |buf|
    ensures Midway(m, expected, items, i + 1, buf, unmatched + [expected[i]], rem, left + [i])
    ensures Greedy(m, 0, Indices(|items|)).left != []
    ensures forall k | 0 <= k < |buf| :: buf[k] in items && 0 <= rem[k] < |items| && buf[k] == items[rem[k]]
  {
    var rest := Greedy(m, i, rem);
    assert rest.left == [i] + Greedy(m, i + 1, rem).left;
    assert left + ([i] + Greedy(m, i + 1, rem).left) == (left + [i]) + Greedy(m, i + 1, rem).left;
  }

  lemma MidwayDone(m: Matrix, expected: seq<Value>, items: seq<Value>, buf: seq<Value>, unmatched: seq<Value>,
                   rem: seq<int>, left: seq<int>)
    requires Midway(m, expected, items, |m|, buf, unmatched, rem, left)
    ensures var g := Greedy(m, 0, Indices(|items|));
            unmatched == Pick(expected, g.left) && buf == Pick(items, g.free) && (unmatched == [] ==> g.left == [])
  {
    var rest := Greedy(m, |m|, rem);
    assert rest.left == [] && rest.free == rem;
    assert left + [] == left;
    assert forall k | 0 <= k < |buf| :: buf[k] == Pick(items, rem)[k];
  }

  /** Moves the last of the first n cells over the k-th. */
  method TakeOut(actual: array<Value>, n: nat, k: nat)
    requires k < n <= actual.Length
    modifies actual
    ensures actual[..n - 1] == SwapRemove(old(actual[..n]), k)
  {
    if n != 1 {
      actual[k] := actual[n - 1];
    }
  }

  lemma MissedFirst(eng: Engine, p: Flags, e: Value, items: seq<Value>, i: nat, buf: seq<Value>, rem: seq<int>)
    requires !LeafMatchType(e).Length? && i < |Elems(e)| && Holds(buf, rem, items) && buf != []
    requires RowSafe(eng, p, e, items, i, rem) && FirstLink(Verdicts(eng, p, e, items)[i], rem) == |rem|
    ensures !Accepts(eng, p, Elems(e)[i], buf[0]) && NoPanic(eng, p, true, Elems(e)[i], buf[0])
  {
    hide Accepts, NoPanic, LeafMatchType;
    assert buf[0] == items[rem[0]] && !Verdicts(eng, p, e, items)[i][rem[0]];
  }

  /** One round of the matcher: the element takes its first partner out of the buffer, if it has one. */
  method MatchNext(eng: Engine, p: Flags, failFast: bool, ghost e: Value, i: nat, elem: Value, actual: array<Value>,
                   n: nat, ghost items: seq<Value>, ghost unmatched: seq<Value>, ghost rem: seq<int>,
                   ghost left: seq<int>) returns (found: bool, ghost rem': seq<int>)
    requires !LeafMatchType(e).Length? && i < |Elems(e)| && elem == Elems(e)[i] && n <= actual.Length
    requires Midway(Verdicts(eng, p, e, items), Elems(e), items, i, actual[..n], unmatched, rem, left)
    requires ScanSafe(eng, p, failFast, e, items, i, rem)
    modifies actual
    ensures found ==>
              && n > 0 && ScanSafe(eng, p, failFast, e, items, i + 1, rem')
              && Midway(Verdicts(eng, p, e, items), Elems(e), items, i + 1, actual[..n - 1], unmatched, rem', left)
    ensures !found ==>
              && Greedy(Verdicts(eng, p, e, items), 0, Indices(|items|)).left != [] && rem' == rem
              && (failFast || ScanSafe(eng, p, failFast, e, items, i + 1, rem))
              && Midway(Verdicts(eng, p, e, items), Elems(e), items, i + 1, actual[..n], unmatched + [elem], rem,
                        left + [i])
              && (n > 0 ==>
                    actual[0] in items && !Accepts(eng, p, elem, actual[0]) && NoPanic(eng, p, true, elem, actual[0]))
    decreases Rank(e), e, 0, 1
  {
    hide Midway, Greedy, FirstLink, Accepts, NoPanic, ScanSafe, RowSafe, LeafMatchType, SwapRemove;
    ghost var m := Verdicts(eng, p, e, items);
    ScanSafeRow(eng, p, failFast, e, items, i, rem);
    MidwayHolds(m, Elems(e), items, i, actual[..n], unmatched, rem, left);
    var k := FirstMatch(eng, p, e, i, elem, actual, n, rem, items);
    found, rem' := k < n, rem;
    if found {
      MidwayTaken(m, Elems(e), items, i, actual[..n], unmatched, rem, left, k);
      rem' := SwapRemove(rem, k);
      TakeOut(actual, n, k);
    } else {
      MidwayMissed(m, Elems(e), items, i, actual[..n], unmatched, rem, left);
      if n > 0 {
        assert actual[..n][0] == actual[0];
        MissedFirst(eng, p, e, items, i, actual[..n], rem);
      }
    }
  }

  /** Pairs each expected element with the first item still in the buffer that it accepts, swap-removing it.
      Returns the expected elements without a partner; `n` cells of the buffer hold the items nobody took.
      Under fail-fast it stops at the first element without a partner and returns it with the first cell. */
  method GetUnmatchedArrays(eng: Engine, p: Flags, failFast: bool, ghost e: Value, expected: seq<Value>,
                            actual: array<Value>) returns (unmatched: seq<Value>, n: nat)
    requires !LeafMatchType(e).Length? && expected == Elems(e) && |expected| == actual.Length
    requires ScanSafe(eng, p, failFast, e, actual[..], 0, Indices(actual.Length))
    modifies actual
    ensures n <= actual.Length
    ensures var items := old(actual[..]);
            var g := Greedy(Verdicts(eng, p, e, items), 0, Indices(|items|));
            if failFast && g.left != [] then
              |unmatched| == n == 1 && unmatched[0] in expected && actual[0] in items
              && !Accepts(eng, p, unmatched[0], actual[0]) && NoPanic(eng, p, true, unmatched[0], actual[0])
            else
              unmatched == Pick(expected, g.left) && actual[..n] == Pick(items, g.free)
    decreases Rank(e), e, 0, 2
  {
    hide Midway, Greedy, Accepts, NoPanic, ScanSafe, LeafMatchType, Pick;
    unmatched, n := [], actual.Length;
    ghost var items := actual[..];
    ghost var m := Verdicts(eng, p, e, items);
    ghost var rem, left := Indices(|items|), [];
    assert actual[..n] == items;
    MidwayStart(m, expected, items);
    for i := 0 to |expected|
      invariant n <= actual.Length && Midway(m, expected, items, i, actual[..n], unmatched, rem, left)
      invariant failFast ==> unmatched == [] && n == |expected| - i
      invariant ScanSafe(eng, p, failFast, e, items, i, rem)
    {
      var found;
      found, rem := MatchNext(eng, p, failFast, e, i, expected[i], actual, n, items, unmatched, rem, left);
      if found {
        n := n - 1;
      } else {
        left := left + [i];
        unmatched := unmatched + [expected[i]];
        if failFast {
          return unmatched, 1;
        }
      }
    }
    MidwayDone(m, expected, items, actual[..n], unmatched, rem, left);
  }

  // ---------- arrays ----------

  /** The errors of comparing es[i] with items[i] for every i, each below its index. */
  ghost predicate EachExactly(eng: Engine, p: Flags, base: seq<Step>, es: seq<Value>, items: seq<Value>,
                              errs: seq<Error>)
    requires |es| <= |items|
  {
    && (forall x | x in errs :: EachBelow(eng, p, base, es, items, x))
    && (forall i, path, issue | 0 <= i < |es| && Reports(eng, p, es[i], items[i], path, issue) ::
          Error(base + [At(i)] + path, issue) in errs)
    && NoRepeats(errs)
  }

  ghost predicate EachBelow(eng: Engine, p: Flags, base: seq<Step>, es: seq<Value>, items: seq<Value>, x: Error)
    requires |es| <= |items|
  {
    && base < x.path && x.path[|base|].At? && 0 <= x.path[|base|].i < |es|
    && var i := x.path[|base|].i; Reports(eng, p, es[i], items[i], x.path[|base| + 1..], x.issue)
  }

  lemma EachGrows(eng: Engine, p: Flags, base: seq<Step>, es: seq<Value>, items: seq<Value>, n: nat, errs: seq<Error>,
                  res: seq<Error>)
    requires n < |es| <= |items|
    requires EachExactly(eng, p, base, es[..n], items, errs)
    requires Exactly(eng, p, base + [At(n)], es[n], items[n], res)
    ensures EachExactly(eng, p, base, es[..n + 1], items, errs + res)
  {
    hide Reports;
    var more := es[..n + 1];
    forall x | x in errs + res ensures EachBelow(eng, p, base, more, items, x) {
      if x in errs {
        assert EachBelow(eng, p, base, es[..n], items, x);
        assert more[x.path[|base|].i] == es[..n][x.path[|base|].i];
      } else {
        assert x.path[|base|] == (base + [At(n)])[|base|];
      }
    }
    forall i, path, issue | 0 <= i < |more| && Reports(eng, p, more[i], items[i], path, issue)
      ensures Error(base + [At(i)] + path, issue) in errs + res
    {
      if i < n {
        assert more[i] == es[..n][i];
      }
    }
    forall x | x in res ensures x !in errs {
      assert x.path[|base|] == (base + [At(n)])[|base|];
    }
    NoRepeatsConcat(errs, res);
  }

  ghost predicate EachSafe(eng: Engine, p: Flags, failFast: bool, e: Value, es: seq<Value>, items: seq<Value>)
    requires |es| <= |items|
  {
    && (forall i | 0 <= i < |es| :: es[i] in Elems(e))
    && (forall i | 0 <= i < |es| && Reached(eng, p, failFast, es, items, i) ::
          NoPanic(eng, p, failFast, es[i], items[i]))
  }

  lemma EachNothing(eng: Engine, p: Flags, base: seq<Step>, es: seq<Value>, items: seq<Value>)
    requires |es| <= |items|
    ensures EachExactly(eng, p, base, es[..0], items, [])
  {
  }

  lemma ReachedNext(eng: Engine, p: Flags, failFast: bool, es: seq<Value>, items: seq<Value>, i: nat)
    requires i < |es| && i < |items| && (failFast ==> forall j | 0 <= j < i :: Accepts(eng, p, es[j], items[j]))
    ensures Reached(eng, p, failFast, es, items, i)
  {
  }

  /** The loop over the children of two arrays. */
  method CompareEach(eng: Engine, p: Flags, failFast: bool, path: seq<Step>, ghost e: Value, es: seq<Value>,
                     items: seq<Value>)
    returns (errs: seq<Error>)
    requires |es| <= |items|
    requires EachSafe(eng, p, failFast, e, es, items)
    ensures errs == [] <==> forall i | 0 <= i < |es| :: Accepts(eng, p, es[i], items[i])
    ensures failFast ==> |errs| <= 1
    ensures !failFast ==> EachExactly(eng, p, path, es, items, errs)
    decreases Rank(e), e, 0
  {
    hide Accepts, NoPanic, EachExactly, Exactly, Reached;
    EachNothing(eng, p, path, es, items);
    errs := [];
    for i := 0 to |es|
      invariant errs == [] <==> forall j | 0 <= j < i :: Accepts(eng, p, es[j], items[j])
      invariant failFast ==> errs == []
      invariant !failFast ==> EachExactly(eng, p, path, es[..i], items, errs)
    {
      ReachedNext(eng, p, failFast, es, items, i);
      var res := CompareBranch(eng, p, failFast, path + [At(i)], es[i], items[i]);
      if !failFast {
        EachGrows(eng, p, path, es, items, i, errs, res);
      }
      errs := errs + res;
      if failFast && errs != [] {
        return;
      }
    }
    assert es[..|es|] == es;
  }

  /** The children that remain stay in range, and in unordered mode every one of them disagrees. */
  lemma RemainingInRange(eng: Engine, p: Flags, e: Value, items: seq<Value>)
    requires !LeafMatchType(e).Length? && |Elems(e)| == |items|
    ensures var (l, r) := Remaining(eng, p, e, items);
            && |l| == |r|
            && (forall i | 0 <= i < |l| :: 0 <= l[i] < |items| && 0 <= r[i] < |items|)
            && (p.unordered ==> forall i | 0 <= i < |l| :: !Accepts(eng, p, Elems(e)[l[i]], items[r[i]]))
  {
    if p.unordered {
      var m := Verdicts(eng, p, e, items);
      GreedyIsMaximal(m);
      var g := Greedy(m, 0, Indices(|items|));
      forall i | 0 <= i < |g.left|
        ensures 0 <= g.left[i] < |items| && 0 <= g.free[i] < |items|
                && !Accepts(eng, p, Elems(e)[g.left[i]], items[g.free[i]])
      {
        assert g.left[i] in g.left && g.free[i] in g.free;
        assert !Links(m, g.left[i], g.free[i]);
      }
    }
  }

  lemma NoOwnArrayIssue(eng: Engine, p: Flags, e: Value, a: Value)
    requires a.Arr? && Descends(e, a) && |Elems(e)| == |a.items|
    ensures forall issue :: !OwnIssue(eng, p, e, a, issue)
  {
  }

  lemma ArrayExactly(eng: Engine, p: Flags, base: seq<Step>, e: Value, a: Value, l: seq<int>, r: seq<int>,
                     errs: seq<Error>)
    requires a.Arr? && Descends(e, a) && |Elems(e)| == |a.items| && (l, r) == Remaining(eng, p, e, a.items)
    requires |l| == |r| && forall i | 0 <= i < |l| :: 0 <= l[i] < |a.items| && 0 <= r[i] < |a.items|
    requires EachExactly(eng, p, base, Pick(Elems(e), l), Pick(a.items, r), errs)
    ensures Exactly(eng, p, base, e, a, errs)
  {
    hide Remaining, LeafMatchType, OwnIssue;
    var es, items := Pick(Elems(e), l), Pick(a.items, r);
    NoOwnArrayIssue(eng, p, e, a);
    forall x | x in errs ensures base <= x.path && Reports(eng, p, e, a, x.path[|base|..], x.issue) {
      assert EachBelow(eng, p, base, es, items, x);
      assert x.path[|base|..][1..] == x.path[|base| + 1..];
    }
    forall path: seq<Step>, issue | Reports(eng, p, e, a, path, issue) ensures Error(base + path, issue) in errs {
      assert path != [] && path[0].At?;
      var i := path[0].i;
      assert Reports(eng, p, es[i], items[i], path[1..], issue);
      assert base + path == base + [At(i)] + path[1..];
    }
  }

  lemma SingleExactly(eng: Engine, p: Flags, base: seq<Step>, e: Value, a: Value, issue: Issue)
    requires OwnIssue(eng, p, e, a, issue)
    requires forall path, other | Reports(eng, p, e, a, path, other) :: path == [] && other == issue
    ensures Exactly(eng, p, base, e, a, [Error(base, issue)])
  {
    hide OwnIssue;
    ReportsHere(eng, p, e, a, issue);
    hide Reports;
    assert base + [] == base && base[|base|..] == [];
  }

  lemma LengthsExactly(eng: Engine, p: Flags, base: seq<Step>, e: Value, a: Value)
    requires a.Arr? && Descends(e, a) && |Elems(e)| != |a.items|
    ensures Exactly(eng, p, base, e, a, [Error(base, ArrayLengthsDiffer)])
  {
    hide LeafMatchType, Remaining;
    SingleExactly(eng, p, base, e, a, ArrayLengthsDiffer);
  }

  lemma SizesExactly(eng: Engine, p: Flags, base: seq<Step>, e: Value, a: Value)
    requires a.Obj? && Descends(e, a) && p.disallowExtra && Size(e) != |a.fields|
    ensures Exactly(eng, p, base, e, a, [Error(base, MapLengthsDiffer)])
  {
    hide Remaining;
    SingleExactly(eng, p, base, e, a, MapLengthsDiffer);
  }

  method CompareArrays(eng: Engine, p: Flags, failFast: bool, path: seq<Step>, e: Value, a: Value)
    returns (errs: seq<Error>)
    requires a.Arr? && Descends(e, a) && NoPanic(eng, p, failFast, e, a)
    ensures errs == [] <==> Accepts(eng, p, e, a)
    ensures failFast ==> |errs| <= 1
    ensures !failFast ==> Exactly(eng, p, path, e, a, errs)
    decreases Rank(e), e, 3
  {
    var expected, items := Elems(e), a.items;
    if |expected| != |items| {
      errs := [Error(path, ArrayLengthsDiffer)];
      LengthsExactly(eng, p, path, e, a);
      return;
    }
    errs := CompareItems(eng, p, failFast, path, e, expected, items);
  }

  ghost predicate AllAccepted(eng: Engine, p: Flags, es: seq<Value>, items: seq<Value>) {
    |es| <= |items| && forall i | 0 <= i < |es| :: Accepts(eng, p, es[i], items[i])
  }

  /** What the children of two arrays must be: any pick whose pairs all agree just when the arrays are accepted. */
  ghost predicate Children(eng: Engine, p: Flags, failFast: bool, e: Value, items: seq<Value>, es: seq<Value>,
                           rest: seq<Value>) {
    && |es| <= |rest| && EachSafe(eng, p, failFast, e, es, rest)
    && (AllAccepted(eng, p, es, rest) <==> Accepts(eng, p, e, Arr(items)))
  }

  lemma OrderedChildren(eng: Engine, p: Flags, failFast: bool, e: Value, items: seq<Value>)
    requires !p.unordered && |Elems(e)| == |items| && Descends(e, Arr(items))
    requires NoPanic(eng, p, failFast, e, Arr(items))
    ensures Children(eng, p, failFast, e, items, Elems(e), items)
  {
    hide Accepts, NoPanic, AllAccepted;
    OrderedSafe(eng, p, failFast, e, items);
    OrderedVerdict(eng, p, e, items);
  }

  lemma OrderedSafe(eng: Engine, p: Flags, failFast: bool, e: Value, items: seq<Value>)
    requires !p.unordered && |Elems(e)| == |items| && Descends(e, Arr(items))
    requires NoPanic(eng, p, failFast, e, Arr(items))
    ensures EachSafe(eng, p, failFast, e, Elems(e), items)
  {
    hide Reached, ScanSafe, Remaining, Elems;
  }

  lemma OrderedVerdict(eng: Engine, p: Flags, e: Value, items: seq<Value>)
    requires !p.unordered && |Elems(e)| == |items| && Descends(e, Arr(items))
    ensures AllAccepted(eng, p, Elems(e), items) <==> Accepts(eng, p, e, Arr(items))
  {
    hide Verdicts, Greedy, Elems;
  }

  lemma UnorderedVerdict(eng: Engine, p: Flags, e: Value, items: seq<Value>)
    requires p.unordered && |Elems(e)| == |items| && Descends(e, Arr(items))
    ensures Accepts(eng, p, e, Arr(items)) <==> Greedy(Verdicts(eng, p, e, items), 0, Indices(|items|)).left == []
  {
  }

  /** Leftovers are children: none of them agree, so all of them agree just when there are none. */
  lemma LeftoverChildren(eng: Engine, p: Flags, failFast: bool, e: Value, items: seq<Value>, es: seq<Value>,
                         rest: seq<Value>)
    requires p.unordered && |Elems(e)| == |items| && Descends(e, Arr(items))
    requires es == [] <==> Greedy(Verdicts(eng, p, e, items), 0, Indices(|items|)).left == []
    requires |es| <= |rest| && forall i | 0 <= i < |es| :: es[i] in Elems(e) && !Accepts(eng, p, es[i], rest[i])
    requires forall i | 0 <= i < |es| :: (failFast && i > 0) || NoPanic(eng, p, failFast, es[i], rest[i])
    ensures Children(eng, p, failFast, e, items, es, rest)
  {
    hide Accepts, NoPanic, Greedy, Verdicts;
    UnorderedVerdict(eng, p, e, items);
    if es != [] {
      assert !Accepts(eng, p, es[0], rest[0]);
    }
  }

  lemma PickedChildren(eng: Engine, p: Flags, failFast: bool, e: Value, items: seq<Value>, l: seq<int>, r: seq<int>)
    requires p.unordered && |Elems(e)| == |items| && Descends(e, Arr(items))
    requires NoPanic(eng, p, failFast, e, Arr(items))
    requires (l, r) == Remaining(eng, p, e, items) && (failFast ==> l == [])
    ensures Children(eng, p, failFast, e, items, Pick(Elems(e), l), Pick(items, r))
  {
    RemainingInRange(eng, p, e, items);
    if !failFast {
      RemainingSafe(eng, p, e, items, l, r);
    }
    hide Accepts, Greedy, Verdicts, Children, NoPanic;
    LeftoverChildren(eng, p, failFast, e, items, Pick(Elems(e), l), Pick(items, r));
  }

  lemma RemainingSafe(eng: Engine, p: Flags, e: Value, items: seq<Value>, l: seq<int>, r: seq<int>)
    requires p.unordered && |Elems(e)| == |items| && Descends(e, Arr(items))
    requires NoPanic(eng, p, false, e, Arr(items)) && (l, r) == Remaining(eng, p, e, items)
    ensures forall i | 0 <= i < |l| && i < |r| && 0 <= l[i] < |items| && 0 <= r[i] < |items| ::
              NoPanic(eng, p, false, Elems(e)[l[i]], items[r[i]])
  {
    hide Remaining, ScanSafe, Elems;
  }

  lemma ScanIsSafe(eng: Engine, p: Flags, failFast: bool, e: Value, items: seq<Value>)
    requires p.unordered && |Elems(e)| == |items| && Descends(e, Arr(items))
    requires NoPanic(eng, p, failFast, e, Arr(items))
    ensures ScanSafe(eng, p, failFast, e, items, 0, Indices(|items|))
  {
    hide Remaining, Verdicts, Accepts;
  }

  /** The children to compare: in unordered mode, what the matcher could not pair. */
  method SelectChildren(eng: Engine, p: Flags, failFast: bool, ghost e: Value, expected: seq<Value>, items: seq<Value>)
    returns (es: seq<Value>, rest: seq<Value>)
    requires expected == Elems(e) && |expected| == |items| && Descends(e, Arr(items))
    requires NoPanic(eng, p, failFast, e, Arr(items))
    ensures Children(eng, p, failFast, e, items, es, rest)
    ensures !failFast ==> var (l, r) := Remaining(eng, p, e, items); es == Pick(expected, l) && rest == Pick(items, r)
    decreases Rank(e), e, 1
  {
    hide Accepts, NoPanic, Greedy, Verdicts, Children, ScanSafe;
    if p.unordered {
      ScanIsSafe(eng, p, failFast, e, items);
      var buf := new Value[|items|](i requires 0 <= i < |items| => items[i]);
      assert buf[..] == items;
      var n;
      es, n := GetUnmatchedArrays(eng, p, failFast, e, expected, buf);
      rest := buf[..n];
      ghost var (l, r) := Remaining(eng, p, e, items);
      if failFast && l != [] {
        LeftoverChildren(eng, p, failFast, e, items, es, rest);
      } else {
        PickedChildren(eng, p, failFast, e, items, l, r);
      }
    } else {
      OrderedChildren(eng, p, failFast, e, items);
      es, rest := expected, items;
      assert Pick(expected, Indices(|items|)) == expected && Pick(items, Indices(|items|)) == items;
    }
  }

  /** Two arrays of the same length. */
  method CompareItems(eng: Engine, p: Flags, failFast: bool, path: seq<Step>, ghost e: Value, expected: seq<Value>,
                      items: seq<Value>)
    returns (errs: seq<Error>)
    requires expected == Elems(e) && |expected| == |items| && Descends(e, Arr(items))
    requires NoPanic(eng, p, failFast, e, Arr(items))
    ensures errs == [] <==> Accepts(eng, p, e, Arr(items))
    ensures failFast ==> |errs| <= 1
    ensures !failFast ==> Exactly(eng, p, path, e, Arr(items), errs)
    decreases Rank(e), e, 2
  {
    hide Accepts, NoPanic, Remaining, EachExactly, Exactly;
    var es, rest := SelectChildren(eng, p, failFast, e, expected, items);
    errs := CompareEach(eng, p, failFast, path, e, es, rest);
    if !failFast {
      RemainingInRange(eng, p, e, items);
      ghost var (l, r) := Remaining(eng, p, e, items);
      ArrayExactly(eng, p, path, e, Arr(items), l, r, errs);
    }
  }

  // ---------- objects ----------

  /** x is an error about one of the visited keys. */
  ghost predicate FieldError(eng: Engine, p: Flags, base: seq<Step>, e: Value, a: Value, keys: set<string>, x: Error)
    requires e.Obj? && a.Obj? && keys <= e.fields.Keys
  {
    || (x.path == base && x.issue.KeyMissing? && x.issue.key in keys && x.issue.key !in a.fields)
    || (&& base < x.path && x.path[|base|].Field? && x.path[|base|].k in keys && x.path[|base|].k in a.fields
        && var k := x.path[|base|].k; Reports(eng, p, e.fields[k], a.fields[k], x.path[|base| + 1..], x.issue))
  }

  /** The errors about the visited keys. */
  ghost predicate FieldsExactly(eng: Engine, p: Flags, base: seq<Step>, e: Value, a: Value, keys: set<string>,
                                errs: seq<Error>)
    requires e.Obj? && a.Obj? && keys <= e.fields.Keys
  {
    NoRepeats(errs) && forall x :: x in errs <==> FieldError(eng, p, base, e, a, keys, x)
  }

  lemma MissingGrows(eng: Engine, p: Flags, base: seq<Step>, e: Value, a: Value, keys: set<string>, k: string,
                     errs: seq<Error>)
    requires e.Obj? && a.Obj? && keys <= e.fields.Keys && k in e.fields && k !in a.fields && k !in keys
    requires FieldsExactly(eng, p, base, e, a, keys, errs)
    ensures FieldsExactly(eng, p, base, e, a, keys + {k}, errs + [Error(base, KeyMissing(k))])
  {
    hide Reports;
    var more := errs + [Error(base, KeyMissing(k))];
    forall x ensures x in more <==> FieldError(eng, p, base, e, a, keys + {k}, x) {
      assert x in errs <==> FieldError(eng, p, base, e, a, keys, x);
    }
    assert !FieldError(eng, p, base, e, a, keys, Error(base, KeyMissing(k)));
    NoRepeatsConcat(errs, [Error(base, KeyMissing(k))]);
  }

  lemma FieldGrows(eng: Engine, p: Flags, base: seq<Step>, e: Value, a: Value, keys: set<string>, k: string,
                   errs: seq<Error>, res: seq<Error>)
    requires e.Obj? && a.Obj? && keys <= e.fields.Keys && k in e.fields && k in a.fields && k !in keys
    requires FieldsExactly(eng, p, base, e, a, keys, errs)
    requires Exactly(eng, p, base + [Field(k)], e.fields[k], a.fields[k], res)
    ensures FieldsExactly(eng, p, base, e, a, keys + {k}, errs + res)
  {
    hide Reports;
    forall x ensures x in errs + res <==> FieldError(eng, p, base, e, a, keys + {k}, x) {
      assert x in errs <==> FieldError(eng, p, base, e, a, keys, x);
      if x in res {
        assert x.path[|base|] == (base + [Field(k)])[|base|];
      }
      if FieldError(eng, p, base, e, a, keys + {k}, x) && !FieldError(eng, p, base, e, a, keys, x) {
        assert x.path == base + [Field(k)] + x.path[|base| + 1..];
      }
    }
    forall x | x in res ensures x !in errs {
      assert x.path[|base|] == (base + [Field(k)])[|base|];
    }
    NoRepeatsConcat(errs, res);
  }

  lemma ObjectExactly(eng: Engine, p: Flags, base: seq<Step>, e: Value, a: Value, errs: seq<Error>)
    requires e.Obj? && a.Obj? && (p.disallowExtra ==> |e.fields| == |a.fields|)
    requires FieldsExactly(eng, p, base, e, a, e.fields.Keys, errs)
    ensures Exactly(eng, p, base, e, a, errs)
  {
    forall x | x in errs ensures base <= x.path && Reports(eng, p, e, a, x.path[|base|..], x.issue) {
      assert FieldError(eng, p, base, e, a, e.fields.Keys, x);
      if x.path != base {
        assert x.path[|base|..][1..] == x.path[|base| + 1..];
      }
    }
    forall path: seq<Step>, issue | Reports(eng, p, e, a, path, issue) ensures Error(base + path, issue) in errs {
      var x := Error(base + path, issue);
      if path != [] {
        assert x.path[|base|] == path[0] && x.path[|base| + 1..] == path[1..];
      } else {
        assert x.path == base;
      }
      assert FieldError(eng, p, base, e, a, e.fields.Keys, x);
    }
  }

  lemma FieldsSafe(eng: Engine, p: Flags, failFast: bool, e: Value, a: Value)
    requires e.Obj? && a.Obj? && NoPanic(eng, p, failFast, e, a) && !(p.disallowExtra && Size(e) != |a.fields|)
    ensures forall k | k in e.fields && k in a.fields :: NoPanic(eng, p, failFast, e.fields[k], a.fields[k])
  {
  }

  /** The loop over the keys of the expected object, in any order. */
  method CompareFields(eng: Engine, p: Flags, failFast: bool, path: seq<Step>, e: Value, a: Value)
    returns (errs: seq<Error>)
    requires e.Obj? && a.Obj? && NoPanic(eng, p, failFast, e, a) && !(p.disallowExtra && Size(e) != |a.fields|)
    ensures errs == [] <==> forall k | k in e.fields :: k in a.fields && Accepts(eng, p, e.fields[k], a.fields[k])
    ensures failFast ==> |errs| <= 1
    ensures !failFast ==> FieldsExactly(eng, p, path, e, a, e.fields.Keys, errs)
    decreases Rank(e), e, 0
  {
    hide Accepts, FieldsExactly, Exactly, NoPanic;
    FieldsSafe(eng, p, failFast, e, a);
    errs := [];
    var todo := e.fields.Keys;
    ghost var done: set<string> := {};
    NoFields(eng, p, path, e, a);
    while todo != {}
      invariant done <= e.fields.Keys && todo == e.fields.Keys - done
      invariant errs == [] <==> forall k | k in done :: k in a.fields && Accepts(eng, p, e.fields[k], a.fields[k])
      invariant failFast ==> errs == []
      invariant !failFast ==> FieldsExactly(eng, p, path, e, a, done, errs)
      decreases todo
    {
      var k :| k in todo;
      todo := todo - {k};
      if k !in a.fields {
        if !failFast {
          MissingGrows(eng, p, path, e, a, done, k, errs);
        }
        errs := errs + [Error(path, KeyMissing(k))];
        done := done + {k};
        if failFast {
          return;
        }
      } else {
        var res := CompareBranch(eng, p, failFast, path + [Field(k)], e.fields[k], a.fields[k]);
        if !failFast {
          FieldGrows(eng, p, path, e, a, done, k, errs, res);
        }
        errs := errs + res;
        done := done + {k};
        if failFast && errs != [] {
          return;
        }
      }
    }
    assert done == e.fields.Keys;
  }

  lemma NoFields(eng: Engine, p: Flags, base: seq<Step>, e: Value, a: Value)
    requires e.Obj? && a.Obj?
    ensures FieldsExactly(eng, p, base, e, a, {}, [])
  {
  }

  method CompareObjects(eng: Engine, p: Flags, failFast: bool, path: seq<Step>, e: Value, a: Value)
    returns (errs: seq<Error>)
    requires a.Obj? && Descends(e, a) && NoPanic(eng, p, failFast, e, a)
    ensures errs == [] <==> Accepts(eng, p, e, a)
    ensures failFast ==> |errs| <= 1
    ensures !failFast ==> Exactly(eng, p, path, e, a, errs)
    decreases Rank(e), e, 1
  {
    if p.disallowExtra && Size(e) != |a.fields| {
      errs := [Error(path, MapLengthsDiffer)];
      SizesExactly(eng, p, path, e, a);
      return;
    }
    errs := CompareFields(eng, p, failFast, path, e, a);
    if !failFast {
      ObjectExactly(eng, p, path, e, a, errs);
    }
  }

  // ---------- the whole comparison ----------

  /** Fail-fast or not, no error is returned exactly when the verdict is to accept; fail-fast returns at most one;
      a full comparison returns exactly the issues there are, each under its own path. */
  method CompareBranch(eng: Engine, p: Flags, failFast: bool, path: seq<Step>, e: Value, a: Value)
    returns (errs: seq<Error>)
    requires NoPanic(eng, p, failFast, e, a)
    ensures errs == [] <==> Accepts(eng, p, e, a)
    ensures failFast ==> |errs| <= 1
    ensures !failFast ==> Exactly(eng, p, path, e, a, errs)
    decreases Rank(e), e, 4
  {
    var mt := LeafMatchType(e);
    if mt.Length? {
      errs := CompareArrayLen(path, mt.spec, a);
      AloneExactly(eng, p, path, e, a, errs);
    } else if !mt.Regex? && KindOf(e) != KindOf(a) {
      errs := [Error(path, TypesDiffer)];
      AloneExactly(eng, p, path, e, a, errs);
    } else if Scalar(a) && !p.ignoreValues {
      errs := CompareLeafs(eng, path, e, a);
      AloneExactly(eng, p, path, e, a, errs);
    } else if a.Arr? {
      errs := CompareArrays(eng, p, failFast, path, e, a);
    } else if a.Obj? {
      errs := CompareObjects(eng, p, failFast, path, e, a);
    } else {
      errs := [];
      AloneExactly(eng, p, path, e, a, errs);
    }
  }

  /** A node without children reports its own issue or nothing. */
  lemma AloneExactly(eng: Engine, p: Flags, base: seq<Step>, e: Value, a: Value, errs: seq<Error>)
    requires Scalar(a) || !Descends(e, a)
    requires |errs| <= 1
    requires errs == [] ==> forall issue :: !OwnIssue(eng, p, e, a, issue)
    requires errs != [] ==> errs[0].path == base && OwnIssue(eng, p, e, a, errs[0].issue)
    ensures Exactly(eng, p, base, e, a, errs)
  {
    hide Reports, OwnIssue, Descends;
    assert base + [] == base;
    forall x | x in errs ensures base <= x.path && Reports(eng, p, e, a, x.path[|base|..], x.issue) {
      assert x == errs[0] && x.path[|base|..] == [];
      ReportsHere(eng, p, e, a, x.issue);
    }
    forall path: seq<Step>, issue | Reports(eng, p, e, a, path, issue) ensures Error(base + path, issue) in errs {
      NoChildren(eng, p, e, a, path, issue);
      if errs != [] {
        OneOwnIssue(eng, p, e, a, issue, errs[0].issue);
      }
    }
  }

  lemma ReportsHere(eng: Engine, p: Flags, e: Value, a: Value, issue: Issue)
    ensures Reports(eng, p, e, a, [], issue) <==> OwnIssue(eng, p, e, a, issue)
  {
  }

  lemma NoChildren(eng: Engine, p: Flags, e: Value, a: Value, path: seq<Step>, issue: Issue)
    requires Scalar(a) || !Descends(e, a)
    requires Reports(eng, p, e, a, path, issue)
    ensures path == [] && OwnIssue(eng, p, e, a, issue)
  {
    hide OwnIssue, Remaining, LeafMatchType;
  }

  lemma OneLengthIssue(spec: string, a: Value, x: Issue, y: Issue)
    requires LengthIssue(spec, a, x) && LengthIssue(spec, a, y)
    ensures x == y
  {
    hide Denotes, LengthAccepts;
  }

  lemma OneLeafIssue(eng: Engine, e: Value, a: Value, x: Issue, y: Issue)
    requires LeafIssue(eng, e, a, x) && LeafIssue(eng, e, a, y)
    ensures x == y
  {
    hide LeafMatchType, Render;
  }

  lemma OneOwnIssue(eng: Engine, p: Flags, e: Value, a: Value, x: Issue, y: Issue)
    requires Scalar(a) || !Descends(e, a)
    requires OwnIssue(eng, p, e, a, x) && OwnIssue(eng, p, e, a, y)
    ensures x == y
  {
    hide LengthIssue, LeafIssue, LeafMatchType, Elems;
    var mt := LeafMatchType(e);
    if mt.Length? {
      OneLengthIssue(mt.spec, a, x, y);
    } else if Descends(e, a) {
      OneLeafIssue(eng, e, a, x, y);
    }
  }

  /** The entry point: a full comparison from the root. */
  method Compare(eng: Engine, p: Flags, expected: Value, actual: Value) returns (errs: seq<Error>)
    requires NoPanic(eng, p, false, expected, actual)
    ensures errs == [] <==> Accepts(eng, p, expected, actual)
    ensures Exactly(eng, p, [], expected, actual, errs)
  {
    errs := CompareBranch(eng, p, false, [], expected, actual);
  }

  /** A matcher-free expectation keeps every comparison inside the domain. */
  lemma {:induction false} PlainNeverPanics(eng: Engine, p: Flags, failFast: bool, e: Value, a: Value)
    requires MatcherFree(e)
    ensures NoPanic(eng, p, failFast, e, a)
    decreases e, 1
  {
    if Descends(e, a) {
      if a.Obj? {
        forall k | k in e.fields && k in a.fields ensures NoPanic(eng, p, failFast, e.fields[k], a.fields[k]) {
          PlainNeverPanics(eng, p, failFast, e.fields[k], a.fields[k]);
        }
      } else if a.Arr? {
        forall i, j | 0 <= i < |e.items| && 0 <= j < |a.items|
          ensures NoPanic(eng, p, failFast, e.items[i], a.items[j]) && NoPanic(eng, p, true, e.items[i], a.items[j])
        {
          PlainNeverPanics(eng, p, failFast, e.items[i], a.items[j]);
          PlainNeverPanics(eng, p, true, e.items[i], a.items[j]);
        }
        hide NoPanic;
        PlainScanIsSafe(eng, p, failFast, e, a.items, 0, Indices(|a.items|));
      }
    }
  }

  lemma {:induction false} PlainScanIsSafe(eng: Engine, p: Flags, failFast: bool, e: Value, items: seq<Value>, i: nat,
                                           rem: seq<int>)
    requires e.Arr? && i <= |e.items|
    requires forall i, j | 0 <= i < |e.items| && 0 <= j < |items| :: NoPanic(eng, p, true, e.items[i], items[j])
    ensures ScanSafe(eng, p, failFast, e, items, i, rem)
    decreases |e.items| - i
  {
    hide NoPanic, FirstLink;
    if i < |e.items| {
      var k := FirstLink(Verdicts(eng, p, e, items)[i], rem);
      if k < |rem| {
        PlainScanIsSafe(eng, p, failFast, e, items, i + 1, SwapRemove(rem, k));
      } else {
        PlainScanIsSafe(eng, p, failFast, e, items, i + 1, rem);
      }
    }
  }
}
