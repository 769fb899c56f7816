/** One-to-one matchings of a finite relation, and the greedy matcher that pairs each row with the first
    linked column still on offer.  The relation is a matrix of booleans: rows are the expected elements,
    columns the actual ones, both named by their original index, so that equal elements stay apart. */
module Matching {
  type Matrix = seq<seq<bool>>

  ghost predicate Square(m: Matrix) {
    forall i | 0 <= i < |m| :: |m[i]| == |m|
  }

  ghost predicate Links(m: Matrix, i: int, j: int) {
    0 <= i < |m| && 0 <= j < |m[i]| && m[i][j]
  }

  /** A one-to-one pairing of rows with columns, as two mutually inverse maps. */
  datatype Pairing = Pairing(to: map<int, int>, from: map<int, int>) {
    ghost predicate Valid() {
      (forall i | i in to :: to[i] in from && from[to[i]] == i) &&
      (forall j | j in from :: from[j] in to && to[from[j]] == j)
    }
  }

  /** The pairing uses every index below n, on both sides. */
  ghost predicate Bijection(p: Pairing, n: nat) {
    && p.Valid()
    && (forall i :: i in p.to <==> 0 <= i < n) && (forall j :: j in p.from <==> 0 <= j < n)
    && (forall i | i in p.to :: 0 <= p.to[i] < n) && (forall j | j in p.from :: 0 <= p.from[j] < n)
  }

  ghost predicate IsMatching(m: Matrix, p: Pairing) {
    p.Valid() && forall i | i in p.to :: Links(m, i, p.to[i])
  }

  /** No linked row and column are both left over. */
  ghost predicate IsMaximal(m: Matrix, p: Pairing) {
    IsMatching(m, p) && forall i, j | Links(m, i, j) :: i in p.to || j in p.from
  }

  ghost predicate IsPerfect(m: Matrix, p: Pairing) {
    IsMatching(m, p) && Bijection(p, |m|)
  }

  ghost predicate Difunctional(m: Matrix) {
    forall i1, i2, j1, j2 | Links(m, i1, j1) && Links(m, i2, j1) && Links(m, i2, j2) :: Links(m, i1, j2)
  }

  // ---------- cardinalities ----------

  lemma {:induction false} InjectiveCard(a: set<int>, f: map<int, int>, g: map<int, int>, b: set<int>)
    requires forall x | x in a :: x in f && f[x] in b && f[x] in g && g[f[x]] == x
    ensures |a| <= |b|
  {
    if exists x :: x in a {
      var x :| x in a;
      InjectiveCard(a - {x}, f, g, b - {f[x]});
    } else {
      assert a == {};
    }
  }

  lemma SidesAgree(p: Pairing)
    requires p.Valid()
    ensures |p.to| == |p.from| == |p.to.Keys| == |p.from.Keys|
  {
    InjectiveCard(p.to.Keys, p.to, p.from, p.from.Keys);
    InjectiveCard(p.from.Keys, p.from, p.to, p.to.Keys);
  }

  ghost function Below(n: nat): (s: set<int>)
    ensures |s| == n
    ensures forall i :: i in s <==> 0 <= i < n
  {
    if n == 0 then {} else Below(n - 1) + {n - 1}
  }

  lemma SubsetCard(a: set<int>, b: set<int>)
    requires a <= b
    ensures |a| <= |b|
    ensures |a| == |b| ==> a == b
  {
    assert b == a + (b - a);
  }

  /** A valid pairing of indices below n that pairs n of them uses them all. */
  lemma FullIsBijection(p: Pairing, n: nat)
    requires p.Valid() && |p.to| == n
    requires forall i | i in p.to :: 0 <= i < n && 0 <= p.to[i] < n
    ensures Bijection(p, n)
  {
    var all := Below(n);
    SidesAgree(p);
    SubsetCard(p.to.Keys, all);
    SubsetCard(p.from.Keys, all);
  }

  lemma BijectionSize(p: Pairing, n: nat)
    requires Bijection(p, n)
    ensures |p.to| == n
  {
    assert p.to.Keys == Below(n);
  }

  // ---------- what any maximal matching achieves ----------

  /** A maximal matching pairs at least half as many as any matching whatever. */
  lemma MaximalIsHalfOfAny(m: Matrix, maximal: Pairing, other: Pairing)
    requires IsMaximal(m, maximal) && IsMatching(m, other)
    ensures |other.to| <= 2 * |maximal.to|
  {
    var sharedRows := other.to.Keys * maximal.to.Keys;
    var otherRows := other.to.Keys - maximal.to.Keys;
    forall i | i in otherRows ensures other.to[i] in maximal.from.Keys {
      assert Links(m, i, other.to[i]);
    }
    InjectiveCard(otherRows, other.to, other.from, maximal.from.Keys);
    SubsetCard(sharedRows, maximal.to.Keys);
    SidesAgree(maximal);
    assert other.to.Keys == sharedRows + otherRows;
    assert |other.to.Keys| == |other.to|;
  }

  /** On a difunctional relation a maximal matching is perfect as soon as any perfect matching exists. */
  lemma MaximalIsPerfect(m: Matrix, maximal: Pairing, perfect: Pairing)
    requires Square(m) && Difunctional(m)
    requires IsMaximal(m, maximal) && IsPerfect(m, perfect)
    ensures IsPerfect(m, maximal)
  {
    forall i | 0 <= i < |m| ensures i in maximal.to {
      EveryRowIsMatched(m, maximal, perfect, i);
    }
    forall i | i in maximal.to ensures 0 <= i < |m| && 0 <= maximal.to[i] < |m| {
      assert Links(m, i, maximal.to[i]);
    }
    assert maximal.to.Keys == Below(|m|);
    SidesAgree(maximal);
    FullIsBijection(maximal, |m|);
  }

  ghost function ColumnsOf(m: Matrix, i: int): set<int> {
    set j | 0 <= j < |m| && Links(m, i, j)
  }

  ghost function RowsOf(m: Matrix, j: int): set<int> {
    set i | 0 <= i < |m| && Links(m, i, j)
  }

  lemma EveryRowIsMatched(m: Matrix, maximal: Pairing, perfect: Pairing, i: nat)
    requires Square(m) && Difunctional(m)
    requires IsMaximal(m, maximal) && IsPerfect(m, perfect) && i < |m|
    ensures i in maximal.to
  {
    var own := perfect.to[i];
    assert Links(m, i, own);
    hide Difunctional, IsMaximal, IsPerfect, RowsOf, ColumnsOf;
    RowsFitColumns(m, perfect, i, own);
    if i !in maximal.to {
      ColumnsFitOtherRows(m, maximal, i, own);
    }
  }

  lemma RowsFitColumns(m: Matrix, perfect: Pairing, i: nat, own: int)
    requires Square(m) && Difunctional(m) && IsPerfect(m, perfect) && i < |m| && Links(m, i, own)
    ensures |RowsOf(m, own)| <= |ColumnsOf(m, i)|
  {
    forall k | k in RowsOf(m, own) ensures k in perfect.to && perfect.to[k] in ColumnsOf(m, i) {
      assert Links(m, k, perfect.to[k]) && Links(m, k, own);
    }
    hide Difunctional, RowsOf, ColumnsOf, Square;
    InjectiveCard(RowsOf(m, own), perfect.to, perfect.from, ColumnsOf(m, i));
  }

  lemma ColumnsFitOtherRows(m: Matrix, maximal: Pairing, i: nat, own: int)
    requires Square(m) && Difunctional(m) && IsMaximal(m, maximal) && i < |m| && Links(m, i, own) && i !in maximal.to
    ensures |ColumnsOf(m, i)| < |RowsOf(m, own)|
  {
    var others := RowsOf(m, own) - {i};
    forall j | j in ColumnsOf(m, i) ensures j in maximal.from && maximal.from[j] in others {
      var k := maximal.from[j];
      assert Links(m, k, j) && Links(m, i, j) && Links(m, i, own);
    }
    assert i in RowsOf(m, own);
    hide Difunctional, RowsOf, ColumnsOf, Square;
    InjectiveCard(ColumnsOf(m, i), maximal.from, maximal.to, others);
  }

  // ---------- swap-removal ----------

  ghost predicate Distinct(s: seq<int>) {
    forall i, j | 0 <= i < j < |s| :: s[i] != s[j]
  }

  function SwapRemove<T>(s: seq<T>, k: nat): (r: seq<T>)
    requires k < |s|
  {
    s[k := s[|s| - 1]][..|s| - 1]
  }

  /** Swap-removal takes out exactly the element at k. */
  lemma SwapRemoveBag<T>(s: seq<T>, k: nat)
    requires k < |s|
    ensures multiset(SwapRemove(s, k)) == multiset(s) - multiset{s[k]}
  {
    var last := |s| - 1;
    if k == last {
      assert SwapRemove(s, k) == s[..k];
      assert s == s[..k] + [s[k]];
    } else {
      SwapRemoveParts(s, k);
      MovedBag(s[..k], s[k], s[k + 1..last], s[last]);
    }
  }

  lemma SwapRemoveParts<T>(s: seq<T>, k: nat)
    requires k < |s| - 1
    ensures var a, b, last := s[..k], s[k + 1..|s| - 1], s[|s| - 1];
            s == (a + [s[k]]) + (b + [last]) && SwapRemove(s, k) == (a + [last]) + b
  {
  }

  lemma MovedBag<T>(a: seq<T>, x: T, b: seq<T>, y: T)
    ensures multiset((a + [x]) + (b + [y])) == multiset((a + [y]) + b) + multiset{x}
  {
  }

  lemma WithoutMoves<T>(x: seq<T>, y: seq<T>, q: Pairing)
    requires x != [] && |x| == |y| && Bijection(q, |x|) && forall i | 0 <= i < |x| :: y[q.to[i]] == x[i]
    ensures var n := |x| - 1; var r, z := Without(q, n), SwapRemove(y, q.to[n]);
                              |z| == n && y[q.to[n]] == x[n] && forall i | 0 <= i < n :: z[r.to[i]] == x[..n][i]
  {
    var n := |x| - 1;
    forall i | 0 <= i < n ensures SwapRemove(y, q.to[n])[Without(q, n).to[i]] == x[..n][i] {
      assert y[q.to[i]] == x[i];
    }
  }

  /** The bijection without its last row, the last column moved to where that row went. */
  ghost function Without(q: Pairing, n: nat): (r: Pairing)
    requires Bijection(q, n + 1)
    ensures Bijection(r, n)
    ensures forall i | 0 <= i < n :: r.to[i] == if q.to[i] == n then q.to[n] else q.to[i]
  {
    Pairing(map i | i in q.to && i < n :: if q.to[i] == n then q.to[n] else q.to[i],
            map j | j in q.from && j < n :: if j == q.to[n] then q.from[n] else q.from[j])
  }

  lemma SwapRemoveDistinct(s: seq<int>, k: nat)
    requires k < |s| && Distinct(s)
    ensures Distinct(SwapRemove(s, k))
    ensures forall x :: x in SwapRemove(s, k) <==> x in s && x != s[k]
  {
    var r := SwapRemove(s, k);
    forall x | x in s && x != s[k] ensures x in r {
      var i :| 0 <= i < |s| && s[i] == x;
      if i == |s| - 1 {
        assert r[k] == x;
      } else {
        assert r[i] == x;
      }
    }
  }

  // ---------- the greedy matcher ----------

  /** The first position in `rem` whose column the row links to, or |rem|. */
  function FirstLink(row: seq<bool>, rem: seq<int>): (k: nat)
    ensures k <= |rem|
    ensures k < |rem| ==> 0 <= rem[k] < |row| && row[rem[k]]
    ensures forall j | 0 <= j < k :: 0 <= rem[j] < |row| ==> !row[rem[j]]
  {
    if rem == [] then 0
    else if 0 <= rem[0] < |row| && row[rem[0]] then 0
    else 1 + FirstLink(row, rem[1..])
  }

  /** `pairs`: the matching found; `left`: rows without a partner; `free`: columns nobody took. */
  datatype Outcome = Outcome(pairs: Pairing, left: seq<int>, free: seq<int>)

  function Add(p: Pairing, i: int, j: int): (r: Pairing) {
    Pairing(p.to[i := j], p.from[j := i])
  }

  function Greedy(m: Matrix, i: nat, rem: seq<int>): Outcome
    decreases |m| - i
  {
    if i >= |m| then Outcome(Pairing(map[], map[]), [], rem)
    else
      var k := FirstLink(m[i], rem);
      if k < |rem| then
        var rest := Greedy(m, i + 1, SwapRemove(rem, k));
        Outcome(Add(rest.pairs, i, rem[k]), rest.left, rest.free)
      else
        var rest := Greedy(m, i + 1, rem);
        Outcome(rest.pairs, [i] + rest.left, rest.free)
  }

  /** The pairs found use rows from i on and columns on offer, and no linked pair is passed over. */
  ghost predicate Thorough(m: Matrix, i: nat, rem: seq<int>, p: Pairing) {
    && IsMatching(m, p)
    && (forall x | x in p.to :: i <= x)
    && (forall y | y in p.from :: y in rem)
    && (forall x, y | i <= x && y in rem && Links(m, x, y) :: x in p.to || y in p.from)
  }

  lemma ThoroughAdd(m: Matrix, i: nat, rem: seq<int>, k: nat, p: Pairing)
    requires Distinct(rem) && k < |rem| && Links(m, i, rem[k])
    requires Thorough(m, i + 1, SwapRemove(rem, k), p)
    ensures Thorough(m, i, rem, Add(p, i, rem[k]))
    ensures i !in p.to && rem[k] !in p.from
  {
    SwapRemoveDistinct(rem, k);
  }

  lemma {:induction false} GreedyIsThorough(m: Matrix, i: nat, rem: seq<int>)
    requires Distinct(rem)
    ensures Thorough(m, i, rem, Greedy(m, i, rem).pairs)
    decreases |m| - i
  {
    if i < |m| {
      var k := FirstLink(m[i], rem);
      if k < |rem| {
        SwapRemoveDistinct(rem, k);
        GreedyIsThorough(m, i + 1, SwapRemove(rem, k));
        ThoroughAdd(m, i, rem, k, Greedy(m, i + 1, SwapRemove(rem, k)).pairs);
      } else {
        GreedyIsThorough(m, i + 1, rem);
      }
    }
  }

  /** Every row is paired or left, every column taken or free, and nothing is counted twice. */
  ghost predicate Partitions(m: Matrix, i: nat, rem: seq<int>, g: Outcome) {
    && (forall x :: x in g.left <==> i <= x < |m| && x !in g.pairs.to)
    && (forall y :: y in g.free <==> y in rem && y !in g.pairs.from)
    && Distinct(g.left) && Distinct(g.free)
    && |g.left| + |g.pairs.to| == |m| - i
    && |g.free| + |g.pairs.from| == |rem|
  }

  lemma PartitionsTaken(m: Matrix, i: nat, rem: seq<int>, k: nat, g: Outcome)
    requires Distinct(rem) && i < |m| && k < |rem| && Links(m, i, rem[k])
    requires Thorough(m, i + 1, SwapRemove(rem, k), g.pairs) && Partitions(m, i + 1, SwapRemove(rem, k), g)
    ensures Partitions(m, i, rem, Outcome(Add(g.pairs, i, rem[k]), g.left, g.free))
  {
    ThoroughAdd(m, i, rem, k, g.pairs);
    SwapRemoveDistinct(rem, k);
  }

  lemma PartitionsMissed(m: Matrix, i: nat, rem: seq<int>, g: Outcome)
    requires i < |m| && Thorough(m, i + 1, rem, g.pairs) && Partitions(m, i + 1, rem, g)
    ensures Partitions(m, i, rem, Outcome(g.pairs, [i] + g.left, g.free))
  {
    assert i !in g.left && i !in g.pairs.to;
  }

  lemma {:induction false} GreedyPartitions(m: Matrix, i: nat, rem: seq<int>)
    requires Distinct(rem) && i <= |m|
    ensures Partitions(m, i, rem, Greedy(m, i, rem))
    decreases |m| - i
  {
    if i < |m| {
      var k := FirstLink(m[i], rem);
      if k < |rem| {
        SwapRemoveDistinct(rem, k);
        var rest := SwapRemove(rem, k);
        GreedyIsThorough(m, i + 1, rest);
        GreedyPartitions(m, i + 1, rest);
        PartitionsTaken(m, i, rem, k, Greedy(m, i + 1, rest));
      } else {
        GreedyIsThorough(m, i + 1, rem);
        GreedyPartitions(m, i + 1, rem);
        PartitionsMissed(m, i, rem, Greedy(m, i + 1, rem));
      }
    }
  }

  function Indices(n: nat): (s: seq<int>)
    ensures |s| == n && forall i | 0 <= i < n :: s[i] == i
  {
    seq(n, i => i)
  }

  /** The run over a square relation ends in a maximal matching with equally many left on both sides. */
  lemma GreedyIsMaximal(m: Matrix)
    requires Square(m)
    ensures var g := Greedy(m, 0, Indices(|m|));
            && IsMaximal(m, g.pairs)
            && Partitions(m, 0, Indices(|m|), g)
            && |g.left| == |g.free|
  {
    var all := Indices(|m|);
    GreedyIsThorough(m, 0, all);
    GreedyPartitions(m, 0, all);
    var g := Greedy(m, 0, all);
    SidesAgree(g.pairs);
    forall i, j | Links(m, i, j) ensures i in g.pairs.to || j in g.pairs.from {
      assert all[j] == j;
    }
  }

  /** Nothing is left over exactly when the matching found is perfect; on a difunctional relation that is
      exactly when some perfect matching exists. */
  lemma GreedySucceedsIff(m: Matrix)
    requires Square(m)
    ensures var g := Greedy(m, 0, Indices(|m|));
            && (g.left == [] <==> IsPerfect(m, g.pairs))
            && (Difunctional(m) ==> (g.left == [] <==> exists perfect :: IsPerfect(m, perfect)))
  {
    GreedyIsMaximal(m);
    var g := Greedy(m, 0, Indices(|m|));
    if g.left == [] {
      forall i | i in g.pairs.to ensures 0 <= i < |m| && 0 <= g.pairs.to[i] < |m| {
        assert Links(m, i, g.pairs.to[i]);
      }
      FullIsBijection(g.pairs, |m|);
    }
    if IsPerfect(m, g.pairs) {
      BijectionSize(g.pairs, |m|);
    }
    if Difunctional(m) {
      forall perfect | IsPerfect(m, perfect) ensures IsPerfect(m, g.pairs) {
        MaximalIsPerfect(m, g.pairs, perfect);
      }
    }
  }

  // ---------- any matcher that keeps taking linked pairs ----------

  /** Some pairs are taken; `rows` and `cols` name what is still on offer, in any order. */
  ghost predicate Underway(m: Matrix, p: Pairing, rows: seq<int>, cols: seq<int>) {
    && IsMatching(m, p) && Distinct(rows) && Distinct(cols)
    && (forall x :: x in rows <==> 0 <= x < |m| && x !in p.to)
    && (forall y :: y in cols <==> 0 <= y < |m| && y !in p.from)
  }

  lemma UnderwayStart(m: Matrix)
    ensures Underway(m, Pairing(map[], map[]), Indices(|m|), Indices(|m|))
  {
    forall x | 0 <= x < |m| ensures x in Indices(|m|) {
      assert Indices(|m|)[x] == x;
    }
  }

  lemma UnderwayTake(m: Matrix, p: Pairing, rows: seq<int>, cols: seq<int>, i: nat, j: nat)
    requires Underway(m, p, rows, cols) && i < |rows| && j < |cols| && Links(m, rows[i], cols[j])
    ensures Underway(m, Add(p, rows[i], cols[j]), SwapRemove(rows, i), SwapRemove(cols, j))
  {
    SwapRemoveDistinct(rows, i);
    SwapRemoveDistinct(cols, j);
  }

  /** When no pair on offer is linked, the pairs taken are maximal, and perfect just when no row is left. */
  lemma UnderwayDone(m: Matrix, p: Pairing, rows: seq<int>, cols: seq<int>)
    requires Square(m) && Underway(m, p, rows, cols)
    requires forall x, y | x in rows && y in cols :: !Links(m, x, y)
    ensures IsMaximal(m, p) && (IsPerfect(m, p) <==> rows == [])
  {
    if rows == [] {
      forall x | 0 <= x < |m| ensures x in p.to {
        assert x !in rows;
      }
      forall x | x in p.to ensures 0 <= x < |m| && 0 <= p.to[x] < |m| {
        assert Links(m, x, p.to[x]);
      }
      assert p.to.Keys == Below(|m|);
      SidesAgree(p);
      FullIsBijection(p, |m|);
    } else {
      assert rows[0] in rows;
    }
  }

  lemma DifunctionalOutcome(m: Matrix, p: Pairing)
    requires Square(m) && Difunctional(m) && IsMaximal(m, p)
    ensures IsPerfect(m, p) <==> exists perfect :: IsPerfect(m, perfect)
  {
    forall perfect | IsPerfect(m, perfect) ensures IsPerfect(m, p) {
      MaximalIsPerfect(m, p, perfect);
    }
  }
}
