/** How the verdict of the code relates to the documentation: sound for every input and flag setting, and exact
    wherever, at every depth that is compared without order, expectations that share an item conform to the same
    items; so in ordered mode always, and in unordered mode on values without matchers or extra fields. */
module AcceptanceTheorems {
  import opened Wrappers
  import opened ArrayLen
  import opened ArrayLenForms
  import opened Json
  import opened Matching
  import opened Acceptance

  // ---------- Similar is an equivalence ----------

  ghost function Identity(n: nat): (q: Pairing)
    ensures Bijection(q, n)
    ensures forall i | 0 <= i < n :: q.to[i] == i
  {
    var m := map i: int | i in Below(n) :: i;
    Pairing(m, m)
  }

  lemma {:induction false} SimilarReflexive(shape: bool, v: Value)
    ensures Similar(shape, v, v)
    decreases v
  {
    match v
    case Arr(items) =>
      var q := Identity(|items|);
      forall i | 0 <= i < |items| ensures Similar(shape, items[i], items[q.to[i]]) {
        SimilarReflexive(shape, items[i]);
      }
    case Obj(fields) =>
      forall k | k in fields ensures Similar(shape, fields[k], fields[k]) {
        SimilarReflexive(shape, fields[k]);
      }
    case _ =>
  }

  function Flip(q: Pairing): Pairing {
    Pairing(q.from, q.to)
  }

  lemma {:induction false} SimilarSymmetric(shape: bool, v: Value, w: Value)
    requires Similar(shape, v, w)
    ensures Similar(shape, w, v)
    decreases v
  {
    match v
    case Arr(items) =>
      var q :| Bijection(q, |items|) && forall i | 0 <= i < |items| :: Similar(shape, items[i], w.items[q.to[i]]);
      var r := Flip(q);
      assert Bijection(r, |w.items|);
      forall j | 0 <= j < |w.items| ensures Similar(shape, w.items[j], items[r.to[j]]) {
        SimilarSymmetric(shape, items[r.to[j]], w.items[j]);
      }
    case Obj(fields) =>
      forall k | k in fields ensures Similar(shape, w.fields[k], fields[k]) {
        SimilarSymmetric(shape, fields[k], w.fields[k]);
      }
    case _ =>
  }

  function Compose(n: nat, q: Pairing, r: Pairing): (s: Pairing)
    requires Bijection(q, n) && Bijection(r, n)
    ensures Bijection(s, n)
    ensures forall i | 0 <= i < n :: s.to[i] == r.to[q.to[i]]
  {
    Pairing(map i | i in q.to :: r.to[q.to[i]], map j | j in r.from :: q.from[r.from[j]])
  }

  lemma {:induction false} SimilarTransitive(shape: bool, u: Value, v: Value, w: Value)
    requires Similar(shape, u, v) && Similar(shape, v, w)
    ensures Similar(shape, u, w)
    decreases u
  {
    match u
    case Arr(items) =>
      var n := |items|;
      var q :| Bijection(q, n) && forall i | 0 <= i < n :: Similar(shape, items[i], v.items[q.to[i]]);
      var r :| Bijection(r, n) && forall i | 0 <= i < n :: Similar(shape, v.items[i], w.items[r.to[i]]);
      var s := Compose(n, q, r);
      forall i | 0 <= i < n ensures Similar(shape, items[i], w.items[s.to[i]]) {
        SimilarTransitive(shape, items[i], v.items[q.to[i]], w.items[s.to[i]]);
      }
    case Obj(fields) =>
      forall k | k in fields ensures Similar(shape, fields[k], w.fields[k]) {
        SimilarTransitive(shape, fields[k], v.fields[k], w.fields[k]);
      }
    case _ =>
  }

  // ---------- soundness, for every input and flag setting ----------

  lemma KeysByCount(small: map<string, Value>, big: map<string, Value>)
    requires small.Keys <= big.Keys
    ensures |small| == |big| <==> small.Keys == big.Keys
  {
    assert big.Keys == small.Keys + (big.Keys - small.Keys);
    assert |small.Keys| == |small| && |big.Keys| == |big|;
  }

  lemma VerdictLinks(eng: Engine, p: Flags, e: Value, items: seq<Value>, i: int, j: int)
    requires !LeafMatchType(e).Length?
    ensures Links(Verdicts(eng, p, e, items), i, j) <==>
            0 <= i < |Elems(e)| && 0 <= j < |items| && Accepts(eng, p, Elems(e)[i], items[j])
  {
  }

  /** Whatever is accepted conforms: an unordered match is a real one-to-one assignment. */
  lemma {:induction false} AcceptedConforms(eng: Engine, p: Flags, e: Value, a: Value)
    requires Accepts(eng, p, e, a)
    ensures Conforms(eng, p, e, a)
    decreases Rank(e), e
  {
    if a.Arr? && !LeafMatchType(e).Length? {
      AcceptedItemsConform(eng, p, e, a);
    } else if a.Obj? && !LeafMatchType(e).Length? {
      KeysByCount(e.fields, a.fields);
      forall k | k in e.fields ensures Conforms(eng, p, e.fields[k], a.fields[k]) {
        AcceptedConforms(eng, p, e.fields[k], a.fields[k]);
      }
    }
  }

  lemma {:induction false} AcceptedItemsConform(eng: Engine, p: Flags, e: Value, a: Value)
    requires a.Arr? && !LeafMatchType(e).Length? && Accepts(eng, p, e, a)
    ensures ItemsConform(eng, p, e, a.items)
    decreases Rank(e), e, 0
  {
    var es := Elems(e);
    if p.unordered {
      var m := Verdicts(eng, p, e, a.items);
      GreedySucceedsIff(m);
      var q := Greedy(m, 0, Indices(|a.items|)).pairs;
      forall i | 0 <= i < |es| ensures Conforms(eng, p, es[i], a.items[q.to[i]]) {
        assert Links(m, i, q.to[i]);
        AcceptedConforms(eng, p, es[i], a.items[q.to[i]]);
      }
    } else {
      forall i | 0 <= i < |es| ensures Conforms(eng, p, es[i], a.items[i]) {
        AcceptedConforms(eng, p, es[i], a.items[i]);
      }
    }
  }

  /** In ordered mode whatever conforms is accepted. */
  lemma {:induction false} OrderedConformsAccepted(eng: Engine, p: Flags, e: Value, a: Value)
    requires !p.unordered && Conforms(eng, p, e, a)
    ensures Accepts(eng, p, e, a)
    decreases Rank(e), e
  {
    if a.Arr? && !LeafMatchType(e).Length? {
      var es := Elems(e);
      forall i | 0 <= i < |es| ensures Accepts(eng, p, es[i], a.items[i]) {
        OrderedConformsAccepted(eng, p, es[i], a.items[i]);
      }
    } else if a.Obj? && !LeafMatchType(e).Length? {
      KeysByCount(e.fields, a.fields);
      forall k | k in e.fields ensures Accepts(eng, p, e.fields[k], a.fields[k]) {
        OrderedConformsAccepted(eng, p, e.fields[k], a.fields[k]);
      }
    }
  }

  // ---------- unordered mode without extra fields ----------

  lemma {:induction false} ConformsSimilar(eng: Engine, p: Flags, e: Value, a: Value)
    requires p.unordered && p.disallowExtra && MatcherFree(e) && Conforms(eng, p, e, a)
    ensures Similar(p.ignoreValues, e, a)
    decreases e
  {
    match e
    case Arr(es) =>
      var q :| Bijection(q, |es|) && forall i | 0 <= i < |es| :: Conforms(eng, p, es[i], a.items[q.to[i]]);
      forall i | 0 <= i < |es| ensures Similar(p.ignoreValues, es[i], a.items[q.to[i]]) {
        ConformsSimilar(eng, p, es[i], a.items[q.to[i]]);
      }
    case Obj(fields) =>
      forall k | k in fields ensures Similar(p.ignoreValues, fields[k], a.fields[k]) {
        ConformsSimilar(eng, p, fields[k], a.fields[k]);
      }
    case _ =>
  }

  lemma AcceptedSimilar(eng: Engine, p: Flags, e: Value, a: Value)
    requires p.unordered && p.disallowExtra && MatcherFree(e) && Accepts(eng, p, e, a)
    ensures Similar(p.ignoreValues, e, a)
  {
    AcceptedConforms(eng, p, e, a);
    ConformsSimilar(eng, p, e, a);
  }

  lemma {:induction false} SimilarAccepted(eng: Engine, p: Flags, e: Value, a: Value)
    requires p.unordered && p.disallowExtra && MatcherFree(e) && Similar(p.ignoreValues, e, a)
    ensures Accepts(eng, p, e, a)
    decreases e, 2
  {
    match e
    case Arr(es) =>
      SimilarItemsAccepted(eng, p, e, a);
    case Obj(fields) =>
      KeysByCount(fields, a.fields);
      forall k | k in fields ensures Accepts(eng, p, fields[k], a.fields[k]) {
        SimilarAccepted(eng, p, fields[k], a.fields[k]);
      }
    case _ =>
  }

  lemma {:induction false} SimilarItemsAccepted(eng: Engine, p: Flags, e: Value, a: Value)
    requires e.Arr? && p.unordered && p.disallowExtra && MatcherFree(e) && Similar(p.ignoreValues, e, a)
    ensures Greedy(Verdicts(eng, p, e, a.items), 0, Indices(|a.items|)).left == []
    decreases e, 1
  {
    var q :| Bijection(q, |e.items|) && SimilarBy(p.ignoreValues, e.items, a.items, q);
    hide Similar, MatcherFree, Accepts, Links, SimilarBy, Bijection, LeafMatchType;
    forall i | 0 <= i < |e.items| ensures Links(Verdicts(eng, p, e, a.items), i, q.to[i]) {
      SimilarItemAccepted(eng, p, e, a, q, i);
    }
    VerdictsDifunctional(eng, p, e, a.items);
    GreedyFinds(Verdicts(eng, p, e, a.items), q);
  }

  ghost predicate SimilarBy(shape: bool, es: seq<Value>, items: seq<Value>, q: Pairing)
    requires Bijection(q, |es|) && |es| == |items|
  {
    forall i | 0 <= i < |es| :: Similar(shape, es[i], items[q.to[i]])
  }

  lemma {:induction false} SimilarItemAccepted(eng: Engine, p: Flags, e: Value, a: Value, q: Pairing, i: nat)
    requires e.Arr? && a.Arr? && p.unordered && p.disallowExtra && MatcherFree(e) && i < |e.items| == |a.items|
    requires Bijection(q, |e.items|) && SimilarBy(p.ignoreValues, e.items, a.items, q)
    ensures Links(Verdicts(eng, p, e, a.items), i, q.to[i])
    decreases e, 0
  {
    SimilarAccepted(eng, p, e.items[i], a.items[q.to[i]]);
    VerdictLinks(eng, p, e, a.items, i, q.to[i]);
  }

  lemma GreedyFinds(m: Matrix, q: Pairing)
    requires Square(m) && Difunctional(m) && Bijection(q, |m|) && forall i | 0 <= i < |m| :: Links(m, i, q.to[i])
    ensures Greedy(m, 0, Indices(|m|)).left == []
  {
    PerfectByLinks(m, q);
    hide *;
    GreedySucceedsIff(m);
  }

  lemma PerfectByLinks(m: Matrix, q: Pairing)
    requires Bijection(q, |m|) && forall i | 0 <= i < |m| :: Links(m, i, q.to[i])
    ensures IsPerfect(m, q)
  {
  }

  /** Two expectations that share an acceptable item accept the same items. */
  lemma {:induction false} VerdictsDifunctional(eng: Engine, p: Flags, e: Value, items: seq<Value>)
    requires e.Arr? && p.unordered && p.disallowExtra && MatcherFree(e)
    ensures Difunctional(Verdicts(eng, p, e, items))
    decreases e, 0, 1
  {
    hide Verdicts, Links, MatcherFree;
    var m := Verdicts(eng, p, e, items);
    forall i1, i2, j1, j2 | Links(m, i1, j1) && Links(m, i2, j1) && Links(m, i2, j2) ensures Links(m, i1, j2) {
      SharedItemLinks(eng, p, e, items, i1, i2, j1, j2);
    }
  }

  lemma {:induction false} SharedItemLinks(eng: Engine, p: Flags, e: Value, items: seq<Value>, i1: int, i2: int,
                                           j1: int, j2: int)
    requires e.Arr? && p.unordered && p.disallowExtra && MatcherFree(e)
    requires var m := Verdicts(eng, p, e, items); Links(m, i1, j1) && Links(m, i2, j1) && Links(m, i2, j2)
    ensures Links(Verdicts(eng, p, e, items), i1, j2)
    decreases e, 0, 0
  {
    var es, shape := e.items, p.ignoreValues;
    AcceptedSimilar(eng, p, es[i1], items[j1]);
    AcceptedSimilar(eng, p, es[i2], items[j1]);
    AcceptedSimilar(eng, p, es[i2], items[j2]);
    SimilarSymmetric(shape, es[i2], items[j1]);
    SimilarTransitive(shape, es[i1], items[j1], es[i2]);
    SimilarTransitive(shape, es[i1], es[i2], items[j2]);
    SimilarAccepted(eng, p, es[i1], items[j2]);
  }

  // ---------- exactness, input by input ----------

  /** Which elements of e the items conform to. */
  ghost function Conformities(eng: Engine, p: Flags, e: Value, items: seq<Value>): Matrix
    requires !LeafMatchType(e).Length?
  {
    var es := Elems(e);
    seq(|es|, i requires 0 <= i < |es| =>
      seq(|items|, j requires 0 <= j < |items| => Conforms(eng, p, es[i], items[j])))
  }

  /** At every depth that is compared without order, elements that share a conforming item conform to the same
      items. */
  ghost predicate Unambiguous(eng: Engine, p: Flags, e: Value, a: Value)
    decreases Rank(e), e
  {
    if LeafMatchType(e).Length? then true
    else if a.Arr? then
      var es, items := Elems(e), a.items;
      && (p.unordered ==> Difunctional(Conformities(eng, p, e, items)))
      && forall i, j | 0 <= i < |es| && 0 <= j < |items| && (p.unordered || i == j) ::
           Unambiguous(eng, p, es[i], items[j])
    else if e.Obj? && a.Obj? then
      forall k | k in e.fields && k in a.fields :: Unambiguous(eng, p, e.fields[k], a.fields[k])
    else true
  }

  /** For every flag setting, matchers included: an unambiguous input is accepted exactly when it conforms. */
  lemma UnambiguousExact(eng: Engine, p: Flags, e: Value, a: Value)
    requires Unambiguous(eng, p, e, a)
    ensures Accepts(eng, p, e, a) <==> Conforms(eng, p, e, a)
  {
    if Accepts(eng, p, e, a) {
      AcceptedConforms(eng, p, e, a);
    }
    if Conforms(eng, p, e, a) {
      ConformingAccepted(eng, p, e, a);
    }
  }

  lemma {:induction false} ConformingAccepted(eng: Engine, p: Flags, e: Value, a: Value)
    requires Unambiguous(eng, p, e, a) && Conforms(eng, p, e, a)
    ensures Accepts(eng, p, e, a)
    decreases Rank(e), e, 1
  {
    if !LeafMatchType(e).Length? {
      if a.Arr? {
        if p.unordered {
          ConformingItemsAccepted(eng, p, e, a);
        } else {
          forall i | 0 <= i < |a.items| ensures Accepts(eng, p, Elems(e)[i], a.items[i]) {
            ConformingAccepted(eng, p, Elems(e)[i], a.items[i]);
          }
        }
      } else if a.Obj? {
        KeysByCount(e.fields, a.fields);
        forall k | k in e.fields ensures Accepts(eng, p, e.fields[k], a.fields[k]) {
          ConformingAccepted(eng, p, e.fields[k], a.fields[k]);
        }
      }
    }
  }

  lemma {:induction false} ConformingItemsAccepted(eng: Engine, p: Flags, e: Value, a: Value)
    requires a.Arr? && p.unordered && !LeafMatchType(e).Length? && ItemsConform(eng, p, e, a.items)
    requires Unambiguous(eng, p, e, a)
    ensures Greedy(Verdicts(eng, p, e, a.items), 0, Indices(|a.items|)).left == []
    decreases Rank(e), e, 0, 1
  {
    var q := ConformingPairs(eng, p, e, a);
    DifunctionalHere(eng, p, e, a);
    hide Unambiguous, ItemsConform, Links, Verdicts, Conformities, Bijection, LeafMatchType, Elems;
    var m, n := Verdicts(eng, p, e, a.items), Conformities(eng, p, e, a.items);
    forall i, j ensures Links(m, i, j) <==> Links(n, i, j) {
      SameVerdict(eng, p, e, a, i, j);
    }
    SameLinks(m, n);
    GreedyFinds(m, q);
  }

  lemma ConformingPairs(eng: Engine, p: Flags, e: Value, a: Value) returns (q: Pairing)
    requires a.Arr? && p.unordered && !LeafMatchType(e).Length? && ItemsConform(eng, p, e, a.items)
    ensures |Verdicts(eng, p, e, a.items)| == |a.items| && Square(Verdicts(eng, p, e, a.items))
    ensures Bijection(q, |a.items|)
    ensures forall i | 0 <= i < |a.items| :: Links(Conformities(eng, p, e, a.items), i, q.to[i])
  {
    hide Accepts, Conforms, LeafMatchType, Elems, Verdicts, Links, Conformities, Square;
    var es, items := Elems(e), a.items;
    q :| Bijection(q, |es|) && forall i | 0 <= i < |es| :: Conforms(eng, p, es[i], items[q.to[i]]);
    VerdictsSquare(eng, p, e, items);
    forall i | 0 <= i < |items| ensures Links(Conformities(eng, p, e, items), i, q.to[i]) {
      ConformityLinks(eng, p, e, items, i, q.to[i]);
    }
  }

  lemma ConformityLinks(eng: Engine, p: Flags, e: Value, items: seq<Value>, i: int, j: int)
    requires !LeafMatchType(e).Length?
    ensures Links(Conformities(eng, p, e, items), i, j) <==>
            0 <= i < |Elems(e)| && 0 <= j < |items| && Conforms(eng, p, Elems(e)[i], items[j])
  {
    hide Conforms, Elems;
  }

  lemma VerdictsSquare(eng: Engine, p: Flags, e: Value, items: seq<Value>)
    requires !LeafMatchType(e).Length? && |Elems(e)| == |items|
    ensures |Verdicts(eng, p, e, items)| == |items| && Square(Verdicts(eng, p, e, items))
  {
  }

  lemma DifunctionalHere(eng: Engine, p: Flags, e: Value, a: Value)
    requires a.Arr? && p.unordered && !LeafMatchType(e).Length? && Unambiguous(eng, p, e, a)
    ensures Difunctional(Conformities(eng, p, e, a.items))
  {
  }

  lemma SameLinks(m: Matrix, n: Matrix)
    requires Difunctional(n) && forall i, j :: Links(m, i, j) <==> Links(n, i, j)
    ensures Difunctional(m)
  {
    hide Links;
    forall i1, i2, j1, j2 | Links(m, i1, j1) && Links(m, i2, j1) && Links(m, i2, j2) ensures Links(m, i1, j2) {
      assert Links(n, i1, j1) && Links(n, i2, j1) && Links(n, i2, j2);
    }
  }

  lemma {:induction false} SameVerdict(eng: Engine, p: Flags, e: Value, a: Value, i: int, j: int)
    requires a.Arr? && p.unordered && !LeafMatchType(e).Length? && Unambiguous(eng, p, e, a)
    ensures Links(Verdicts(eng, p, e, a.items), i, j) <==> Links(Conformities(eng, p, e, a.items), i, j)
    decreases Rank(e), e, 0, 0
  {
    if 0 <= i < |Elems(e)| && 0 <= j < |a.items| {
      var x, y := Elems(e)[i], a.items[j];
      assert Unambiguous(eng, p, x, y);
      if Accepts(eng, p, x, y) {
        AcceptedConforms(eng, p, x, y);
      }
      if Conforms(eng, p, x, y) {
        ConformingAccepted(eng, p, x, y);
      }
    }
  }

  // ---------- the main statements ----------

  /** What one round of unordered matching achieves, whatever the values: every element is paired or left over,
      the pairs agree, no two leftovers do, and no assignment pairs more than twice as many. */
  lemma GreedySplit(eng: Engine, p: Flags, e: Value, items: seq<Value>, other: Pairing)
    requires !LeafMatchType(e).Length? && |Elems(e)| == |items|
    requires IsMatching(Verdicts(eng, p, e, items), other)
    ensures var g := Greedy(Verdicts(eng, p, e, items), 0, Indices(|items|));
            && Partitions(Verdicts(eng, p, e, items), 0, Indices(|items|), g) && |g.left| == |g.free|
            && (forall i | i in g.pairs.to :: Agree(eng, p, e, items, i, g.pairs.to[i]))
            && (forall i, j | i in g.left && j in g.free :: !Agree(eng, p, e, items, i, j))
            && |other.to| <= 2 * |g.pairs.to|
  {
    hide Accepts, Greedy;
    var m := Verdicts(eng, p, e, items);
    GreedyIsMaximal(m);
    var g := Greedy(m, 0, Indices(|items|));
    forall i | i in g.pairs.to ensures Agree(eng, p, e, items, i, g.pairs.to[i]) {
      assert Links(m, i, g.pairs.to[i]);
    }
    forall i, j | i in g.left && j in g.free ensures !Agree(eng, p, e, items, i, j) {
      assert !Links(m, i, j);
    }
    MaximalIsHalfOfAny(m, g.pairs, other);
  }

  ghost predicate Agree(eng: Engine, p: Flags, e: Value, items: seq<Value>, i: int, j: int) {
    0 <= i < |Elems(e)| && 0 <= j < |items| && Accepts(eng, p, Elems(e)[i], items[j])
  }

  /** Ordered mode: accepted exactly when it conforms. */
  lemma OrderedExact(eng: Engine, p: Flags, e: Value, a: Value)
    requires !p.unordered
    ensures Accepts(eng, p, e, a) <==> Conforms(eng, p, e, a)
  {
    if Accepts(eng, p, e, a) {
      AcceptedConforms(eng, p, e, a);
    }
    if Conforms(eng, p, e, a) {
      OrderedConformsAccepted(eng, p, e, a);
    }
  }

  /** Unordered mode without extra fields: accepted exactly when equal up to permuting arrays at every depth. */
  lemma UnorderedExact(eng: Engine, p: Flags, e: Value, a: Value)
    requires p.unordered && p.disallowExtra && MatcherFree(e)
    ensures Accepts(eng, p, e, a) <==> Similar(p.ignoreValues, e, a)
    ensures Accepts(eng, p, e, a) <==> Conforms(eng, p, e, a)
  {
    if Accepts(eng, p, e, a) {
      AcceptedConforms(eng, p, e, a);
    }
    if Conforms(eng, p, e, a) {
      ConformsSimilar(eng, p, e, a);
    }
    if Similar(p.ignoreValues, e, a) {
      SimilarAccepted(eng, p, e, a);
    }
  }

  /** Acceptance is then reflexive, symmetric and transitive. */
  lemma AcceptanceIsReflexive(eng: Engine, p: Flags, u: Value)
    requires p.unordered && p.disallowExtra && MatcherFree(u)
    ensures Accepts(eng, p, u, u)
  {
    hide Accepts, Similar, Conforms, MatcherFree;
    SimilarReflexive(p.ignoreValues, u);
    SimilarAccepted(eng, p, u, u);
  }

  lemma AcceptanceIsSymmetric(eng: Engine, p: Flags, u: Value, v: Value)
    requires p.unordered && p.disallowExtra && MatcherFree(u) && MatcherFree(v) && Accepts(eng, p, u, v)
    ensures Accepts(eng, p, v, u)
  {
    hide Accepts, Similar, Conforms, MatcherFree;
    AcceptedSimilar(eng, p, u, v);
    SimilarSymmetric(p.ignoreValues, u, v);
    SimilarAccepted(eng, p, v, u);
  }

  lemma AcceptanceIsTransitive(eng: Engine, p: Flags, u: Value, v: Value, w: Value)
    requires p.unordered && p.disallowExtra && MatcherFree(u) && MatcherFree(v)
    requires Accepts(eng, p, u, v) && Accepts(eng, p, v, w)
    ensures Accepts(eng, p, u, w)
  {
    hide Accepts, Similar, Conforms, MatcherFree;
    AcceptedSimilar(eng, p, u, v);
    AcceptedSimilar(eng, p, v, w);
    SimilarTransitive(p.ignoreValues, u, v, w);
    SimilarAccepted(eng, p, u, w);
  }

  lemma {:induction false} PermutingKeepsMatcherFree(v: Value, w: Value)
    requires Similar(false, v, w) && MatcherFree(v)
    ensures MatcherFree(w)
    decreases v
  {
    match v
    case Arr(items) =>
      var q :| Bijection(q, |items|) && forall i | 0 <= i < |items| :: Similar(false, items[i], w.items[q.to[i]]);
      forall j | 0 <= j < |w.items| ensures MatcherFree(w.items[j]) {
        PermutingKeepsMatcherFree(items[q.from[j]], w.items[j]);
      }
    case Obj(fields) =>
      forall k | k in fields ensures MatcherFree(w.fields[k]) {
        PermutingKeepsMatcherFree(fields[k], w.fields[k]);
      }
    case _ =>
  }

  lemma {:induction false} PermutingKeepsShape(shape: bool, v: Value, w: Value)
    requires Similar(false, v, w)
    ensures Similar(shape, v, w)
    decreases v
  {
    match v
    case Arr(items) =>
      var q :| Bijection(q, |items|) && forall i | 0 <= i < |items| :: Similar(false, items[i], w.items[q.to[i]]);
      forall i | 0 <= i < |items| ensures Similar(shape, items[i], w.items[q.to[i]]) {
        PermutingKeepsShape(shape, items[i], w.items[q.to[i]]);
      }
    case Obj(fields) =>
      forall k | k in fields ensures Similar(shape, fields[k], w.fields[k]) {
        PermutingKeepsShape(shape, fields[k], w.fields[k]);
      }
    case _ =>
  }

  /** Permuting any arrays on either side leaves the verdict as it was. */
  lemma PermutingChangesNothing(eng: Engine, p: Flags, e: Value, a: Value, e': Value, a': Value)
    requires p.unordered && p.disallowExtra && MatcherFree(e)
    requires Similar(false, e, e') && Similar(false, a, a')
    ensures Accepts(eng, p, e, a) <==> Accepts(eng, p, e', a')
  {
    var shape := p.ignoreValues;
    PermutingKeepsMatcherFree(e, e');
    PermutingKeepsShape(shape, e, e');
    PermutingKeepsShape(shape, a, a');
    UnorderedExact(eng, p, e, a);
    UnorderedExact(eng, p, e', a');
    SimilarSymmetric(shape, e, e');
    SimilarSymmetric(shape, a, a');
    if Accepts(eng, p, e, a) {
      SimilarTransitive(shape, e', e, a);
      SimilarTransitive(shape, e', a, a');
    }
    if Accepts(eng, p, e', a') {
      SimilarTransitive(shape, e, e', a');
      SimilarTransitive(shape, e, a', a);
    }
  }

  // ---------- exactly when unordered comparison is complete ----------

  const ONE := Num(1.0)
  const WITH_X := Obj(map["x" := ONE])
  const EMPTY := Obj(map[])
  const WITH_Y := Obj(map["y" := ONE])
  const OVERLAP := Arr([WITH_X, EMPTY, WITH_Y])

  lemma OverlapVerdicts(eng: Engine, p: Flags)
    requires !p.disallowExtra
    ensures Verdicts(eng, p, OVERLAP, OVERLAP.items) ==
            [[true, false, false], [true, true, true], [false, false, true]]
  {
    assert Accepts(eng, p, ONE, ONE);
    assert "x" in WITH_X.fields && "x" !in WITH_Y.fields && "y" in WITH_Y.fields && "y" !in WITH_X.fields;
    assert Accepts(eng, p, WITH_X, WITH_X) && !Accepts(eng, p, WITH_X, EMPTY) && !Accepts(eng, p, WITH_X, WITH_Y);
    assert Accepts(eng, p, EMPTY, WITH_X) && Accepts(eng, p, EMPTY, EMPTY) && Accepts(eng, p, EMPTY, WITH_Y);
    assert !Accepts(eng, p, WITH_Y, WITH_X) && !Accepts(eng, p, WITH_Y, EMPTY) && Accepts(eng, p, WITH_Y, WITH_Y);
    var m, items := Verdicts(eng, p, OVERLAP, OVERLAP.items), [WITH_X, EMPTY, WITH_Y];
    assert Elems(OVERLAP) == items == OVERLAP.items;
    assert m[0] == [true, false, false] && m[1] == [true, true, true] && m[2] == [false, false, true];
  }

  lemma OverlapLeavesOne()
    ensures Greedy([[true, false, false], [true, true, true], [false, false, true]], 0, [0, 1, 2]).left == [2]
  {
    var m := [[true, false, false], [true, true, true], [false, false, true]];
    assert SwapRemove([0, 1, 2], 0) == [2, 1] && SwapRemove([2, 1], 0) == [1];
    assert FirstLink(m[2], [1]) == 1;
    assert FirstLink(m[1], [2, 1]) == 0 && FirstLink(m[0], [0, 1, 2]) == 0;
    assert Greedy(m, 2, [1]).left == [2];
    assert Greedy(m, 1, [2, 1]).left == [2];
  }

  lemma {:induction false} ConformsToItself(eng: Engine, p: Flags, v: Value)
    requires MatcherFree(v)
    ensures Conforms(eng, p, v, v)
    decreases v
  {
    match v
    case Arr(items) =>
      forall i | 0 <= i < |items| ensures Conforms(eng, p, items[i], items[i]) {
        ConformsToItself(eng, p, items[i]);
      }
      assert Bijection(Identity(|items|), |items|);
    case Obj(fields) =>
      forall k | k in fields ensures Conforms(eng, p, fields[k], fields[k]) {
        ConformsToItself(eng, p, fields[k]);
      }
    case _ =>
  }

  lemma LeftoverRejects(eng: Engine, p: Flags, e: Value, items: seq<Value>)
    requires p.unordered && e.Arr?
    requires Greedy(Verdicts(eng, p, e, items), 0, Indices(|items|)).left != []
    ensures !Accepts(eng, p, e, Arr(items))
  {
  }

  lemma OverlapIsPlain()
    ensures MatcherFree(OVERLAP)
  {
    assert MatcherFree(WITH_X) && MatcherFree(EMPTY) && MatcherFree(WITH_Y);
  }

  /** With extra fields allowed, `[{x:1},{},{y:1}]` is rejected against itself: the swap-removal puts `{y:1}`
      in front of `{}`, which takes it. */
  lemma OverlapRejectsItself(eng: Engine, p: Flags)
    requires p.unordered && !p.disallowExtra
    ensures MatcherFree(OVERLAP) && Conforms(eng, p, OVERLAP, OVERLAP) && !Accepts(eng, p, OVERLAP, OVERLAP)
  {
    hide Accepts, Conforms, Verdicts, Greedy, MatcherFree;
    OverlapIsPlain();
    ConformsToItself(eng, p, OVERLAP);
    OverlapVerdicts(eng, p);
    OverlapLeavesOne();
    assert Indices(3) == [0, 1, 2] && |OVERLAP.items| == 3;
    LeftoverRejects(eng, p, OVERLAP, OVERLAP.items);
  }

  /** Over matcher-free expectations the code is exact in precisely these flag settings. */
  lemma ExactForPlainValuesIff(eng: Engine, p: Flags)
    ensures (forall e, a | MatcherFree(e) :: Accepts(eng, p, e, a) <==> Conforms(eng, p, e, a))
       <==> (!p.unordered || p.disallowExtra)
  {
    if !p.unordered || p.disallowExtra {
      forall e, a | MatcherFree(e) ensures Accepts(eng, p, e, a) <==> Conforms(eng, p, e, a) {
        if p.unordered {
          UnorderedExact(eng, p, e, a);
        } else {
          OrderedExact(eng, p, e, a);
        }
      }
    } else {
      OverlapRejectsItself(eng, p);
    }
  }

  const GREEDY_EXPECTED := Arr([Str("$matchArrayLen(max=1)"), Arr([])])
  const GREEDY_ACTUAL := Arr([Arr([]), Arr([Null])])

  lemma MaxOneDenotes()
    ensures Denotes("max=1", 0, 1)
  {
    hide Denotes;
    assert Decimal(1) == "1" && "max=" + "1" == "max=1";
    PlainForms(1, 1);
  }

  lemma MaxOneIsLength()
    ensures LeafMatchType(Str("$matchArrayLen(max=1)")) == Length("max=1")
  {
    var s := "$matchArrayLen(max=1)";
    assert !(REGEX_OPEN <= s) by { assert s[6] == 'A' && REGEX_OPEN[6] == 'R'; }
    assert |LENGTH_OPEN| == 15 && |s| == 21;
    assert s[15..20] == "max=1";
  }

  /** A matcher that accepts both actual items takes the only one the other expectation could have had. */
  lemma LengthMatcherIsGreedy(eng: Engine, p: Flags)
    requires p.unordered
    ensures Conforms(eng, p, GREEDY_EXPECTED, GREEDY_ACTUAL) && !Accepts(eng, p, GREEDY_EXPECTED, GREEDY_ACTUAL)
  {
    hide Denotes;
    MaxOneDenotes();
    MaxOneIsLength();
    var len, none, one := Str("$matchArrayLen(max=1)"), Arr([]), Arr([Null]);
    assert Elems(GREEDY_EXPECTED) == [len, none] && GREEDY_ACTUAL.items == [none, one];
    LengthVerdicts(eng, p, len, none, one);
    LengthConforms(eng, p, len, none, one);
  }

  lemma FirstTakesTheOnlyChance(m: Matrix)
    requires |m| == 2 && Square(m) && m[0][0] && !m[1][1]
    ensures Greedy(m, 0, Indices(2)).left == [1]
  {
    assert Indices(2) == [0, 1];
    assert FirstLink(m[0], [0, 1]) == 0 && SwapRemove([0, 1], 0) == [1];
    assert FirstLink(m[1], [1]) == 1;
    assert Greedy(m, 1, [1]).left == [1];
  }

  lemma LengthVerdicts(eng: Engine, p: Flags, len: Value, none: Value, one: Value)
    requires p.unordered && LeafMatchType(len) == Length("max=1") && Denotes("max=1", 0, 1)
    requires none == Arr([]) && one == Arr([Null])
    ensures !Accepts(eng, p, Arr([len, none]), Arr([none, one]))
  {
    hide Denotes, Greedy;
    var e, items := Arr([len, none]), [none, one];
    VerdictLinks(eng, p, e, items, 0, 0);
    VerdictLinks(eng, p, e, items, 1, 1);
    FirstTakesTheOnlyChance(Verdicts(eng, p, e, items));
    LeftoverRejects(eng, p, e, items);
  }

  lemma LengthConforms(eng: Engine, p: Flags, len: Value, none: Value, one: Value)
    requires p.unordered && LeafMatchType(len) == Length("max=1") && Denotes("max=1", 0, 1)
    requires none == Arr([]) && one == Arr([Null])
    ensures Conforms(eng, p, Arr([len, none]), Arr([none, one]))
  {
    hide Denotes;
    var swap := Pairing(map[0 := 1, 1 := 0], map[0 := 1, 1 := 0]);
    assert Bijection(swap, 2);
    assert Conforms(eng, p, len, one);
    ConformsToItself(eng, p, none);
    SwappedConform(eng, p, Arr([len, none]), [none, one], swap);
  }

  lemma SwappedConform(eng: Engine, p: Flags, e: Value, items: seq<Value>, q: Pairing)
    requires p.unordered && e.Arr? && |e.items| == |items| == 2 && Bijection(q, 2) && q.to[0] == 1 && q.to[1] == 0
    requires Conforms(eng, p, e.items[0], items[1]) && Conforms(eng, p, e.items[1], items[0])
    ensures Conforms(eng, p, e, Arr(items))
  {
    hide Conforms;
    var es := Elems(e);
    forall i | 0 <= i < |es| ensures Conforms(eng, p, es[i], items[q.to[i]]) {
    }
    ConformsByItems(eng, p, e, items);
  }

  lemma ConformsByItems(eng: Engine, p: Flags, e: Value, items: seq<Value>)
    requires e.Arr? && ItemsConform(eng, p, e, items)
    ensures Conforms(eng, p, e, Arr(items))
  {
  }

  /** Over all expectations, matchers included, the code is exact in ordered mode only. */
  lemma ExactIff(eng: Engine, p: Flags)
    ensures (forall e, a :: Accepts(eng, p, e, a) <==> Conforms(eng, p, e, a)) <==> !p.unordered
  {
    if p.unordered {
      LengthMatcherIsGreedy(eng, p);
    } else {
      forall e, a ensures Accepts(eng, p, e, a) <==> Conforms(eng, p, e, a) {
        OrderedExact(eng, p, e, a);
      }
    }
  }

  // ---------- what a matcher accepts ----------

  /** A regexp expectation looks at the text of a scalar, unless values are ignored. */
  lemma RegexMeans(eng: Engine, p: Flags, t: string, a: Value)
    requires t != "" && '\n' !in t
    ensures p.ignoreValues && Scalar(a) ==> Accepts(eng, p, Str("$matchRegexp(" + t + ")"), a)
    ensures var e := Str("$matchRegexp(" + t + ")");
            !p.ignoreValues ==>
              && (a.Str? ==> (Accepts(eng, p, e, a) <==> eng.compiles(t) && eng.matches(t, a.s)))
              && (a.Num? ==> (Accepts(eng, p, e, a) <==> eng.compiles(t) && eng.matches(t, eng.render(a.n))))
              && (a == Bool(true) ==> (Accepts(eng, p, e, a) <==> eng.compiles(t) && eng.matches(t, "true")))
              && (a == Bool(false) ==> (Accepts(eng, p, e, a) <==> eng.compiles(t) && eng.matches(t, "false")))
              && (a == Null ==> (Accepts(eng, p, e, a) <==> eng.compiles(t) && eng.matches(t, "<nil>")))
  {
    MatcherForms(Str("$matchRegexp(" + t + ")"), t);
  }

  /** It accepts no array of decoded values, since it would compare its own bytes with them. */
  lemma RegexRejectsArrays(eng: Engine, p: Flags, t: string, items: seq<Value>)
    requires t != "" && '\n' !in t && forall i | 0 <= i < |items| :: !items[i].Byte?
    ensures !Accepts(eng, p, Str("$matchRegexp(" + t + ")"), Arr(items))
  {
    var e := Str("$matchRegexp(" + t + ")");
    MatcherForms(e, t);
    if Accepts(eng, p, e, Arr(items)) {
      AcceptedConforms(eng, p, e, Arr(items));
      BytesMeetBytes(eng, p, e, items);
    }
  }

  lemma BytesMeetBytes(eng: Engine, p: Flags, e: Value, items: seq<Value>)
    requires e.Str? && e.s != "" && LeafMatchType(e).Regex? && ItemsConform(eng, p, e, items)
    ensures exists i | 0 <= i < |items| :: items[i].Byte?
  {
    var es := Elems(e);
    assert es[0] == Byte(e.s[0]);
    if p.unordered {
      var q :| Bijection(q, |es|) && forall i | 0 <= i < |es| :: Conforms(eng, p, es[i], items[q.to[i]]);
      assert items[q.to[0]].Byte?;
    } else {
      assert items[0].Byte?;
    }
  }

  /** A length expectation accepts exactly the arrays whose length is in a documented range. */
  lemma LengthMeans(eng: Engine, p: Flags, body: string, a: Value)
    requires ')' !in body
    ensures Accepts(eng, p, Str("$matchArrayLen(" + body + ")"), a) <==>
            a.Arr? && exists lo, hi :: Documented(body, lo, hi) && lo <= |a.items| <= hi
  {
    hide Documented, Denotes;
    MatcherForms(Str("$matchArrayLen(" + body + ")"), body);
    forall lo, hi ensures Denotes(body, lo, hi) <==> Documented(body, lo, hi) {
      DenotesIff(body, lo, hi);
    }
  }
}
