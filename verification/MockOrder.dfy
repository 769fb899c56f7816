/** Variants that are kept in a map have no order.  Visiting them in another order, at any depth of the tree, changes
    neither replies nor logged errors, and only the order of the mismatches reported at the end. */
module MockOrder {
  import opened Wrappers
  import opened Matching
  import opened MockTree
  import opened MockTheorems
  import opened MockService

  /** The variants are kept in a map. */
  predicate ByMap(t: Tree) {
    t.spec.strategy.UriVary? || t.spec.strategy.MethodVary?
  }

  /** The routing key of the i-th variant, normalised. */
  function Key(t: Tree, i: nat): string {
    match t.spec.strategy
    case UriVary(basePath, uris) => if i < |uris| then FullUri(basePath, uris[i]) else ""
    case MethodVary(methods) => if i < |methods| then Lower(methods[i]) else ""
    case _ => ""
  }

  /** Everywhere in the tree, the normalised keys of one map are distinct. */
  ghost predicate DistinctKeys(t: Tree) {
    && (ByMap(t) ==> forall i, j | 0 <= i < j < |t.kids| :: Key(t, i) != Key(t, j))
    && forall i | 0 <= i < |t.kids| :: DistinctKeys(t.kids[i])
  }

  /** The nodes agree in everything but the order of variants kept in a map. */
  ghost predicate SameNode(t: Tree, u: Tree) {
    && t.calls == u.calls && t.pos == u.pos && |t.kids| == |u.kids|
    && t.spec.path == u.spec.path && t.spec.constraints == u.spec.constraints && t.spec.limit == u.spec.limit
    && t.spec.strategy.UriVary? == u.spec.strategy.UriVary?
    && t.spec.strategy.MethodVary? == u.spec.strategy.MethodVary?
    && (!ByMap(t) ==> t.spec.strategy == u.spec.strategy)
  }

  /** Child i of one node is child q.to[i] of the other; only variants kept in a map may move. */
  ghost predicate Placed(t: Tree, u: Tree, q: Pairing) {
    && |t.kids| == |u.kids| && Bijection(q, |t.kids|)
    && forall i | 0 <= i < |t.kids| :: if ByMap(t) then Key(u, q.to[i]) == Key(t, i) else q.to[i] == i
  }

  /** The same tree, with the variants of its maps in another order. */
  ghost predicate Shuffled(t: Tree, u: Tree) {
    && SameNode(t, u)
    && exists q | Placed(t, u, q) :: forall i | 0 <= i < |t.kids| :: Shuffled(t.kids[i], u.kids[q.to[i]])
  }

  // ---------- routing ----------

  lemma KeyDecides(t: Tree, r: Request, i: nat)
    requires WellFormed(t) && ByMap(t) && i < |t.kids|
    ensures Takes(t, r, i) <==> Key(t, i) == if t.spec.strategy.UriVary? then r.head.path else Lower(r.head.verb)
  {
  }

  lemma OneTakes(t: Tree, r: Request)
    requires WellFormed(t) && DistinctKeys(t) && ByMap(t)
    ensures forall i, j | 0 <= i < j < |t.kids| :: !(Takes(t, r, i) && Takes(t, r, j))
  {
    hide Takes, WellFormed;
    forall i, j | 0 <= i < j < |t.kids| ensures !(Takes(t, r, i) && Takes(t, r, j)) {
      KeyDecides(t, r, i);
      KeyDecides(t, r, j);
    }
  }

  lemma PickMoved(t: Tree, u: Tree, q: Pairing, r: Request)
    requires |t.kids| == |u.kids| && Bijection(q, |t.kids|)
    requires forall i | 0 <= i < |t.kids| :: Takes(u, r, q.to[i]) <==> Takes(t, r, i)
    requires forall i, j | 0 <= i < j < |t.kids| :: !(Takes(t, r, i) && Takes(t, r, j))
    ensures Pick(u, r) == if Pick(t, r) < 0 then -1 else q.to[Pick(t, r)]
  {
    hide Takes;
    var k := Pick(t, r);
    var l := if k < 0 then -1 else q.to[k];
    forall j | 0 <= j < |u.kids| && j != l ensures !Takes(u, r, j) {
      var i := q.from[j];
      assert q.to[i] == j && i != k;
    }
    PickIs(u, r, l);
  }

  /** A request goes to the same child, wherever it stands. */
  lemma OrderOfVariants(t: Tree, u: Tree, q: Pairing, r: Request)
    requires WellFormed(t) && WellFormed(u) && DistinctKeys(t) && SameNode(t, u) && Placed(t, u, q)
    requires forall i | 0 <= i < |t.kids| :: SameNode(t.kids[i], u.kids[q.to[i]])
    ensures Pick(u, r) == if Pick(t, r) < 0 then -1 else q.to[Pick(t, r)]
  {
    hide WellFormed, Pick, DistinctKeys;
    if ByMap(t) {
      hide Takes, Key;
      forall i | 0 <= i < |t.kids| ensures Takes(u, r, q.to[i]) <==> Takes(t, r, i) {
        KeyDecides(t, r, i);
        KeyDecides(u, r, q.to[i]);
      }
      OneTakes(t, r);
      PickMoved(t, u, q, r);
    } else {
      hide Key;
      forall i | 0 <= i < |t.kids| ensures Takes(u, r, i) <==> Takes(t, r, i) {
        assert q.to[i] == i && SameNode(t.kids[i], u.kids[q.to[i]]);
      }
      SamePick(t, u, r);
      assert Pick(t, r) >= 0 ==> q.to[Pick(t, r)] == Pick(t, r);
    }
  }

  lemma {:induction false} SameRefusals(ts: seq<Tree>, us: seq<Tree>, r: Request)
    requires |ts| == |us| && forall i | 0 <= i < |ts| :: SameNode(ts[i], us[i])
    ensures Refusals(ts, r) == Refusals(us, r)
  {
    if ts != [] {
      var n := |ts| - 1;
      forall i | 0 <= i < n ensures SameNode(ts[..n][i], us[..n][i]) {
        assert SameNode(ts[i], us[i]);
      }
      SameRefusals(ts[..n], us[..n], r);
      assert SameNode(ts[n], us[n]);
    }
  }

  // ---------- one request ----------

  ghost predicate Sound(t: Tree) {
    WellFormed(t) && DistinctKeys(t)
  }

  lemma SoundBelow(t: Tree, i: nat)
    requires Sound(t) && i < |t.kids|
    ensures Sound(t.kids[i])
  {
  }

  lemma {:induction false} StepKeepsSound(t: Tree, r: Request)
    requires Sound(t)
    ensures Sound(Execute(t, r).tree)
    decreases t
  {
    StepShape(t, r);
    var u := Execute(t, r).tree;
    hide Execute;
    forall j | 0 <= j < |t.kids| ensures Sound(u.kids[j]) {
      if j == Pick(t, r) {
        StepKeepsSound(t.kids[j], r);
      }
    }
    forall i | 0 <= i < |t.kids| ensures Key(u, i) == Key(t, i) {
    }
  }

  lemma ShuffledNodes(t: Tree, u: Tree) returns (q: Pairing)
    requires Shuffled(t, u)
    ensures SameNode(t, u) && Placed(t, u, q)
    ensures forall i | 0 <= i < |t.kids| :: Shuffled(t.kids[i], u.kids[q.to[i]])
    ensures forall i | 0 <= i < |t.kids| :: SameNode(t.kids[i], u.kids[q.to[i]])
  {
    q :| Placed(t, u, q) && forall i | 0 <= i < |t.kids| :: Shuffled(t.kids[i], u.kids[q.to[i]]);
  }

  /** A request gets the same answer, and the trees stay the same up to order. */
  lemma {:induction false} ShuffledStep(t: Tree, u: Tree, r: Request)
    requires Shuffled(t, u) && Sound(t) && Sound(u)
    ensures Execute(t, r).answer == Execute(u, r).answer
    ensures ExecuteWithoutVerifying(t, r).answer == ExecuteWithoutVerifying(u, r).answer
    ensures Shuffled(Execute(t, r).tree, Execute(u, r).tree)
    decreases t
  {
    var q := ShuffledNodes(t, u);
    hide Shuffled, Key, Pick, Takes;
    OrderOfVariants(t, u, q, r);
    var i := Pick(t, r);
    if i >= 0 {
      SoundBelow(t, i);
      SoundBelow(u, q.to[i]);
      ShuffledStep(t.kids[i], u.kids[q.to[i]], r);
    }
    hide Sound;
    SameAnswers(t, u, q, r);
    ShuffledTrees(t, u, q, r);
  }

  lemma SameAnswers(t: Tree, u: Tree, q: Pairing, r: Request)
    requires SameNode(t, u) && Placed(t, u, q)
    requires forall i | 0 <= i < |t.kids| :: SameNode(t.kids[i], u.kids[q.to[i]])
    requires Pick(u, r) == if Pick(t, r) < 0 then -1 else q.to[Pick(t, r)]
    requires Pick(t, r) >= 0 ==>
               var x, y := t.kids[Pick(t, r)], u.kids[Pick(u, r)];
               && Execute(x, r).answer == Execute(y, r).answer
               && ExecuteWithoutVerifying(x, r).answer == ExecuteWithoutVerifying(y, r).answer
    ensures Execute(t, r).answer == Execute(u, r).answer
    ensures ExecuteWithoutVerifying(t, r).answer == ExecuteWithoutVerifying(u, r).answer
  {
    if t.spec.strategy.BasedOnRequest? {
      forall i | 0 <= i < |t.kids| ensures SameNode(t.kids[i], u.kids[i]) {
        assert q.to[i] == i;
      }
      SameRefusals(t.kids, u.kids, r);
    }
    hide Pick, Verify, Refusals, Key;
    assert Handle(t, r).answer == Handle(u, r).answer;
  }

  lemma ShuffledTrees(t: Tree, u: Tree, q: Pairing, r: Request)
    requires SameNode(t, u) && Placed(t, u, q)
    requires forall i | 0 <= i < |t.kids| :: Shuffled(t.kids[i], u.kids[q.to[i]])
    requires Pick(u, r) == if Pick(t, r) < 0 then -1 else q.to[Pick(t, r)]
    requires Pick(t, r) >= 0 ==>
               Shuffled(Execute(t.kids[Pick(t, r)], r).tree, Execute(u.kids[Pick(u, r)], r).tree)
    ensures Shuffled(Execute(t, r).tree, Execute(u, r).tree)
  {
    StepShape(t, r);
    StepShape(u, r);
    var t', u', k := Execute(t, r).tree, Execute(u, r).tree, Pick(t, r);
    hide Execute, Pick, Shuffled;
    SamePlaces(t, u, q, t', u');
    forall i | 0 <= i < |t.kids| ensures Shuffled(t'.kids[i], u'.kids[q.to[i]]) {
      assert q.from[q.to[i]] == i;
    }
    assert SameNode(t', u');
    ShuffledBy(t', u', q);
  }

  lemma SamePlaces(t: Tree, u: Tree, q: Pairing, t': Tree, u': Tree)
    requires Placed(t, u, q) && t'.spec == t.spec && u'.spec == u.spec
    requires |t'.kids| == |t.kids| && |u'.kids| == |u.kids|
    ensures Placed(t', u', q)
  {
    forall i ensures Key(t', i) == Key(t, i) && Key(u', i) == Key(u, i) {
    }
  }

  lemma ShuffledBy(t: Tree, u: Tree, q: Pairing)
    requires SameNode(t, u) && Placed(t, u, q)
    requires forall i | 0 <= i < |t.kids| :: Shuffled(t.kids[i], u.kids[q.to[i]])
    ensures Shuffled(t, u)
  {
  }

  // ---------- whole runs ----------

  /** Whole runs answer and log the same. */
  lemma {:induction false} ShuffledRun(t: Tree, u: Tree, rs: seq<Request>)
    requires Shuffled(t, u) && Sound(t) && Sound(u)
    ensures Shuffled(Run(t, rs), Run(u, rs)) && Sound(Run(t, rs)) && Sound(Run(u, rs))
    ensures Log(t, rs) == Log(u, rs) && Replies(t, rs) == Replies(u, rs)
  {
    hide Shuffled, Sound, Execute;
    if rs != [] {
      var n := |rs| - 1;
      ShuffledRun(t, u, rs[..n]);
      ShuffledStep(Run(t, rs[..n]), Run(u, rs[..n]), rs[n]);
      StepKeepsSound(Run(t, rs[..n]), rs[n]);
      StepKeepsSound(Run(u, rs[..n]), rs[n]);
    }
  }

  // ---------- the end ----------

  ghost function Sum(bags: seq<multiset<Err>>): multiset<Err> {
    if bags == [] then multiset{} else Sum(bags[..|bags| - 1]) + bags[|bags| - 1]
  }

  lemma SumSnoc(a: seq<multiset<Err>>, x: multiset<Err>)
    ensures Sum(a + [x]) == Sum(a) + x
  {
    assert (a + [x])[..|a|] == a;
  }

  lemma {:induction false} SumConcat(a: seq<multiset<Err>>, b: seq<multiset<Err>>)
    ensures Sum(a + b) == Sum(a) + Sum(b)
  {
    hide Sum;
    if b == [] {
      assert a + b == a;
      SumNothing();
    } else {
      var n := |b| - 1;
      SumConcat(a, b[..n]);
      SumSnoc(a + b[..n], b[n]);
      SumSnoc(b[..n], b[n]);
      assert a + b == (a + b[..n]) + [b[n]] && b == b[..n] + [b[n]];
    }
  }

  lemma SumNothing()
    ensures Sum([]) == multiset{}
  {
  }

  lemma SumSwapRemove(bags: seq<multiset<Err>>, j: nat)
    requires j < |bags|
    ensures Sum(bags) == Sum(SwapRemove(bags, j)) + bags[j]
  {
    hide Sum, SwapRemove;
    if j < |bags| - 1 {
      var a, x, b, y := bags[..j], bags[j], bags[j + 1..|bags| - 1], bags[|bags| - 1];
      SwapRemoveParts(bags, j);
      SumMovedLast(a, x, b, y);
    } else {
      SumLast(bags);
    }
  }

  lemma SumLast(bags: seq<multiset<Err>>)
    requires bags != []
    ensures Sum(bags) == Sum(SwapRemove(bags, |bags| - 1)) + bags[|bags| - 1]
  {
    assert SwapRemove(bags, |bags| - 1) == bags[..|bags| - 1];
  }

  lemma SumMovedLast(a: seq<multiset<Err>>, x: multiset<Err>, b: seq<multiset<Err>>, y: multiset<Err>)
    ensures Sum((a + [x]) + (b + [y])) == Sum((a + [y]) + b) + x
  {
    hide Sum;
    SumConcat(a + [x], b + [y]);
    SumConcat(a + [y], b);
    SumSnoc(a, x);
    SumSnoc(a, y);
    SumSnoc(b, y);
  }

  /** A bijection does not change the sum. */
  lemma {:induction false} SumMoved(x: seq<multiset<Err>>, y: seq<multiset<Err>>, q: Pairing)
    requires |x| == |y| && Bijection(q, |x|) && forall i | 0 <= i < |x| :: y[q.to[i]] == x[i]
    ensures Sum(x) == Sum(y)
  {
    if x != [] {
      var n := |x| - 1;
      WithoutMoves(x, y, q);
      SumSwapRemove(y, q.to[n]);
      SumMoved(x[..n], SwapRemove(y, q.to[n]), Without(q, n));
    }
  }

  ghost function EndBags(kids: seq<Tree>): (bags: seq<multiset<Err>>)
    ensures |bags| == |kids| && forall i | 0 <= i < |kids| :: bags[i] == multiset(End(kids[i]))
  {
    seq(|kids|, i requires 0 <= i < |kids| => multiset(End(kids[i])))
  }

  lemma {:induction false} EndAllSum(kids: seq<Tree>)
    ensures multiset(EndAll(kids)) == Sum(EndBags(kids))
  {
    hide End;
    if kids != [] {
      var n := |kids| - 1;
      EndAllSum(kids[..n]);
      assert EndBags(kids)[..n] == EndBags(kids[..n]);
    }
  }

  /** The end reports the same mismatches, in some order. */
  lemma {:induction false} ShuffledEnd(t: Tree, u: Tree)
    requires Shuffled(t, u)
    ensures multiset(End(t)) == multiset(End(u))
    decreases t
  {
    var q := ShuffledNodes(t, u);
    forall i | 0 <= i < |t.kids| ensures EndBags(u.kids)[q.to[i]] == EndBags(t.kids)[i] {
      ShuffledEnd(t.kids[i], u.kids[q.to[i]]);
    }
    assert OwnMismatch(t) == OwnMismatch(u);
    hide Shuffled, End, SameNode;
    SumMoved(EndBags(t.kids), EndBags(u.kids), q);
    EndAllSum(t.kids);
    EndAllSum(u.kids);
    EndIs(t);
    EndIs(u);
  }

  lemma EndIs(t: Tree)
    ensures multiset(End(t)) == multiset(EndAll(t.kids)) + multiset(OwnMismatch(t))
  {
  }

  /** So the order in which a map is visited shows in nothing but the order of the mismatches. */
  lemma OrderDoesNotMatter(t: Tree, u: Tree, rs: seq<Request>)
    requires Shuffled(t, u) && Sound(t) && Sound(u)
    ensures Replies(t, rs) == Replies(u, rs) && Log(t, rs) == Log(u, rs)
    ensures multiset(End(Run(t, rs))) == multiset(End(Run(u, rs)))
  {
    ShuffledRun(t, u, rs);
    ShuffledEnd(Run(t, rs), Run(u, rs));
  }
}
