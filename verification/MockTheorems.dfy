/** What every run of a mock keeps, over trees of any depth. */
module MockTheorems {
  import opened MockTree

  // ---------- one step ----------

  /** A request bumps the node it enters and changes at most the child it is routed to, with or without
      verification. */
  lemma StepShape(t: Tree, r: Request)
    ensures ExecuteWithoutVerifying(t, r).tree == Execute(t, r).tree
    ensures var u, i := Execute(t, r).tree, Pick(t, r);
            && u.spec == t.spec && u.calls == t.calls + 1 && |u.kids| == |t.kids|
            && u.pos == (if t.spec.strategy.Sequence? && i >= 0 then t.pos + 1 else t.pos)
            && (forall j | 0 <= j < |t.kids| :: u.kids[j] == if j == i then Execute(t.kids[j], r).tree else t.kids[j])
  {
    var i := Pick(t, r);
    if i >= 0 {
      var k := t.kids[i];
      assert ExecuteWithoutVerifying(k, r).tree == Execute(k, r).tree;
    }
  }

  lemma RunSnoc(t: Tree, rs: seq<Request>, r: Request)
    ensures Run(t, rs + [r]) == Execute(Run(t, rs), r).tree
    ensures Log(t, rs + [r]) == Log(t, rs) + Execute(Run(t, rs), r).answer.errors
  {
    assert (rs + [r])[..|rs|] == rs;
  }

  // ---------- no carry-over ----------

  lemma {:induction false} ResetForgetsStep(t: Tree, r: Request)
    ensures Reset(Execute(t, r).tree) == Reset(t)
    decreases t
  {
    StepShape(t, r);
    var u, i := Execute(t, r).tree, Pick(t, r);
    hide Execute, Pick;
    forall j | 0 <= j < |t.kids| ensures Reset(u.kids[j]) == Reset(t.kids[j]) {
      if j == i {
        ResetForgetsStep(t.kids[j], r);
      }
    }
  }

  /** A reset undoes any run: what follows it cannot depend on earlier requests. */
  lemma {:induction false} ResetForgetsRun(t: Tree, rs: seq<Request>)
    ensures Reset(Run(t, rs)) == Reset(t)
  {
    if rs != [] {
      var before := rs[..|rs| - 1];
      ResetForgetsRun(t, before);
      ResetForgetsStep(Run(t, before), rs[|rs| - 1]);
    }
  }

  // ---------- addresses ----------

  ghost predicate ValidAt(t: Tree, q: seq<int>)
    decreases |q|
  {
    q == [] || (0 <= q[0] < |t.kids| && ValidAt(t.kids[q[0]], q[1..]))
  }

  /** The node reached by following child indices from the root. */
  ghost function NodeAt(t: Tree, q: seq<int>): Tree
    requires ValidAt(t, q)
    decreases |q|
  {
    if q == [] then t else NodeAt(t.kids[q[0]], q[1..])
  }

  /** The child indices a request follows, down to the node that answers it. */
  ghost function Trail(t: Tree, r: Request): seq<int> {
    var i := Pick(t, r);
    if i < 0 then [] else [i] + Trail(t.kids[i], r)
  }

  /** A request changes exactly the nodes on its own root-to-leaf trail, each as if it had been sent there. */
  lemma {:induction false} OnlyTrailAdvances(t: Tree, r: Request, q: seq<int>)
    requires ValidAt(t, q)
    ensures var u := Execute(t, r).tree;
            && ValidAt(u, q)
            && NodeAt(u, q) == (if q <= Trail(t, r) then Execute(NodeAt(t, q), r).tree else NodeAt(t, q))
            && NodeAt(u, q).calls == NodeAt(t, q).calls + (if q <= Trail(t, r) then 1 else 0)
    decreases |q|
  {
    StepShape(t, r);
    if q != [] {
      var i := q[0];
      OnlyTrailAdvances(t.kids[i], r, q[1..]);
      if i == Pick(t, r) {
        PrefixCons(i, q, Trail(t.kids[i], r));
      } else {
        UntouchedBelow(t, r, q);
      }
      hide Execute, Pick;
    }
  }

  lemma PrefixCons(i: int, q: seq<int>, rest: seq<int>)
    requires q != [] && q[0] == i
    ensures q <= [i] + rest <==> q[1..] <= rest
  {
    if q[1..] <= rest {
      assert q == [i] + q[1..];
    }
    if q <= [i] + rest {
      forall k | 0 <= k < |q| - 1 ensures q[1..][k] == rest[k] {
        assert q[k + 1] == ([i] + rest)[k + 1];
      }
    }
  }

  lemma UntouchedBelow(t: Tree, r: Request, q: seq<int>)
    requires q != [] && q[0] != Pick(t, r)
    ensures !(q <= Trail(t, r))
  {
  }

  /** The requests of a run that pass through the node at q. */
  ghost function Arriving(t: Tree, rs: seq<Request>, q: seq<int>): seq<Request> {
    if rs == [] then []
    else
      var before, r := rs[..|rs| - 1], rs[|rs| - 1];
      Arriving(t, before, q) + (if q <= Trail(Run(t, before), r) then [r] else [])
  }

  /** Every node of a run is a run of its own, over the requests that reach it. */
  lemma {:induction false} SubtreeRun(t: Tree, rs: seq<Request>, q: seq<int>)
    requires ValidAt(t, q)
    ensures ValidAt(Run(t, rs), q)
    ensures NodeAt(Run(t, rs), q) == Run(NodeAt(t, q), Arriving(t, rs, q))
  {
    hide Execute, Trail, ValidAt, NodeAt;
    if rs != [] {
      var before, r := rs[..|rs| - 1], rs[|rs| - 1];
      SubtreeRun(t, before, q);
      OnlyTrailAdvances(Run(t, before), r, q);
      RunSnoc(NodeAt(t, q), Arriving(t, before, q), r);
      assert Arriving(t, before, q) + [] == Arriving(t, before, q);
    }
  }

  // ---------- conservation ----------

  lemma {:induction false} RunCounts(t: Tree, rs: seq<Request>)
    ensures var u := Run(t, rs); u.spec == t.spec && u.calls == t.calls + |rs| && |u.kids| == |t.kids|
    ensures forall j | 0 <= j < |t.kids| :: Run(t, rs).kids[j].spec == t.kids[j].spec
  {
    if rs != [] {
      var before, r := rs[..|rs| - 1], rs[|rs| - 1];
      RunCounts(t, before);
      StepShape(Run(t, before), r);
      forall j | 0 <= j < |t.kids| {
        StepShape(Run(t, before).kids[j], r);
      }
    }
  }

  /** Except for a sequence, where a request goes depends on the definition alone. */
  lemma RoutingIsStatic(t: Tree, rs: seq<Request>, r: Request)
    requires !t.spec.strategy.Sequence?
    ensures Pick(Run(t, rs), r) == Pick(t, r)
  {
    RunCounts(t, rs);
    var u := Run(t, rs);
    hide Run;
    SameRoutes(t, u, r);
  }

  lemma SameRoutes(t: Tree, u: Tree, r: Request)
    requires !t.spec.strategy.Sequence? && u.spec == t.spec && |u.kids| == |t.kids|
    requires forall j | 0 <= j < |t.kids| :: u.kids[j].spec == t.kids[j].spec
    ensures Pick(u, r) == Pick(t, r)
  {
    SamePick(t, u, r);
  }

  function CallsOf(kids: seq<Tree>): nat {
    if kids == [] then 0 else CallsOf(kids[..|kids| - 1]) + kids[|kids| - 1].calls
  }

  lemma {:induction false} CallsOfChange(kids: seq<Tree>, more: seq<Tree>, i: int)
    requires |more| == |kids| && -1 <= i < |kids|
    requires forall j | 0 <= j < |kids| :: more[j].calls == kids[j].calls + (if j == i then 1 else 0)
    ensures CallsOf(more) == CallsOf(kids) + (if i >= 0 then 1 else 0)
  {
    if kids != [] {
      var n := |kids| - 1;
      CallsOfChange(kids[..n], more[..n], if i == n then -1 else i);
    }
  }

  /** How many of the requests no child takes. */
  ghost function Unrouted(t: Tree, rs: seq<Request>): nat {
    if rs == [] then 0
    else Unrouted(t, rs[..|rs| - 1]) + (if Pick(t, rs[|rs| - 1]) < 0 then 1 else 0)
  }

  ghost predicate Varying(t: Tree) {
    t.spec.strategy.UriVary? || t.spec.strategy.MethodVary? || t.spec.strategy.BasedOnRequest?
  }

  /** A varying node passes each request to exactly one child or leaves it unhandled. */
  lemma {:induction false} CallsAreConserved(t: Tree, rs: seq<Request>)
    requires Varying(t) && t.calls == CallsOf(t.kids)
    ensures Run(t, rs).calls == CallsOf(Run(t, rs).kids) + Unrouted(t, rs)
  {
    if rs != [] {
      var before, r := rs[..|rs| - 1], rs[|rs| - 1];
      CallsAreConserved(t, before);
      RoutingIsStatic(t, before, r);
      var u := Run(t, before);
      StepShape(u, r);
      var v, i := Run(t, rs), Pick(u, r);
      if i >= 0 {
        StepShape(u.kids[i], r);
      }
      hide Execute, Pick;
      CallsOfChange(u.kids, v.kids, i);
    }
  }

  lemma SequencePick(t: Tree, r: Request)
    requires t.spec.strategy.Sequence?
    ensures Pick(t, r) == if t.pos < |t.kids| then t.pos else -1
  {
    PickIs(t, r, if t.pos < |t.kids| then t.pos else -1);
  }

  /** A sequence hands its i-th request to its i-th child, once, and the requests beyond its length to nobody. */
  lemma {:induction false} SequenceAdvances(t: Tree, rs: seq<Request>)
    requires t.spec.strategy.Sequence? && t.pos == 0
    ensures var u := Run(t, rs);
            && u.pos == (if |rs| < |t.kids| then |rs| else |t.kids|)
            && |u.kids| == |t.kids|
            && (forall i | 0 <= i < |t.kids| ::
                  u.kids[i] == if i < |rs| then Execute(t.kids[i], rs[i]).tree else t.kids[i])
  {
    if rs != [] {
      var before, r := rs[..|rs| - 1], rs[|rs| - 1];
      SequenceAdvances(t, before);
      RunCounts(t, before);
      StepShape(Run(t, before), r);
      SequencePick(Run(t, before), r);
      hide Execute;
    }
  }

  /** The same at every node of the tree, from a reset on. */
  lemma ConservedEverywhere(t: Tree, rs: seq<Request>, q: seq<int>)
    requires t == Reset(t) && ValidAt(t, q)
    ensures ValidAt(Run(t, rs), q)
    ensures var start, node, arrived := NodeAt(t, q), NodeAt(Run(t, rs), q), Arriving(t, rs, q);
            && node.calls == |arrived|
            && (Varying(start) ==> node.calls == CallsOf(node.kids) + Unrouted(start, arrived))
            && (start.spec.strategy.Sequence? ==>
                  && node.pos == (if node.calls < |node.kids| then node.calls else |node.kids|)
                  && forall i | 0 <= i < |node.kids| :: node.kids[i].calls == if i < node.pos then 1 else 0)
  {
    SubtreeRun(t, rs, q);
    ResetAt(t, q);
    var start, arrived := NodeAt(t, q), Arriving(t, rs, q);
    RunCounts(start, arrived);
    if Varying(start) {
      ResetCalls(start.kids);
      CallsAreConserved(start, arrived);
    }
    if start.spec.strategy.Sequence? {
      SequenceAdvances(start, arrived);
      forall i | 0 <= i < |start.kids| && i < |arrived| {
        StepShape(start.kids[i], arrived[i]);
      }
    }
  }

  lemma {:induction false} ResetAt(t: Tree, q: seq<int>)
    requires t == Reset(t) && ValidAt(t, q)
    ensures NodeAt(t, q) == Reset(NodeAt(t, q))
    ensures NodeAt(t, q).calls == NodeAt(t, q).pos == 0
    ensures forall i | 0 <= i < |NodeAt(t, q).kids| :: NodeAt(t, q).kids[i].calls == 0
    decreases |q|
  {
    assert forall i | 0 <= i < |t.kids| :: t.kids[i] == Reset(t.kids[i]);
    if q != [] {
      ResetAt(t.kids[q[0]], q[1..]);
    }
  }

  lemma {:induction false} ResetCalls(kids: seq<Tree>)
    requires forall i | 0 <= i < |kids| :: kids[i].calls == 0
    ensures CallsOf(kids) == 0
  {
    if kids != [] {
      ResetCalls(kids[..|kids| - 1]);
    }
  }

  // ---------- the verdict at the end ----------

  function Prefixed(i: int, qs: seq<seq<int>>): (r: seq<seq<int>>)
    ensures |r| == |qs| && forall k | 0 <= k < |qs| :: r[k] == [i] + qs[k]
  {
    seq(|qs|, k requires 0 <= k < |qs| => [i] + qs[k])
  }

  /** Every address of the tree, children before their parent. */
  ghost function PostOrder(t: Tree): seq<seq<int>>
    decreases t, 1
  {
    PostOrderAll(t.kids) + [[]]
  }

  ghost function PostOrderAll(kids: seq<Tree>): seq<seq<int>>
    decreases kids, 0
  {
    if kids == [] then []
    else PostOrderAll(kids[..|kids| - 1]) + Prefixed(|kids| - 1, PostOrder(kids[|kids| - 1]))
  }

  ghost predicate Once(qs: seq<seq<int>>) {
    forall i, j | 0 <= i < j < |qs| :: qs[i] != qs[j]
  }

  lemma OnceConcat(ps: seq<seq<int>>, qs: seq<seq<int>>)
    requires Once(ps) && Once(qs) && forall q | q in ps :: q !in qs
    ensures Once(ps + qs)
  {
    var all := ps + qs;
    forall i, j | 0 <= i < j < |all| ensures all[i] != all[j] {
      if i < |ps| <= j {
        assert all[i] in ps && all[j] in qs;
      }
    }
  }

  ghost predicate ValidBelow(kids: seq<Tree>, q: seq<int>) {
    q != [] && 0 <= q[0] < |kids| && ValidAt(kids[q[0]], q[1..])
  }

  /** The list names each node of the tree exactly once. */
  lemma {:induction false} PostOrderExact(t: Tree)
    ensures Once(PostOrder(t)) && forall q :: q in PostOrder(t) <==> ValidAt(t, q)
    decreases t, 1
  {
    PostOrderAllExact(t.kids);
    var below := PostOrderAll(t.kids);
    assert [] !in below;
    forall q ensures q in PostOrder(t) <==> ValidAt(t, q) {
      assert q in below <==> ValidBelow(t.kids, q);
    }
  }

  lemma {:induction false} PostOrderAllExact(kids: seq<Tree>)
    ensures Once(PostOrderAll(kids)) && forall q :: q in PostOrderAll(kids) <==> ValidBelow(kids, q)
    decreases kids, 0
  {
    if kids != [] {
      var n := |kids| - 1;
      PostOrderAllExact(kids[..n]);
      PostOrderExact(kids[n]);
      PrefixedExact(kids[n], n, PostOrder(kids[n]));
      var first, last := PostOrderAll(kids[..n]), Prefixed(n, PostOrder(kids[n]));
      hide PostOrder, ValidAt;
      forall q ensures q in first + last <==> ValidBelow(kids, q) {
        assert q in first <==> ValidBelow(kids[..n], q);
      }
      forall q | q in first ensures q !in last {
        assert ValidBelow(kids[..n], q);
      }
      OnceConcat(first, last);
    }
  }

  lemma PrefixedExact(t: Tree, n: int, qs: seq<seq<int>>)
    requires Once(qs) && forall q :: q in qs <==> ValidAt(t, q)
    ensures Once(Prefixed(n, qs))
    ensures forall q :: q in Prefixed(n, qs) <==> q != [] && q[0] == n && ValidAt(t, q[1..])
  {
    hide ValidAt;
    var r := Prefixed(n, qs);
    forall q | q != [] && q[0] == n && ValidAt(t, q[1..]) ensures q in r {
      var k :| 0 <= k < |qs| && qs[k] == q[1..];
      assert r[k] == q;
    }
    forall q | q in r ensures q != [] && q[0] == n && ValidAt(t, q[1..]) {
      var k :| 0 <= k < |r| && r[k] == q;
      assert q[1..] == qs[k];
    }
    forall i, j | 0 <= i < j < |r| ensures r[i] != r[j] {
      assert r[i][1..] == qs[i] && r[j][1..] == qs[j];
    }
  }

  /** The mismatches of the named nodes, in the order of the list. */
  ghost function MismatchesAt(t: Tree, qs: seq<seq<int>>): seq<Err>
    requires forall q | q in qs :: ValidAt(t, q)
  {
    if qs == [] then []
    else MismatchesAt(t, qs[..|qs| - 1]) + OwnMismatch(NodeAt(t, qs[|qs| - 1]))
  }

  lemma {:induction false} MismatchesConcat(t: Tree, ps: seq<seq<int>>, qs: seq<seq<int>>)
    requires forall q | q in ps || q in qs :: ValidAt(t, q)
    ensures MismatchesAt(t, ps + qs) == MismatchesAt(t, ps) + MismatchesAt(t, qs)
  {
    if qs == [] {
      assert ps + qs == ps;
    } else {
      var n := |qs| - 1;
      assert (ps + qs)[..|ps + qs| - 1] == ps + qs[..n];
      MismatchesConcat(t, ps, qs[..n]);
    }
  }

  lemma {:induction false} MismatchesBelow(t: Tree, i: int, qs: seq<seq<int>>)
    requires 0 <= i < |t.kids| && forall q | q in qs :: ValidAt(t.kids[i], q)
    ensures forall q | q in Prefixed(i, qs) :: ValidAt(t, q)
    ensures MismatchesAt(t, Prefixed(i, qs)) == MismatchesAt(t.kids[i], qs)
  {
    var r := Prefixed(i, qs);
    forall k | 0 <= k < |r| ensures ValidAt(t, r[k]) && NodeAt(t, r[k]) == NodeAt(t.kids[i], qs[k]) {
      assert r[k][1..] == qs[k];
    }
    if qs != [] {
      var n := |qs| - 1;
      MismatchesBelow(t, i, qs[..n]);
      assert r[..n] == Prefixed(i, qs[..n]);
    }
  }

  /** Ending a run reports one mismatch for each node whose count is wrong, and nothing else. */
  lemma {:induction false} EndReportsMismatches(t: Tree)
    ensures forall q | q in PostOrder(t) :: ValidAt(t, q)
    ensures End(t) == MismatchesAt(t, PostOrder(t))
    decreases t, 1
  {
    PostOrderExact(t);
    assert forall q | q in PostOrderAll(t.kids) :: q in PostOrder(t);
    assert t.kids[..|t.kids|] == t.kids;
    EndAllReports(t, |t.kids|);
    var root: seq<seq<int>> := [[]];
    MismatchesConcat(t, PostOrderAll(t.kids), root);
    assert root[..0] == [];
    assert MismatchesAt(t, root) == OwnMismatch(t);
  }

  lemma {:induction false} EndAllReports(t: Tree, n: nat)
    requires n <= |t.kids|
    ensures forall q | q in PostOrderAll(t.kids[..n]) :: ValidAt(t, q)
    ensures EndAll(t.kids[..n]) == MismatchesAt(t, PostOrderAll(t.kids[..n]))
    decreases t, 0, n
  {
    AllValid(t, n);
    if n > 0 {
      var kids := t.kids[..n];
      assert kids[..n - 1] == t.kids[..n - 1];
      hide ValidAt, NodeAt, PostOrder, Prefixed;
      EndAllReports(t, n - 1);
      EndReportsMismatches(kids[n - 1]);
      MismatchesBelow(t, n - 1, PostOrder(kids[n - 1]));
      MismatchesConcat(t, PostOrderAll(kids[..n - 1]), Prefixed(n - 1, PostOrder(kids[n - 1])));
    }
  }

  lemma AllValid(t: Tree, n: nat)
    requires n <= |t.kids|
    ensures forall q | q in PostOrderAll(t.kids[..n]) :: ValidAt(t, q)
  {
    PostOrderAllExact(t.kids[..n]);
    forall q | q in PostOrderAll(t.kids[..n]) ensures ValidAt(t, q) {
      assert ValidBelow(t.kids[..n], q);
    }
  }

  lemma {:induction false} NoMismatches(t: Tree, qs: seq<seq<int>>)
    requires forall q | q in qs :: ValidAt(t, q)
    ensures MismatchesAt(t, qs) == [] <==> forall q | q in qs :: !Mismatched(NodeAt(t, q))
  {
    hide ValidAt, NodeAt, Mismatched;
    if qs != [] {
      var n := |qs| - 1;
      NoMismatches(t, qs[..n]);
      assert qs == qs[..n] + [qs[n]];
      assert MismatchesAt(t, qs) == MismatchesAt(t, qs[..n]) + OwnMismatch(NodeAt(t, qs[n]));
      assert OwnMismatch(NodeAt(t, qs[n])) == [] <==> !Mismatched(NodeAt(t, qs[n]));
    }
  }

  // ---------- a clean run ----------

  /** The request passes the constraints it is checked against, is routed to a child that also takes it, and
      the reply at the end of its trail raises no error. */
  ghost predicate Clean(t: Tree, r: Request, checked: bool) {
    && (checked ==> forall i | 0 <= i < |t.spec.constraints| :: Complaints(t.spec.constraints[i], r) == [])
    && match t.spec.strategy
       case Absent => checked
       case Fixed(answer) => answer(r).errors == []
       case _ => Pick(t, r) >= 0 && Clean(t.kids[Pick(t, r)], r, !t.spec.strategy.BasedOnRequest?)
  }

  lemma {:induction false} VerifyPasses(endpoint: string, cs: seq<Constraint>, r: Request)
    ensures Verify(endpoint, cs, r) == [] <==> forall i | 0 <= i < |cs| :: Complaints(cs[i], r) == []
  {
    hide Verify, Complaints;
    if cs == [] {
      VerifyNone(endpoint, r);
    } else {
      var n := |cs| - 1;
      VerifyPasses(endpoint, cs[..n], r);
      assert cs == cs[..n] + [cs[n]];
      VerifySnoc(endpoint, cs[..n], cs[n], r);
      var last := Complaints(cs[n], r);
      assert Label(endpoint, last) == [] <==> |last| == 0;
    }
  }

  /** No error is logged for a request exactly when it is clean. */
  lemma {:induction false} ErrorFreeIffClean(t: Tree, r: Request)
    ensures Execute(t, r).answer.errors == [] <==> Clean(t, r, true)
    ensures ExecuteWithoutVerifying(t, r).answer.errors == [] <==> Clean(t, r, false)
    decreases t
  {
    VerifyPasses(t.spec.path, t.spec.constraints, r);
    if !t.spec.strategy.Absent? && !t.spec.strategy.Fixed? && Pick(t, r) >= 0 {
      ErrorFreeIffClean(t.kids[Pick(t, r)], r);
    }
  }

  /** Every request was clean at its turn. */
  ghost predicate CleanRun(t: Tree, rs: seq<Request>) {
    forall k | 0 <= k < |rs| :: Clean(Run(t, rs[..k]), rs[k], true)
  }

  /** Every constrained node was reached as often as it asks. */
  ghost predicate CountsMet(t: Tree, rs: seq<Request>) {
    forall q | ValidAt(t, q) ::
      NodeAt(t, q).spec.limit == NO_LIMIT || |Arriving(t, rs, q)| == NodeAt(t, q).spec.limit
  }

  lemma {:induction false} LogIsEmptyIff(t: Tree, rs: seq<Request>)
    ensures Log(t, rs) == [] <==> CleanRun(t, rs)
  {
    hide Execute, Clean, Run;
    if rs != [] {
      var n := |rs| - 1;
      LogIsEmptyIff(t, rs[..n]);
      ErrorFreeIffClean(Run(t, rs[..n]), rs[n]);
      forall k | 0 <= k < n ensures rs[..n][..k] == rs[..k] && rs[..n][k] == rs[k] {
      }
      assert Log(t, rs) == [] <==> Log(t, rs[..n]) == [] && Execute(Run(t, rs[..n]), rs[n]).answer.errors == [];
    }
  }

  lemma EndIsEmptyIff(u: Tree)
    ensures End(u) == [] <==> forall q | ValidAt(u, q) :: !Mismatched(NodeAt(u, q))
  {
    hide PostOrder, ValidAt, NodeAt, MismatchesAt, Mismatched, Once;
    PostOrderExact(u);
    EndReportsMismatches(u);
    NoMismatches(u, PostOrder(u));
  }

  lemma MismatchedIff(t: Tree, rs: seq<Request>, q: seq<int>)
    requires t == Reset(t) && ValidAt(t, q)
    ensures ValidAt(Run(t, rs), q)
    ensures Mismatched(NodeAt(Run(t, rs), q)) <==>
            NodeAt(t, q).spec.limit != NO_LIMIT && |Arriving(t, rs, q)| != NodeAt(t, q).spec.limit
  {
    ReachedCount(t, rs, q);
  }

  lemma CountsMetIff(t: Tree, rs: seq<Request>)
    requires t == Reset(t)
    ensures End(Run(t, rs)) == [] <==> CountsMet(t, rs)
  {
    hide ValidAt, NodeAt, Arriving, Reset, Run, End, Mismatched;
    var u := Run(t, rs);
    EndIsEmptyIff(u);
    if CountsMet(t, rs) {
      forall q | ValidAt(u, q) ensures !Mismatched(NodeAt(u, q)) {
        SameAddresses(t, rs, q);
        MismatchedIff(t, rs, q);
      }
    }
    if End(u) == [] {
      forall q | ValidAt(t, q)
        ensures NodeAt(t, q).spec.limit == NO_LIMIT || |Arriving(t, rs, q)| == NodeAt(t, q).spec.limit
      {
        MismatchedIff(t, rs, q);
      }
    }
  }

  /** A test's mock verdict is empty exactly when every request was clean at its turn and every constrained node
      was reached as often as it asks. */
  lemma VerdictIsEmptyIff(t: Tree, rs: seq<Request>)
    requires t == Reset(t)
    ensures Log(t, rs) + End(Run(t, rs)) == [] <==> CleanRun(t, rs) && CountsMet(t, rs)
  {
    hide Log, End, Run, Reset, CleanRun, CountsMet;
    LogIsEmptyIff(t, rs);
    CountsMetIff(t, rs);
  }

  lemma ReachedCount(t: Tree, rs: seq<Request>, q: seq<int>)
    requires t == Reset(t) && ValidAt(t, q)
    ensures ValidAt(Run(t, rs), q)
    ensures NodeAt(Run(t, rs), q).spec == NodeAt(t, q).spec && NodeAt(Run(t, rs), q).calls == |Arriving(t, rs, q)|
  {
    SubtreeRun(t, rs, q);
    ResetAt(t, q);
    RunCounts(NodeAt(t, q), Arriving(t, rs, q));
  }

  lemma {:induction false} SameAddresses(t: Tree, rs: seq<Request>, q: seq<int>)
    requires ValidAt(Run(t, rs), q)
    ensures ValidAt(t, q)
  {
    ResetForgetsRun(t, rs);
    ResetAddresses(Run(t, rs), q);
    ResetAddresses(t, q);
  }

  lemma {:induction false} ResetAddresses(t: Tree, q: seq<int>)
    ensures ValidAt(Reset(t), q) <==> ValidAt(t, q)
    decreases |q|
  {
    if q != [] && 0 <= q[0] < |t.kids| {
      ResetAddresses(t.kids[q[0]], q[1..]);
    }
  }

  // ---------- constraint order ----------

  lemma {:induction false} VerifyConcat(endpoint: string, cs: seq<Constraint>, ds: seq<Constraint>, r: Request)
    ensures Verify(endpoint, cs + ds, r) == Verify(endpoint, cs, r) + Verify(endpoint, ds, r)
  {
    hide Verify, Label, Complaints;
    if ds == [] {
      assert cs + ds == cs;
      VerifyNone(endpoint, r);
    } else {
      var n := |ds| - 1;
      assert cs + ds == (cs + ds[..n]) + [ds[n]] && ds == ds[..n] + [ds[n]];
      VerifySnoc(endpoint, cs + ds[..n], ds[n], r);
      VerifySnoc(endpoint, ds[..n], ds[n], r);
      VerifyConcat(endpoint, cs, ds[..n], r);
    }
  }

  lemma VerifyNone(endpoint: string, r: Request)
    ensures Verify(endpoint, [], r) == []
  {
  }

  lemma VerifySnoc(endpoint: string, cs: seq<Constraint>, c: Constraint, r: Request)
    ensures Verify(endpoint, cs + [c], r) == Verify(endpoint, cs, r) + Label(endpoint, Complaints(c, r))
  {
    assert (cs + [c])[..|cs|] == cs;
  }

  lemma VerifyBagSplit(endpoint: string, ds: seq<Constraint>, i: nat, r: Request)
    requires i < |ds|
    ensures multiset(Verify(endpoint, ds, r)) ==
            multiset(Verify(endpoint, ds[..i] + ds[i + 1..], r)) + multiset(Verify(endpoint, [ds[i]], r))
    ensures multiset(ds) == multiset(ds[..i] + ds[i + 1..]) + multiset{ds[i]}
  {
    var c := ds[i];
    assert ds == ds[..i] + [c] + ds[i + 1..];
    VerifyConcat(endpoint, ds[..i] + [c], ds[i + 1..], r);
    VerifyConcat(endpoint, ds[..i], [c], r);
    VerifyConcat(endpoint, ds[..i], ds[i + 1..], r);
  }

  lemma SameRest(cs: seq<Constraint>, ds: seq<Constraint>, c: Constraint)
    requires multiset(cs) + multiset{c} == multiset(ds) + multiset{c}
    ensures multiset(cs) == multiset(ds)
  {
    assert multiset(cs) == multiset(cs) + multiset{c} - multiset{c};
    assert multiset(ds) == multiset(ds) + multiset{c} - multiset{c};
  }

  /** Reordering a constraint list only reorders its errors. */
  lemma {:induction false} OrderOfConstraints(endpoint: string, cs: seq<Constraint>, ds: seq<Constraint>, r: Request)
    requires multiset(cs) == multiset(ds)
    ensures multiset(Verify(endpoint, cs, r)) == multiset(Verify(endpoint, ds, r))
  {
    hide Verify;
    assert |multiset(cs)| == |cs| && |multiset(ds)| == |ds|;
    if cs == [] {
      assert cs == ds;
    } else {
      assert cs[0] in multiset(ds);
      var i :| 0 <= i < |ds| && ds[i] == cs[0];
      VerifyBagSplit(endpoint, ds, i, r);
      VerifyBagSplit(endpoint, cs, 0, r);
      var cs', ds' := cs[..0] + cs[1..], ds[..i] + ds[i + 1..];
      SameRest(cs', ds', cs[0]);
      OrderOfConstraints(endpoint, cs', ds', r);
    }
  }
}
