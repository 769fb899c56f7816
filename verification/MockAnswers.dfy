/** What a mock answers: where a request is routed, who replies, and which errors are logged, each stated from the
    definitions as written. */
module MockAnswers {
  import opened Wrappers
  import opened MockTree
  import opened MockTheorems
  import opened MockService

  // ---------- constraints ----------

  /** The constraint says this of the request; a body that cannot be read is said to be so. */
  predicate Says(c: Constraint, r: Request, text: string) {
    match c
    case OnHead(check) => text in check(r.head)
    case OnBody(check) => match r.body case Some(body) => text in check(r.head, body) case None => text == READ_FAILED
  }

  ghost predicate Objects(cs: seq<Constraint>, r: Request, text: string) {
    exists i | 0 <= i < |cs| :: Says(cs[i], r, text)
  }

  lemma SaysIff(c: Constraint, r: Request, endpoint: string, text: string)
    ensures Failed(endpoint, text) in Label(endpoint, Complaints(c, r)) <==> Says(c, r, text)
  {
    var texts := Complaints(c, r);
    if text in texts {
      var i :| 0 <= i < |texts| && texts[i] == text;
      assert Label(endpoint, texts)[i] == Failed(endpoint, text);
    }
  }

  /** Verification reports what the constraints say of the whole request, under the endpoint, and nothing else. */
  lemma {:induction false} VerifyReports(endpoint: string, cs: seq<Constraint>, r: Request, x: Err)
    ensures x in Verify(endpoint, cs, r) <==> x.Failed? && x.endpoint == endpoint && Objects(cs, r, x.text)
  {
    hide Complaints, Says;
    if cs != [] {
      var n := |cs| - 1;
      VerifyReports(endpoint, cs[..n], r, x);
      if x.Failed? && x.endpoint == endpoint {
        SaysIff(cs[n], r, endpoint, x.text);
      }
      if x.Failed? {
        ObjectsSnoc(cs, r, x.text);
      }
    }
  }

  lemma ObjectsSnoc(cs: seq<Constraint>, r: Request, text: string)
    requires cs != []
    ensures Objects(cs, r, text) <==> Objects(cs[..|cs| - 1], r, text) || Says(cs[|cs| - 1], r, text)
  {
    var n := |cs| - 1;
    if Objects(cs[..n], r, text) {
      var i :| 0 <= i < n && Says(cs[..n][i], r, text);
      assert Says(cs[i], r, text);
    }
    if Objects(cs, r, text) {
      var i :| 0 <= i < |cs| && Says(cs[i], r, text);
      assert i < n ==> Says(cs[..n][i], r, text);
    }
  }

  /** Nobody objects exactly when verification reports nothing. */
  lemma VerifiedIff(endpoint: string, cs: seq<Constraint>, r: Request)
    ensures Verify(endpoint, cs, r) == [] <==> forall text :: !Objects(cs, r, text)
  {
    hide Verify, Objects;
    if Verify(endpoint, cs, r) != [] {
      var x := Verify(endpoint, cs, r)[0];
      VerifyReports(endpoint, cs, r, x);
    }
    forall text | Objects(cs, r, text) ensures Failed(endpoint, text) in Verify(endpoint, cs, r) {
      VerifyReports(endpoint, cs, r, Failed(endpoint, text));
    }
  }

  // ---------- routing ----------

  function Slashes(k: nat): (s: string)
    ensures |s| == k && forall i | 0 <= i < k :: s[i] == '/'
  {
    seq(k, i => '/')
  }

  predicate EndsInSlash(s: string) {
    s != "" && s[|s| - 1] == '/'
  }

  predicate StartsWithSlash(s: string) {
    s != "" && s[0] == '/'
  }

  lemma {:induction false} TrimRightIs(b: string, x: nat)
    requires !EndsInSlash(b)
    ensures TrimSlashRight(b + Slashes(x)) == b
  {
    if x == 0 {
      assert b + Slashes(0) == b;
    } else {
      TrimRightIs(b, x - 1);
      var s := b + Slashes(x);
      assert s[..|s| - 1] == b + Slashes(x - 1);
    }
  }

  lemma {:induction false} TrimLeftIs(u: string, y: nat)
    requires !StartsWithSlash(u)
    ensures TrimSlashLeft(Slashes(y) + u) == u
  {
    if y == 0 {
      assert Slashes(0) + u == u;
    } else {
      TrimLeftIs(u, y - 1);
      assert (Slashes(y) + u)[1..] == Slashes(y - 1) + u;
    }
  }

  lemma {:induction false} TrimRightSplits(s: string) returns (x: nat)
    ensures s == TrimSlashRight(s) + Slashes(x) && !EndsInSlash(TrimSlashRight(s))
  {
    x := 0;
    if EndsInSlash(s) {
      var init := s[..|s| - 1];
      x := TrimRightSplits(init);
      x := x + 1;
      assert s == init + "/" == TrimSlashRight(init) + Slashes(x);
    } else {
      assert s + Slashes(0) == s;
    }
  }

  lemma {:induction false} TrimLeftSplits(s: string) returns (y: nat)
    ensures s == Slashes(y) + TrimSlashLeft(s) && !StartsWithSlash(TrimSlashLeft(s))
  {
    y := 0;
    if StartsWithSlash(s) {
      var rest := s[1..];
      y := TrimLeftSplits(rest);
      y := y + 1;
      assert s == "/" + rest == Slashes(y) + TrimSlashLeft(rest);
    } else {
      assert Slashes(0) + s == s;
    }
  }

  ghost predicate PathAs(path: string, basePath: string, uri: string, b: string, x: nat, y: nat, u: string) {
    && basePath == b + Slashes(x) && uri == Slashes(y) + u && !EndsInSlash(b) && !StartsWithSlash(u)
    && path == b + "/" + u
  }

  /** The path is base path and URI joined by one slash, whatever slashes stand at the joint. */
  ghost predicate PathIs(path: string, basePath: string, uri: string) {
    exists b, x, y, u :: PathAs(path, basePath, uri, b, x, y, u)
  }

  lemma FullUriIff(path: string, basePath: string, uri: string)
    ensures FullUri(basePath, uri) == path <==> PathIs(path, basePath, uri)
  {
    var x := TrimRightSplits(basePath);
    var y := TrimLeftSplits(uri);
    hide TrimSlashLeft, TrimSlashRight;
    var b, u := TrimSlashRight(basePath), TrimSlashLeft(uri);
    assert PathAs(FullUri(basePath, uri), basePath, uri, b, x, y, u);
    if PathIs(path, basePath, uri) {
      var b', x', y', u' :| PathAs(path, basePath, uri, b', x', y', u');
      TrimRightIs(b', x');
      TrimLeftIs(u', y');
    }
  }

  /** The same letter, or its other case. */
  predicate SameLetter(c: char, d: char) {
    || c == d
    || ('A' <= c <= 'Z' && d as int - 'a' as int == c as int - 'A' as int)
    || ('A' <= d <= 'Z' && c as int - 'a' as int == d as int - 'A' as int)
  }

  predicate SameUpToCase(s: string, t: string) {
    |s| == |t| && forall i | 0 <= i < |s| :: SameLetter(s[i], t[i])
  }

  lemma LowerIff(s: string, t: string)
    ensures Lower(s) == Lower(t) <==> SameUpToCase(s, t)
  {
    forall c, d ensures LowerChar(c) == LowerChar(d) <==> SameLetter(c, d) {
    }
    hide LowerChar, SameLetter;
    if SameUpToCase(s, t) {
      assert forall i | 0 <= i < |s| :: Lower(s)[i] == Lower(t)[i];
    }
    if Lower(s) == Lower(t) {
      forall i | 0 <= i < |s| ensures SameLetter(s[i], t[i]) {
        assert Lower(s)[i] == Lower(t)[i];
      }
    }
  }

  /** The i-th child is written for this request. */
  ghost predicate Wants(t: Tree, r: Request, i: nat)
    requires i < |t.kids|
  {
    match t.spec.strategy
    case UriVary(basePath, uris) => i < |uris| && PathIs(r.head.path, basePath, uris[i])
    case MethodVary(methods) => i < |methods| && SameUpToCase(methods[i], r.head.verb)
    case Sequence => i == t.pos
    case BasedOnRequest => forall text :: !Objects(t.kids[i].spec.constraints, r, text)
    case _ => false
  }

  lemma TakesIffWants(t: Tree, r: Request, i: nat)
    requires i < |t.kids|
    ensures Takes(t, r, i) <==> Wants(t, r, i)
  {
    hide Verify, FullUri, Lower, PathIs, SameUpToCase;
    match t.spec.strategy
    case UriVary(basePath, uris) =>
      if i < |uris| {
        FullUriIff(r.head.path, basePath, uris[i]);
      }
    case MethodVary(methods) =>
      if i < |methods| {
        LowerIff(methods[i], r.head.verb);
      }
    case BasedOnRequest => VerifiedIff(t.kids[i].spec.path, t.kids[i].spec.constraints, r);
    case Sequence =>
    case Absent =>
    case Fixed(_) =>
  }

  /** A request goes to the first child written for it, and to none if there is none. */
  lemma PickIsFirst(t: Tree, r: Request, i: nat)
    requires i < |t.kids|
    ensures Pick(t, r) == i <==> Wants(t, r, i) && forall j | 0 <= j < i :: !Wants(t, r, j)
    ensures Pick(t, r) < 0 ==> !Wants(t, r, i)
  {
    hide Takes, Wants;
    forall j | 0 <= j < |t.kids| ensures Takes(t, r, j) <==> Wants(t, r, j) {
      TakesIffWants(t, r, j);
    }
    if Wants(t, r, i) && forall j | 0 <= j < i :: !Wants(t, r, j) {
      PickIs(t, r, i);
    }
  }

  /** What the variants refuse a request for is what their constraints say of it. */
  lemma {:induction false} RefusalsReport(kids: seq<Tree>, r: Request, x: Err)
    ensures x in Refusals(kids, r) <==>
            exists i | 0 <= i < |kids| ::
              x.Failed? && x.endpoint == kids[i].spec.path && Objects(kids[i].spec.constraints, r, x.text)
  {
    hide Verify, Objects;
    if kids != [] {
      var n := |kids| - 1;
      RefusalsReport(kids[..n], r, x);
      VerifyReports(kids[n].spec.path, kids[n].spec.constraints, r, x);
      if i :| 0 <= i < |kids| && x.Failed? && x.endpoint == kids[i].spec.path &&
              Objects(kids[i].spec.constraints, r, x.text)
      {
        assert i < n ==> kids[..n][i] == kids[i];
      }
      if i :| 0 <= i < n && x.Failed? && x.endpoint == kids[..n][i].spec.path &&
              Objects(kids[..n][i].spec.constraints, r, x.text)
      {
        assert kids[..n][i] == kids[i];
      }
    }
  }

  // ---------- the answer ----------

  lemma {:induction false} TrailIsValid(t: Tree, r: Request)
    ensures ValidAt(t, Trail(t, r))
  {
    var i := Pick(t, r);
    if i >= 0 {
      TrailIsValid(t.kids[i], r);
      assert ([i] + Trail(t.kids[i], r))[1..] == Trail(t.kids[i], r);
    }
  }

  /** The node a request ends at. */
  ghost function LeafFor(t: Tree, r: Request): Tree {
    TrailIsValid(t, r);
    NodeAt(t, Trail(t, r))
  }

  /** What a node answers that passes the request on to nobody. */
  function OwnReply(t: Tree, r: Request): Option<Reply> {
    if t.spec.strategy.Fixed? then t.spec.strategy.answer(r).reply else None
  }

  function OwnErrors(t: Tree, r: Request, checked: bool): seq<Err> {
    match t.spec.strategy
    case Absent => if checked then [] else [StrategyUndefined]
    case Fixed(answer) => answer(r).errors
    case BasedOnRequest => Refusals(t.kids, r) + [Unhandled]
    case _ => [Unhandled]
  }

  lemma LeafBelow(t: Tree, r: Request)
    requires Pick(t, r) >= 0
    ensures LeafFor(t, r) == LeafFor(t.kids[Pick(t, r)], r)
  {
    var i := Pick(t, r);
    hide Pick;
    TrailIsValid(t.kids[i], r);
    assert ([i] + Trail(t.kids[i], r))[1..] == Trail(t.kids[i], r);
  }

  lemma NobodyTakes(t: Tree, r: Request)
    requires t.spec.strategy.Absent? || t.spec.strategy.Fixed?
    ensures Pick(t, r) < 0
  {
  }

  /** The reply is that of the node the request ends at. */
  lemma {:induction false} ReplyIsLeafs(t: Tree, r: Request)
    ensures Execute(t, r).answer.reply == OwnReply(LeafFor(t, r), r)
    ensures ExecuteWithoutVerifying(t, r).answer.reply == OwnReply(LeafFor(t, r), r)
    decreases t
  {
    hide Verify, Refusals, Pick;
    if t.spec.strategy.Absent? || t.spec.strategy.Fixed? {
      NobodyTakes(t, r);
    } else if Pick(t, r) >= 0 {
      LeafBelow(t, r);
      ReplyIsLeafs(t.kids[Pick(t, r)], r);
    }
  }

  /** The k-th node on the way to q is verified: the root if asked, any other unless it was chosen by its constraints
      already. */
  ghost predicate Checked(t: Tree, q: seq<int>, k: nat, root: bool)
    requires k <= |q| && ValidAt(t, q)
  {
    if k == 0 then root else
    PrefixValid(t, q, k - 1);
    !NodeAt(t, q[..k - 1]).spec.strategy.BasedOnRequest?
  }

  lemma {:induction false} PrefixValid(t: Tree, q: seq<int>, k: nat)
    requires k <= |q| && ValidAt(t, q)
    ensures ValidAt(t, q[..k])
    decreases k
  {
    if k > 0 {
      PrefixValid(t.kids[q[0]], q[1..], k - 1);
      assert q[..k][1..] == q[1..][..k - 1];
    }
  }

  /** What the k-th node on the way to q reports, if it is verified. */
  ghost function AtNode(t: Tree, r: Request, q: seq<int>, k: nat, root: bool): seq<Err>
    requires k <= |q| && ValidAt(t, q)
  {
    PrefixValid(t, q, k);
    var spec := NodeAt(t, q[..k]).spec;
    if Checked(t, q, k, root) then Verify(spec.path, spec.constraints, r) else []
  }

  /** What the first k nodes on the way to q report. */
  ghost function OnTheWay(t: Tree, r: Request, q: seq<int>, k: nat, root: bool): seq<Err>
    requires k <= |q| + 1 && ValidAt(t, q)
  {
    if k == 0 then [] else OnTheWay(t, r, q, k - 1, root) + AtNode(t, r, q, k - 1, root)
  }

  lemma NodeBelow(t: Tree, i: int, q: seq<int>, k: nat)
    requires ValidAt(t, [i] + q) && ValidAt(t.kids[i], q) && k <= |q|
    ensures ValidAt(t.kids[i], q[..k]) && ValidAt(t, ([i] + q)[..k + 1])
    ensures NodeAt(t, ([i] + q)[..k + 1]) == NodeAt(t.kids[i], q[..k])
  {
    PrefixValid(t.kids[i], q, k);
    var p := ([i] + q)[..k + 1];
    PrefixValid(t, [i] + q, k + 1);
    assert p[0] == i && p[1..] == q[..k];
  }

  lemma AtNodeBelow(t: Tree, r: Request, i: int, q: seq<int>, k: nat, root: bool)
    requires 0 <= i < |t.kids| && ValidAt(t.kids[i], q) && ValidAt(t, [i] + q) && k <= |q|
    ensures AtNode(t, r, [i] + q, k + 1, root) == AtNode(t.kids[i], r, q, k, !t.spec.strategy.BasedOnRequest?)
  {
    hide Verify, Checked;
    NodeBelow(t, i, q, k);
    CheckedBelow(t, i, q, k, root);
  }

  /** The way below the root is the way of the child, entered as the root's strategy enters it. */
  lemma {:induction false} WayBelow(t: Tree, r: Request, i: int, q: seq<int>, k: nat, root: bool)
    requires 0 <= i < |t.kids| && ValidAt(t.kids[i], q) && ValidAt(t, [i] + q) && k <= |q| + 1
    ensures OnTheWay(t, r, [i] + q, k + 1, root) ==
            (if root then Verify(t.spec.path, t.spec.constraints, r) else []) +
            OnTheWay(t.kids[i], r, q, k, !t.spec.strategy.BasedOnRequest?)
  {
    hide Verify, AtNode, OnTheWay, ValidAt;
    var first := if root then Verify(t.spec.path, t.spec.constraints, r) else [];
    var entered := !t.spec.strategy.BasedOnRequest?;
    WaySnoc(t, r, [i] + q, k, root);
    if k == 0 {
      NoWay(t, r, [i] + q, root);
      NoWay(t.kids[i], r, q, entered);
    } else {
      WayBelow(t, r, i, q, k - 1, root);
      AtNodeBelow(t, r, i, q, k - 1, root);
      WaySnoc(t.kids[i], r, q, k - 1, entered);
      Regroup(first, OnTheWay(t.kids[i], r, q, k - 1, entered), AtNode(t.kids[i], r, q, k - 1, entered));
    }
  }

  lemma Regroup(a: seq<Err>, b: seq<Err>, c: seq<Err>)
    ensures (a + b) + c == a + (b + c)
  {
  }

  lemma WaySnoc(t: Tree, r: Request, q: seq<int>, k: nat, root: bool)
    requires k <= |q| && ValidAt(t, q)
    ensures OnTheWay(t, r, q, k + 1, root) == OnTheWay(t, r, q, k, root) + AtNode(t, r, q, k, root)
  {
  }

  lemma NoWay(t: Tree, r: Request, q: seq<int>, root: bool)
    requires ValidAt(t, q)
    ensures OnTheWay(t, r, q, 0, root) == []
    ensures AtNode(t, r, q, 0, root) == if root then Verify(t.spec.path, t.spec.constraints, r) else []
  {
    hide Verify;
    assert q[..0] == [];
  }

  lemma CheckedBelow(t: Tree, i: int, q: seq<int>, k: nat, root: bool)
    requires 0 <= i < |t.kids| && ValidAt(t.kids[i], q) && ValidAt(t, [i] + q) && k <= |q|
    ensures Checked(t, [i] + q, k + 1, root) <==> Checked(t.kids[i], q, k, !t.spec.strategy.BasedOnRequest?)
  {
    if k == 0 {
      assert ([i] + q)[..0] == [];
    } else {
      NodeBelow(t, i, q, k - 1);
    }
  }

  /** All the errors of a request: what the verified nodes on its trail report, then what the last node has to add. */
  ghost function TrailErrors(t: Tree, r: Request, root: bool): seq<Err> {
    TrailIsValid(t, r);
    var q := Trail(t, r);
    OnTheWay(t, r, q, |q| + 1, root) + OwnErrors(NodeAt(t, q), r, Checked(t, q, |q|, root))
  }

  lemma TrailErrorsHere(t: Tree, r: Request, root: bool)
    requires Pick(t, r) < 0
    ensures TrailErrors(t, r, root) ==
            (if root then Verify(t.spec.path, t.spec.constraints, r) else []) + OwnErrors(t, r, root)
  {
    hide Verify, OwnErrors, Pick;
    var q := Trail(t, r);
    assert q == [] && q[..0] == [];
    assert OnTheWay(t, r, q, 0, root) == [];
  }

  lemma TrailErrorsBelow(t: Tree, r: Request, root: bool)
    requires Pick(t, r) >= 0
    ensures TrailErrors(t, r, root) ==
            (if root then Verify(t.spec.path, t.spec.constraints, r) else []) +
            TrailErrors(t.kids[Pick(t, r)], r, !t.spec.strategy.BasedOnRequest?)
  {
    hide Verify, OwnErrors, Pick, OnTheWay, Checked;
    var i := Pick(t, r);
    TrailIsValid(t, r);
    TrailIsValid(t.kids[i], r);
    var q := Trail(t.kids[i], r);
    assert Trail(t, r) == [i] + q;
    WayBelow(t, r, i, q, |q| + 1, root);
    CheckedBelow(t, i, q, |q|, root);
    LeafBelow(t, r);
  }

  /** The errors logged for a request are those of its trail. */
  lemma {:induction false} ErrorsAreTrails(t: Tree, r: Request)
    ensures Execute(t, r).answer.errors == TrailErrors(t, r, true)
    ensures ExecuteWithoutVerifying(t, r).answer.errors == TrailErrors(t, r, false)
    decreases t
  {
    hide Verify, Refusals, Pick, TrailErrors;
    if t.spec.strategy.Absent? || t.spec.strategy.Fixed? {
      NobodyTakes(t, r);
      TrailErrorsHere(t, r, true);
      TrailErrorsHere(t, r, false);
    } else if Pick(t, r) < 0 {
      TrailErrorsHere(t, r, true);
      TrailErrorsHere(t, r, false);
    } else {
      ErrorsAreTrails(t.kids[Pick(t, r)], r);
      TrailErrorsBelow(t, r, true);
      TrailErrorsBelow(t, r, false);
    }
  }

  // ---------- runs ----------

  /** The k-th reply of a run is that of the node the k-th request ends at, in the tree as it is by then. */
  lemma {:induction false} RepliesAre(t: Tree, rs: seq<Request>, k: nat)
    requires k < |rs|
    ensures |Replies(t, rs)| == |rs| && Replies(t, rs)[k] == OwnReply(LeafFor(Run(t, rs[..k]), rs[k]), rs[k])
  {
    hide Execute, Run, LeafFor, OwnReply;
    var n := |rs| - 1;
    if n > 0 {
      RepliesAre(t, rs[..n], if k < n then k else 0);
    }
    if k < n {
      assert rs[..n][..k] == rs[..k];
    } else {
      ReplyIsLeafs(Run(t, rs[..n]), rs[n]);
    }
  }

  /** The log of a run grows by the errors of each request's trail, in the tree as it is by then. */
  lemma LogGrows(t: Tree, rs: seq<Request>, k: nat)
    requires k < |rs|
    ensures Log(t, rs[..k + 1]) == Log(t, rs[..k]) + TrailErrors(Run(t, rs[..k]), rs[k], true)
    ensures Log(t, []) == []
  {
    hide Execute, Run, TrailErrors;
    assert rs[..k + 1][..k] == rs[..k];
    ErrorsAreTrails(Run(t, rs[..k]), rs[k]);
  }

  // ---------- mismatches ----------

  ghost predicate Misses(t: Tree, q: seq<int>, x: Err) {
    && ValidAt(t, q)
    && var node := NodeAt(t, q);
    && node.spec.limit != NO_LIMIT && node.calls != node.spec.limit
    && x == CallsMismatch(node.spec.path, node.spec.limit, node.calls)
  }

  /** The end reports the path, the constraint and the count of exactly the nodes whose count is wrong. */
  lemma EndReports(t: Tree, x: Err)
    ensures x in End(t) <==> exists q :: Misses(t, q, x)
  {
    hide PostOrder, MismatchesAt, ValidAt, NodeAt, Misses;
    EndReportsMismatches(t);
    PostOrderExact(t);
    MismatchesReport(t, PostOrder(t), x);
    forall q | Misses(t, q, x) ensures q in PostOrder(t) {
      MissesIsValid(t, q, x);
    }
  }

  lemma MissesIsValid(t: Tree, q: seq<int>, x: Err)
    requires Misses(t, q, x)
    ensures ValidAt(t, q)
  {
  }

  lemma {:induction false} MismatchesReport(t: Tree, qs: seq<seq<int>>, x: Err)
    requires forall q | q in qs :: ValidAt(t, q)
    ensures x in MismatchesAt(t, qs) <==> exists q | q in qs :: Misses(t, q, x)
  {
    hide ValidAt, NodeAt;
    if qs != [] {
      var n := |qs| - 1;
      MismatchesReport(t, qs[..n], x);
      assert qs == qs[..n] + [qs[n]];
      assert x in OwnMismatch(NodeAt(t, qs[n])) <==> Misses(t, qs[n], x);
    }
  }
}
