/** The HTTP mock as a value: a tree of definitions with call counters, and what one request does to it. */
module MockTree {
  import opened Wrappers

  /** The parts of a request that checks look at besides its body. */
  datatype Head = Head(verb: string, path: string, rest: string)

  /** `body` is None where reading it fails, as often as it is tried. */
  datatype Request = Request(head: Head, body: Option<string>)

  const READ_FAILED := "unable to read the body"

  datatype Err =
    | Failed(endpoint: string, text: string)
    | Unhandled
    | StrategyUndefined
    | ReplyFailed(text: string)
    | CallsMismatch(path: string, expected: int, actual: int)
    | InService(service: string, inner: Err)

  /** A request constraint: a function of the head, or of the head and the body it reads. */
  datatype Constraint =
    | OnHead(check: Head -> seq<string>)
    | OnBody(checkBody: (Head, string) -> seq<string>)

  function Complaints(c: Constraint, r: Request): seq<string> {
    match c
    case OnHead(check) => check(r.head)
    case OnBody(check) => if r.body.Some? then check(r.head, r.body.value) else [READ_FAILED]
  }

  function Label(endpoint: string, texts: seq<string>): (errs: seq<Err>)
    ensures |errs| == |texts|
    ensures forall i | 0 <= i < |texts| :: errs[i] == Failed(endpoint, texts[i])
  {
    seq(|texts|, i requires 0 <= i < |texts| => Failed(endpoint, texts[i]))
  }

  /** Every constraint's complaints, in order. */
  function Verify(endpoint: string, cs: seq<Constraint>, r: Request): seq<Err> {
    if cs == [] then []
    else Verify(endpoint, cs[..|cs| - 1], r) + Label(endpoint, Complaints(cs[|cs| - 1], r))
  }

  datatype Reply = Reply(status: int, body: string)

  datatype Answer = Answer(reply: Option<Reply>, errors: seq<Err>)

  /** `Fixed` covers the strategies without children: constant, file, template, nop, drop and fail. */
  datatype Strategy =
    | Absent
    | Fixed(answer: Request -> Answer)
    | UriVary(basePath: string, uris: seq<string>)
    | MethodVary(methods: seq<string>)
    | Sequence
    | BasedOnRequest

  /** No constraint on the number of calls. */
  const NO_LIMIT := -1

  datatype Spec = Spec(path: string, constraints: seq<Constraint>, strategy: Strategy, limit: int)

  /** A definition with its counters: `calls`, and `pos` for a sequence. */
  datatype Tree = Node(spec: Spec, calls: nat, pos: nat, kids: seq<Tree>)

  ghost predicate WellFormed(t: Tree) {
    && (forall i | 0 <= i < |t.kids| :: WellFormed(t.kids[i]))
    && match t.spec.strategy
       case Absent => t.kids == []
       case Fixed(_) => t.kids == []
       case UriVary(_, uris) => |uris| == |t.kids|
       case MethodVary(methods) => |methods| == |t.kids|
       case _ => true
  }

  // ---------- routing ----------

  function TrimSlashLeft(s: string): string {
    if s != "" && s[0] == '/' then TrimSlashLeft(s[1..]) else s
  }

  function TrimSlashRight(s: string): string {
    if s != "" && s[|s| - 1] == '/' then TrimSlashRight(s[..|s| - 1]) else s
  }

  function FullUri(basePath: string, uri: string): string {
    TrimSlashRight(basePath) + "/" + TrimSlashLeft(uri)
  }

  lemma {:induction false} TrimmedLeft(s: string)
    ensures TrimSlashLeft("/" + s) == TrimSlashLeft(s)
    ensures TrimSlashLeft(s) == "" || TrimSlashLeft(s)[0] != '/'
  {
    assert ("/" + s)[1..] == s;
    if s != "" && s[0] == '/' {
      TrimmedLeft(s[1..]);
    }
  }

  lemma {:induction false} TrimmedRight(s: string)
    ensures TrimSlashRight(s + "/") == TrimSlashRight(s)
    ensures var t := TrimSlashRight(s); t == "" || t[|t| - 1] != '/'
  {
    assert (s + "/")[..|s|] == s;
    if s != "" && s[|s| - 1] == '/' {
      TrimmedRight(s[..|s| - 1]);
    }
  }

  /** Slashes at the end of the base path and at the start of a URI do not matter: one joins the two. */
  lemma SlashesDoNotMatter(basePath: string, uri: string)
    ensures FullUri(basePath + "/", uri) == FullUri(basePath, "/" + uri) == FullUri(basePath, uri)
    ensures exists b, u :: JoinedBySlash(FullUri(basePath, uri), b, u)
  {
    TrimmedLeft(uri);
    TrimmedRight(basePath);
    assert JoinedBySlash(FullUri(basePath, uri), TrimSlashRight(basePath), TrimSlashLeft(uri));
  }

  predicate JoinedBySlash(s: string, b: string, u: string) {
    s == b + "/" + u && (b == "" || b[|b| - 1] != '/') && (u == "" || u[0] != '/')
  }

  function LowerChar(c: char): char {
    if 'A' <= c <= 'Z' then (c as int + 32) as char else c
  }

  function Lower(s: string): string {
    seq(|s|, i requires 0 <= i < |s| => LowerChar(s[i]))
  }

  /** The i-th child would take the request. */
  predicate Takes(t: Tree, r: Request, i: nat)
    requires i < |t.kids|
  {
    match t.spec.strategy
    case UriVary(basePath, uris) => i < |uris| && FullUri(basePath, uris[i]) == r.head.path
    case MethodVary(methods) => i < |methods| && Lower(methods[i]) == Lower(r.head.verb)
    case Sequence => i == t.pos
    case BasedOnRequest => Verify(t.kids[i].spec.path, t.kids[i].spec.constraints, r) == []
    case _ => false
  }

  /** The child a request goes to, the first that takes it, or -1. */
  function Pick(t: Tree, r: Request): (i: int)
    ensures -1 <= i < |t.kids|
  {
    PickFrom(t, r, 0)
  }

  function PickFrom(t: Tree, r: Request, i: nat): (k: int)
    requires i <= |t.kids|
    ensures k == -1 || i <= k < |t.kids|
    ensures k >= 0 ==> Takes(t, r, k)
    ensures forall j | i <= j < (if k < 0 then |t.kids| else k) :: !Takes(t, r, j)
    decreases |t.kids| - i
  {
    if i == |t.kids| then -1 else if Takes(t, r, i) then i else PickFrom(t, r, i + 1)
  }

  lemma PickIs(t: Tree, r: Request, k: int)
    requires -1 <= k < |t.kids| && (k >= 0 ==> Takes(t, r, k))
    requires forall j | 0 <= j < (if k < 0 then |t.kids| else k) :: !Takes(t, r, j)
    ensures Pick(t, r) == k
  {
  }

  lemma SamePick(t: Tree, u: Tree, r: Request)
    requires |u.kids| == |t.kids| && forall j | 0 <= j < |t.kids| :: Takes(u, r, j) <==> Takes(t, r, j)
    ensures Pick(u, r) == Pick(t, r)
  {
    var k := Pick(t, r);
    forall j | 0 <= j < (if k < 0 then |t.kids| else k) ensures !Takes(u, r, j) {
      assert !Takes(t, r, j);
    }
    PickIs(u, r, k);
  }

  /** The complaints of every variant, collected before a request counts as unhandled. */
  function Refusals(kids: seq<Tree>, r: Request): seq<Err> {
    if kids == [] then []
    else
      var last := kids[|kids| - 1].spec;
      Refusals(kids[..|kids| - 1], r) + Verify(last.path, last.constraints, r)
  }

  // ---------- one request ----------

  datatype Handled = Handled(kids: seq<Tree>, pos: nat, answer: Answer)

  datatype Executed = Executed(tree: Tree, answer: Answer)

  function Execute(t: Tree, r: Request): Executed
    decreases t, 1
  {
    var failed := Verify(t.spec.path, t.spec.constraints, r);
    if t.spec.strategy.Absent? then
      Executed(t.(calls := t.calls + 1), Answer(None, failed))
    else
      var h := Handle(t, r);
      Executed(Node(t.spec, t.calls + 1, h.pos, h.kids), Answer(h.answer.reply, failed + h.answer.errors))
  }

  function ExecuteWithoutVerifying(t: Tree, r: Request): Executed
    decreases t, 1
  {
    if t.spec.strategy.Absent? then
      Executed(t.(calls := t.calls + 1), Answer(None, [StrategyUndefined]))
    else
      var h := Handle(t, r);
      Executed(Node(t.spec, t.calls + 1, h.pos, h.kids), h.answer)
  }

  function Handle(t: Tree, r: Request): Handled
    decreases t, 0
  {
    var strategy, i := t.spec.strategy, Pick(t, r);
    if strategy.Absent? then Handled(t.kids, t.pos, Answer(None, []))
    else if strategy.Fixed? then Handled(t.kids, t.pos, strategy.answer(r))
    else if i < 0 then
      var refusals := if strategy.BasedOnRequest? then Refusals(t.kids, r) else [];
      Handled(t.kids, t.pos, Answer(None, refusals + [Unhandled]))
    else
      var child := if strategy.BasedOnRequest? then ExecuteWithoutVerifying(t.kids[i], r) else Execute(t.kids[i], r);
      Handled(t.kids[i := child.tree], if strategy.Sequence? then t.pos + 1 else t.pos, child.answer)
  }

  // ---------- reset and end ----------

  function Reset(t: Tree): Tree {
    Node(t.spec, 0, 0, seq(|t.kids|, i requires 0 <= i < |t.kids| => Reset(t.kids[i])))
  }

  predicate Mismatched(t: Tree) {
    t.spec.limit != NO_LIMIT && t.calls != t.spec.limit
  }

  function OwnMismatch(t: Tree): seq<Err> {
    if Mismatched(t) then [CallsMismatch(t.spec.path, t.spec.limit, t.calls)] else []
  }

  /** The mismatches of the children, then the node's own. */
  function End(t: Tree): seq<Err>
    decreases t, 1
  {
    EndAll(t.kids) + OwnMismatch(t)
  }

  function EndAll(kids: seq<Tree>): seq<Err>
    decreases kids, 0
  {
    if kids == [] then [] else EndAll(kids[..|kids| - 1]) + End(kids[|kids| - 1])
  }

  // ---------- runs ----------

  function Run(t: Tree, rs: seq<Request>): Tree {
    if rs == [] then t else Execute(Run(t, rs[..|rs| - 1]), rs[|rs| - 1]).tree
  }

  /** The errors logged while serving the requests in order. */
  function Log(t: Tree, rs: seq<Request>): seq<Err> {
    if rs == [] then []
    else Log(t, rs[..|rs| - 1]) + Execute(Run(t, rs[..|rs| - 1]), rs[|rs| - 1]).answer.errors
  }
}
