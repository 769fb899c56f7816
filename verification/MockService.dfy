/** The mock as objects: definitions with call counters, service mocks with an error log, and the set-up that
    runs before each test.  Every method is tied to the tree functions of MockTree. */
module MockService {
  import opened Wrappers
  import opened MockTree

  // ---------- requests whose body is a stream ----------

  /** `body` is what is still unread. */
  class HttpRequest {
    const head: Head
    var body: Option<string>

    constructor (head: Head, body: Option<string>)
      ensures this.head == head && this.body == body
    {
      this.head, this.body := head, body;
    }

    ghost function View(): Request
      reads this
    {
      Request(head, body)
    }

    /** Reading drains the stream, or fails and will fail again. */
    method ReadAll() returns (data: Option<string>)
      modifies this
      ensures data == old(body) && body == (if old(body).Some? then Some("") else None)
    {
      data := body;
      if body.Some? {
        body := Some("");
      }
    }
  }

  /** A constraint that needs the body reads it all and puts it back; a failing read is its complaint. */
  method VerifyOne(c: Constraint, r: HttpRequest) returns (texts: seq<string>)
    modifies r
    ensures r.body == old(r.body) && texts == Complaints(c, old(r.View()))
  {
    match c
    case OnHead(check) => texts := check(r.head);
    case OnBody(check) =>
      var data := r.ReadAll();
      if data.None? {
        return [READ_FAILED];
      }
      r.body := data;
      texts := check(r.head, data.value);
  }

  /** Every constraint sees the whole original body, and so does whoever comes next. */
  method VerifyRequestConstraints(endpoint: string, cs: seq<Constraint>, r: HttpRequest) returns (errs: seq<Err>)
    modifies r
    ensures r.body == old(r.body) && errs == Verify(endpoint, cs, old(r.View()))
  {
    errs := [];
    if |cs| > 0 {
      var dump := r.ReadAll();
      r.body := dump;
      for i := 0 to |cs|
        invariant r.body == old(r.body) && errs == Verify(endpoint, cs[..i], old(r.View()))
      {
        var texts := VerifyOne(cs[i], r);
        errs := errs + Label(endpoint, texts);
        assert cs[..i + 1][..i] == cs[..i];
      }
      assert cs[..|cs|] == cs;
    }
  }

  // ---------- definitions ----------

  class Definition {
    const spec: Spec
    const kids: seq<Definition>
    ghost const repr: set<Definition>
    ghost const height: nat
    var calls: nat
    var pos: nat

    /** The definitions form a tree, which never changes. */
    ghost predicate Valid()
      decreases height
    {
      && this in repr
      && (forall i | 0 <= i < |kids| ::
            kids[i].height < height && kids[i].repr <= repr && this !in kids[i].repr && kids[i].Valid())
      && (forall i, j | 0 <= i < j < |kids| :: kids[i].repr !! kids[j].repr)
    }

    /** The tree with its present counters. */
    ghost function State(): Tree
      requires Valid()
      reads repr
      decreases height
    {
      Node(spec, calls, pos, seq(|kids|, i requires 0 <= i < |kids| reads repr => kids[i].State()))
    }

    /** The tree with all counters at zero; it reads nothing that can change. */
    ghost function Blank(): Tree
      requires Valid()
      decreases height
    {
      Node(spec, 0, 0, seq(|kids|, i requires 0 <= i < |kids| => kids[i].Blank()))
    }

    lemma {:induction false} ResetIsBlank()
      requires Valid()
      ensures Reset(State()) == Blank()
      decreases height
    {
      forall i | 0 <= i < |kids| ensures Reset(kids[i].State()) == kids[i].Blank() {
        kids[i].ResetIsBlank();
      }
    }

    lemma {:induction false} BlankIsReset()
      requires Valid()
      ensures Reset(Blank()) == Blank()
      decreases height
    {
      forall i | 0 <= i < |kids| ensures Reset(kids[i].Blank()) == kids[i].Blank() {
        kids[i].BlankIsReset();
      }
    }

    constructor (spec: Spec, kids: seq<Definition>)
      requires forall i | 0 <= i < |kids| :: kids[i].Valid()
      requires forall i, j | 0 <= i < j < |kids| :: kids[i].repr !! kids[j].repr
      ensures Valid() && this.spec == spec && this.kids == kids && repr == {this} + Descendants(kids)
      ensures State() == Node(spec, 0, 0, seq(|kids|, i requires 0 <= i < |kids| reads repr => kids[i].State()))
    {
      this.spec, this.kids := spec, kids;
      calls, pos := 0, 0;
      repr := {this} + Descendants(kids);
      height := Above(kids);
      new;
    }

    // ---------- serving a request ----------

    method Execute(r: HttpRequest) returns (answer: Answer)
      requires Valid()
      modifies repr, r
      ensures Executed(State(), answer) == MockTree.Execute(old(State()), old(r.View()))
      decreases height, 1
    {
      hide Verify, Pick, Refusals, Handle;
      ghost var t, view := State(), r.View();
      calls := calls + 1;
      assert State() == t.(calls := t.calls + 1);
      HandleIgnoresCalls(t, t.calls + 1, view);
      var failed := VerifyRequestConstraints(spec.path, spec.constraints, r);
      answer := Answer(None, []);
      if !spec.strategy.Absent? {
        answer := HandleRequest(r);
      }
      answer := Answer(answer.reply, failed + answer.errors);
    }

    method ExecuteWithoutVerifying(r: HttpRequest) returns (answer: Answer)
      requires Valid()
      modifies repr, r
      ensures Executed(State(), answer) == MockTree.ExecuteWithoutVerifying(old(State()), old(r.View()))
      decreases height, 1
    {
      hide Verify, Pick, Refusals, Handle;
      ghost var t, view := State(), r.View();
      calls := calls + 1;
      assert State() == t.(calls := t.calls + 1);
      HandleIgnoresCalls(t, t.calls + 1, view);
      if !spec.strategy.Absent? {
        answer := HandleRequest(r);
      } else {
        answer := Answer(None, [StrategyUndefined]);
      }
    }

    /** The strategies of reply_strategy.go; a fixed reply may drain the body, since nobody reads it afterwards. */
    method HandleRequest(r: HttpRequest) returns (answer: Answer)
      requires Valid() && !spec.strategy.Absent?
      modifies repr, r
      ensures var h := Handle(old(State()), old(r.View()));
              State() == Node(spec, old(calls), h.pos, h.kids) && answer == h.answer
      decreases height, 0
    {
      match spec.strategy
      case Absent => assert false;
      case Fixed(reply) =>
        var data := r.ReadAll();
        answer := reply(Request(r.head, data));
      case UriVary(_, _) => answer := HandleUriVary(r);
      case MethodVary(_) => answer := HandleMethodVary(r);
      case Sequence => answer := HandleSequence(r);
      case BasedOnRequest => answer := HandleBasedOnRequest(r);
    }

    method HandleUriVary(r: HttpRequest) returns (answer: Answer)
      requires Valid() && spec.strategy.UriVary?
      modifies repr, r
      ensures var h := Handle(old(State()), old(r.View()));
              State() == Node(spec, old(calls), h.pos, h.kids) && answer == h.answer
      decreases height, 0, 0
    {
      var basePath, uris := spec.strategy.basePath, spec.strategy.uris;
      ghost var t, view := State(), r.View();
      for i := 0 to |kids|
        invariant State() == t && r.View() == view
        invariant forall j | 0 <= j < i :: !Takes(t, view, j)
      {
        if i < |uris| && FullUri(basePath, uris[i]) == r.head.path {
          PickIs(t, view, i);
          answer := kids[i].Execute(r);
          return;
        }
      }
      PickIs(t, view, -1);
      answer := Answer(None, [Unhandled]);
    }

    method HandleMethodVary(r: HttpRequest) returns (answer: Answer)
      requires Valid() && spec.strategy.MethodVary?
      modifies repr, r
      ensures var h := Handle(old(State()), old(r.View()));
              State() == Node(spec, old(calls), h.pos, h.kids) && answer == h.answer
      decreases height, 0, 0
    {
      var methods := spec.strategy.methods;
      ghost var t, view := State(), r.View();
      for i := 0 to |kids|
        invariant State() == t && r.View() == view
        invariant forall j | 0 <= j < i :: !Takes(t, view, j)
      {
        if i < |methods| && Lower(methods[i]) == Lower(r.head.verb) {
          PickIs(t, view, i);
          answer := kids[i].Execute(r);
          return;
        }
      }
      PickIs(t, view, -1);
      answer := Answer(None, [Unhandled]);
    }

    /** Tries the variants in order; each sees the whole body, and the body is whole afterwards. */
    method ChooseVariant(r: HttpRequest) returns (k: int, errors: seq<Err>)
      requires Valid() && spec.strategy.BasedOnRequest?
      modifies r
      ensures r.body == old(r.body) && State() == old(State())
      ensures k == Pick(State(), r.View()) && (k < 0 ==> errors == Refusals(State().kids, r.View()))
    {
      hide Verify;
      errors := [];
      ghost var t, view := State(), r.View();
      for i := 0 to |kids|
        invariant State() == t && r.View() == view
        invariant forall j | 0 <= j < i :: !Takes(t, view, j)
        invariant errors == Refusals(t.kids[..i], view)
      {
        var errs := VerifyRequestConstraints(kids[i].spec.path, kids[i].spec.constraints, r);
        if errs == [] {
          PickIs(t, view, i);
          return i, errors;
        }
        errors := errors + errs;
        assert t.kids[..i + 1][..i] == t.kids[..i];
      }
      PickIs(t, view, -1);
      assert t.kids[..|kids|] == t.kids;
      k := -1;
    }

    method HandleBasedOnRequest(r: HttpRequest) returns (answer: Answer)
      requires Valid() && spec.strategy.BasedOnRequest?
      modifies repr, r
      ensures var h := Handle(old(State()), old(r.View()));
              State() == Node(spec, old(calls), h.pos, h.kids) && answer == h.answer
      decreases height, 0, 0
    {
      hide Verify;
      var i, errors := ChooseVariant(r);
      if i >= 0 {
        answer := kids[i].ExecuteWithoutVerifying(r);
      } else {
        answer := Answer(None, errors + [Unhandled]);
      }
    }

    method HandleSequence(r: HttpRequest) returns (answer: Answer)
      requires Valid() && spec.strategy.Sequence?
      modifies repr, r
      ensures var h := Handle(old(State()), old(r.View()));
              State() == Node(spec, old(calls), h.pos, h.kids) && answer == h.answer
      decreases height, 0, 0
    {
      var i := pos;
      PickIs(State(), r.View(), if i < |kids| then i else -1);
      if i >= |kids| {
        return Answer(None, [Unhandled]);
      }
      pos := pos + 1;
      answer := kids[i].Execute(r);
    }

    // ---------- reset and end ----------

    method ResetRunningContext()
      requires Valid()
      modifies repr
      ensures State() == Blank()
      decreases height
    {
      pos := 0;
      for i := 0 to |kids|
        invariant pos == 0 && forall j | 0 <= j < i :: kids[j].State() == kids[j].Blank()
      {
        kids[i].ResetRunningContext();
      }
      calls := 0;
    }

    method EndRunningContext() returns (errs: seq<Err>)
      requires Valid()
      ensures errs == End(State())
      decreases height
    {
      errs := [];
      ghost var t := State();
      for i := 0 to |kids|
        invariant errs == EndAll(t.kids[..i])
      {
        var more := kids[i].EndRunningContext();
        errs := errs + more;
        assert t.kids[..i + 1][..i] == t.kids[..i];
      }
      assert t.kids[..|kids|] == t.kids;
      if spec.limit != NO_LIMIT && calls != spec.limit {
        errs := errs + [CallsMismatch(spec.path, spec.limit, calls)];
      }
    }
  }

  lemma HandleIgnoresCalls(t: Tree, calls: nat, r: Request)
    ensures Handle(t.(calls := calls), r) == Handle(t, r)
  {
    SamePick(t, t.(calls := calls), r);
  }

  ghost function Descendants(kids: seq<Definition>): set<Definition> {
    set i, d | 0 <= i < |kids| && d in kids[i].repr :: d
  }

  ghost function Above(kids: seq<Definition>): (h: nat)
    ensures forall i | 0 <= i < |kids| :: kids[i].height < h
  {
    if kids == [] then 0
    else
      var last, rest := kids[|kids| - 1].height, Above(kids[..|kids| - 1]);
      if last < rest then rest else last + 1
  }

  // ---------- service mocks ----------

  function Wrap(service: string, errs: seq<Err>): (r: seq<Err>)
    ensures |r| == |errs| && forall i | 0 <= i < |errs| :: r[i] == InService(service, errs[i])
  {
    seq(|errs|, i requires 0 <= i < |errs| => InService(service, errs[i]))
  }

  /** What a run of requests answers. */
  function Replies(t: Tree, rs: seq<Request>): seq<Option<Reply>> {
    if rs == [] then []
    else Replies(t, rs[..|rs| - 1]) + [Execute(Run(t, rs[..|rs| - 1]), rs[|rs| - 1]).answer.reply]
  }

  /** The tree, the log and the replies are those of serving the requests from t on. */
  ghost predicate AfterRun(t: Tree, rs: seq<Request>, now: Tree, logged: seq<Err>, replies: seq<Option<Reply>>) {
    now == Run(t, rs) && logged == Log(t, rs) && replies == Replies(t, rs)
  }

  lemma AfterNothing(t: Tree)
    ensures AfterRun(t, [], t, [], [])
  {
  }

  lemma AfterOneMore(t: Tree, rs: seq<Request>, r: Request, now: Tree, logged: seq<Err>, replies: seq<Option<Reply>>)
    requires AfterRun(t, rs, now, logged, replies)
    ensures var x := Execute(now, r);
            AfterRun(t, rs + [r], x.tree, logged + x.answer.errors, replies + [x.answer.reply])
  {
    assert (rs + [r])[..|rs|] == rs;
  }

  class ServiceMock {
    const name: string
    const defaultDefinition: Definition
    var mock: Definition?
    var errors: seq<Err>
    /** How many errors the array behind the log could still take. */
    var spare: nat

    constructor (name: string, mock: Definition)
      ensures this.name == name && this.mock == defaultDefinition == mock && errors == []
    {
      this.name, this.mock, this.defaultDefinition, errors, spare := name, mock, mock, [], 0;
    }

    /** One request, served under the lock. */
    method ServeHTTP(r: HttpRequest) returns (reply: Option<Reply>)
      requires mock != null ==> mock.Valid()
      modifies this`errors, this`spare, r, if mock != null then mock.repr else {}
      ensures mock == null ==> errors == old(errors) && reply == None
      ensures mock != null ==>
                var x := Execute(old(mock.State()), old(r.View()));
                mock.State() == x.tree && errors == old(errors) + x.answer.errors && reply == x.answer.reply
    {
      reply := None;
      if mock != null {
        var answer := mock.Execute(r);
        Append(answer.errors);
        reply := answer.reply;
      }
    }

    /** Appends to the log, into the spare room if it is enough and otherwise into a larger array. */
    method Append(errs: seq<Err>)
      modifies this`errors, this`spare
      ensures errors == old(errors) + errs
      ensures |errs| <= old(spare) ==> spare == old(spare) - |errs|
    {
      errors := errors + errs;
      if |errs| <= spare {
        spare := spare - |errs|;
      } else {
        spare := *;
      }
    }

    method SetDefinition(newDefinition: Definition?)
      modifies this`mock
      ensures mock == newDefinition
    {
      mock := newDefinition;
    }

    method ResetDefinition()
      modifies this`mock
      ensures mock == defaultDefinition
    {
      mock := defaultDefinition;
    }

    /** An empty log and all counters at zero. */
    ghost predicate AtStart()
      reads this, if mock != null then mock.repr else {}
    {
      mock != null && mock.Valid() && errors == [] && mock.State() == mock.Blank()
    }

    method ResetRunningContext()
      requires mock != null && mock.Valid()
      modifies this`errors, this`spare, mock.repr
      ensures AtStart()
    {
      errors, spare := [], 0;
      mock.ResetRunningContext();
    }

    /** What it has to report: the log and the mismatches, each naming the service. */
    ghost function Report(): seq<Err>
      requires mock != null && mock.Valid()
      reads this, mock.repr
    {
      Wrap(name, errors + End(mock.State()))
    }

    /** Nothing logged and no mismatch. */
    ghost predicate Quiet()
      requires mock != null && mock.Valid()
      reads this, mock.repr
    {
      errors == [] && End(mock.State()) == []
    }

    lemma QuietIff()
      requires mock != null && mock.Valid()
      ensures Report() == [] <==> Quiet()
    {
      assert |Report()| == |errors| + |End(mock.State())|;
    }

    /** The mismatches fit behind the log, so that log and result share an array. */
    ghost predicate Shared()
      requires mock != null && mock.Valid()
      reads this, mock.repr
    {
      |End(mock.State())| <= spare || End(mock.State()) == []
    }

    /** The log followed by the mismatches, each naming the service.  The wrapping is written into the array of the
        result, which is that of the log if the mismatches fit behind it. */
    method EndRunningContext() returns (errs: seq<Err>)
      requires mock != null && mock.Valid()
      modifies this`errors
      ensures errs == old(Report()) && (errs == [] <==> old(Quiet()))
      ensures errors == if old(Shared()) then Wrap(name, old(errors)) else old(errors)
    {
      var mismatches := mock.EndRunningContext();
      errs := Wrap(name, errors + mismatches);
      if |mismatches| <= spare || mismatches == [] {
        errors := errs[..|errors|];
      }
    }

    /** Ending twice without a reset in between reports the same exactly when nothing was logged or the mismatches
        did not fit behind the log; otherwise the logged errors come out wrapped twice. */
    method EndTwice() returns (first: seq<Err>, second: seq<Err>)
      requires mock != null && mock.Valid()
      modifies this`errors
      ensures first == Wrap(name, old(errors) + End(mock.State()))
      ensures second == first <==> old(errors) == [] || !old(Shared())
      ensures old(Shared()) ==> second == Wrap(name, Wrap(name, old(errors)) + End(mock.State()))
    {
      first := EndRunningContext();
      second := EndRunningContext();
      assert Wrap(name, []) == [];
      if old(errors) != [] && old(Shared()) {
        assert second[0] == InService(name, first[0]);
      }
    }

    /** The tree, the log and the replies are those of serving the requests from `start` on. */
    ghost predicate After(start: Tree, sent: seq<Request>, replies: seq<Option<Reply>>)
      reads this, if mock != null then mock.repr else {}
    {
      mock != null && mock.Valid() && AfterRun(start, sent, mock.State(), errors, replies)
    }

    /** One more request. */
    method ServeOne(r: Request, ghost start: Tree, ghost sent: seq<Request>, ghost replies: seq<Option<Reply>>)
      returns (reply: Option<Reply>)
      requires After(start, sent, replies)
      modifies this`errors, this`spare, mock.repr
      ensures After(start, sent + [r], replies + [reply])
    {
      hide AfterRun, Execute;
      var request := new HttpRequest(r.head, r.body);
      AfterOneMore(start, sent, r, mock.State(), errors, replies);
      reply := ServeHTTP(request);
    }

    /** A sequence of requests, one after another. */
    method ServeAll(rs: seq<Request>) returns (replies: seq<Option<Reply>>)
      requires AtStart()
      modifies this`errors, this`spare, mock.repr
      ensures After(old(mock.State()), rs, replies)
    {
      hide AfterRun, Execute;
      replies := [];
      ghost var t := mock.State();
      AfterNothing(t);
      assert rs[..0] == [];
      for i := 0 to |rs|
        invariant mock == old(mock) && After(t, rs[..i], replies)
      {
        assert rs[..i + 1] == rs[..i] + [rs[i]];
        var reply := ServeOne(rs[i], t, rs[..i], replies);
        replies := replies + [reply];
      }
      assert rs[..|rs|] == rs;
    }
  }
}
