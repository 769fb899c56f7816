/** All service mocks together, and the set-up the runner performs before each test. */
module MockSetup {
  import opened Wrappers
  import opened MockTree
  import opened MockService
  import opened MockTheorems
  import opened MockAnswers

  // ---------- results of several services ----------

  /** The names of the set, each once. */
  ghost predicate Lists(order: seq<string>, names: set<string>) {
    (forall n :: n in order <==> n in names) && forall i, j | 0 <= i < j < |order| :: order[i] != order[j]
  }

  /** The parts named by the list, one after another. */
  ghost function Gathered(order: seq<string>, parts: map<string, seq<Err>>): seq<Err> {
    if order == [] then []
    else
      var k := |order| - 1;
      Gathered(order[..k], parts) + if order[k] in parts then parts[order[k]] else []
  }

  lemma GatheredSnoc(order: seq<string>, n: string, parts: map<string, seq<Err>>)
    requires n in parts
    ensures Gathered(order + [n], parts) == Gathered(order, parts) + parts[n]
  {
    assert (order + [n])[..|order|] == order;
  }

  lemma ListsNothing(names: set<string>)
    ensures Lists([], names - names)
  {
  }

  lemma ListsSnoc(order: seq<string>, names: set<string>, todo: set<string>, n: string)
    requires Lists(order, names - todo) && n in todo && n in names
    ensures Lists(order + [n], names - (todo - {n}))
  {
    forall i | 0 <= i < |order| ensures order[i] != n {
      assert order[i] in order;
    }
  }

  lemma {:induction false} GatheredEmpty(order: seq<string>, parts: map<string, seq<Err>>)
    ensures Gathered(order, parts) == [] <==> forall n | n in order && n in parts :: parts[n] == []
  {
    if order != [] {
      var k := |order| - 1;
      GatheredEmpty(order[..k], parts);
      assert order == order[..k] + [order[k]];
    }
  }

  lemma GatheredNothing(order: seq<string>, names: set<string>, parts: map<string, seq<Err>>)
    requires Lists(order, names) && parts.Keys == names
    ensures Gathered(order, parts) == [] <==> forall n | n in parts :: parts[n] == []
  {
    GatheredEmpty(order, parts);
  }

  /** The requests sent to one service, in order. */
  function SentTo(rs: seq<(string, Request)>, n: string): seq<Request> {
    if rs == [] then []
    else
      var k := |rs| - 1;
      SentTo(rs[..k], n) + if rs[k].0 == n then [rs[k].1] else []
  }

  /** The replies of one service, in order. */
  function RepliesOf(rs: seq<(string, Request)>, replies: seq<Option<Reply>>, n: string): seq<Option<Reply>>
    requires |replies| == |rs|
  {
    if rs == [] then []
    else
      var k := |rs| - 1;
      RepliesOf(rs[..k], replies[..k], n) + if rs[k].0 == n then [replies[k]] else []
  }

  lemma SentSnoc(rs: seq<(string, Request)>, replies: seq<Option<Reply>>, r: (string, Request), a: Option<Reply>,
                 n: string)
    requires |replies| == |rs|
    ensures SentTo(rs + [r], n) == if r.0 == n then SentTo(rs, n) + [r.1] else SentTo(rs, n)
    ensures RepliesOf(rs + [r], replies + [a], n) ==
            if r.0 == n then RepliesOf(rs, replies, n) + [a] else RepliesOf(rs, replies, n)
  {
    assert (rs + [r])[..|rs|] == rs && (replies + [a])[..|rs|] == replies;
  }

  lemma {:induction false} SentBefore(rs: seq<(string, Request)>, replies: seq<Option<Reply>>, n: string, i: nat)
    requires |replies| == |rs| && i <= |rs|
    ensures SentTo(rs[..i], n) <= SentTo(rs, n) && RepliesOf(rs[..i], replies[..i], n) <= RepliesOf(rs, replies, n)
    ensures |SentTo(rs[..i], n)| == |RepliesOf(rs[..i], replies[..i], n)|
    decreases |rs|
  {
    var k := |rs| - 1;
    if i == |rs| {
      assert rs[..i] == rs && replies[..i] == replies;
      if i > 0 {
        SentBefore(rs[..k], replies[..k], n, k);
        assert rs[..k][..k] == rs[..k] && replies[..k][..k] == replies[..k];
      }
    } else {
      SentBefore(rs[..k], replies[..k], n, i);
      assert rs[..k][..i] == rs[..i] && replies[..k][..i] == replies[..i];
    }
  }

  /** The i-th request is answered by the node it ends at, in its service's tree after the requests that service got
      before. */
  ghost function AnswerTo(start: map<string, Tree>, rs: seq<(string, Request)>, i: nat): Option<Reply>
    requires i < |rs| && rs[i].0 in start
  {
    var (n, r) := rs[i];
    OwnReply(LeafFor(Run(start[n], SentTo(rs[..i], n)), r), r)
  }

  lemma AnswersAre(start: map<string, Tree>, rs: seq<(string, Request)>, replies: seq<Option<Reply>>, i: nat)
    requires |replies| == |rs| && i < |rs| && rs[i].0 in start
    requires RepliesOf(rs, replies, rs[i].0) == Replies(start[rs[i].0], SentTo(rs, rs[i].0))
    ensures replies[i] == AnswerTo(start, rs, i)
  {
    hide LeafFor, OwnReply, Run, Replies, SentTo, RepliesOf;
    var n := rs[i].0;
    Position(rs, replies, i);
    RepliesAre(start[n], SentTo(rs, n), |SentTo(rs[..i], n)|);
  }

  /** Where the i-th request stands among those of its service. */
  lemma Position(rs: seq<(string, Request)>, replies: seq<Option<Reply>>, i: nat)
    requires |replies| == |rs| && i < |rs|
    ensures var n, sent := rs[i].0, SentTo(rs, rs[i].0);
            var k := |SentTo(rs[..i], n)|;
            && k < |sent| && sent[k] == rs[i].1 && sent[..k] == SentTo(rs[..i], n)
            && k < |RepliesOf(rs, replies, n)| && RepliesOf(rs, replies, n)[k] == replies[i]
  {
    var n := rs[i].0;
    SentBefore(rs, replies, n, i + 1);
    SentBefore(rs, replies, n, i);
    SentSnoc(rs[..i], replies[..i], rs[i], replies[i], n);
    assert rs[..i + 1] == rs[..i] + [rs[i]] && replies[..i + 1] == replies[..i] + [replies[i]];
    hide SentTo, RepliesOf;
    AtEnd(SentTo(rs[..i], n), rs[i].1, SentTo(rs, n));
    AtEnd(RepliesOf(rs[..i], replies[..i], n), replies[i], RepliesOf(rs, replies, n));
  }

  lemma AtEnd<T>(s: seq<T>, x: T, all: seq<T>)
    requires s + [x] <= all
    ensures |s| < |all| && all[|s|] == x && all[..|s|] == s
  {
    assert (s + [x])[|s|] == x;
  }

  class Mocks {
    const services: map<string, ServiceMock>

    ghost function Objects(): set<ServiceMock> {
      set n | n in services :: services[n]
    }

    /** Each service is an object of its own with a default definition of its own. */
    ghost predicate Valid() {
      && (forall n | n in services :: services[n].defaultDefinition.Valid())
      && (forall n, m | n in services && m in services && n != m ::
            services[n] != services[m] && services[n].defaultDefinition.repr !! services[m].defaultDefinition.repr)
    }

    ghost function Defaults(): set<Definition> {
      set n, d | n in services && d in services[n].defaultDefinition.repr :: d
    }

    method ResetDefinitions()
      modifies Objects()`mock
      ensures forall n | n in services :: services[n].mock == services[n].defaultDefinition
    {
      var todo := services.Keys;
      while todo != {}
        invariant forall n | n in services && n !in todo :: services[n].mock == services[n].defaultDefinition
        decreases todo
      {
        var n :| n in todo;
        services[n].ResetDefinition();
        todo := todo - {n};
      }
    }

    /** The trees the services use now. */
    ghost function InUse(): set<Definition>
      reads Objects()`mock
    {
      set n, d | n in services && services[n].mock != null && d in services[n].mock.repr :: d
    }

    ghost predicate Separate()
      reads Objects()`mock
    {
      && (forall n | n in services :: services[n].mock != null && services[n].mock.Valid())
      && (forall n, m | n in services && m in services && n != m ::
            services[n] != services[m] && services[n].mock.repr !! services[m].mock.repr)
    }

    lemma Uses(n: string)
      requires Separate() && n in services
      ensures services[n] in Objects() && services[n].mock != null && services[n].mock.repr <= InUse()
    {
      hide Definition.Valid;
    }

    ghost predicate Started(names: set<string>)
      reads Objects(), InUse()
    {
      forall n | n in services && n in names :: services[n].AtStart()
    }

    method ResetOne(n: string, service: ServiceMock, ghost todo: set<string>)
      requires Separate() && n in services && service == services[n] && Started(services.Keys - todo)
      modifies service`errors, service`spare, service.mock.repr
      ensures Separate() && Started(services.Keys - (todo - {n}))
    {
      hide Definition.Valid, ServiceMock.AtStart;
      service.ResetRunningContext();
      forall m | m in services && m !in todo && m != n ensures services[m].AtStart() {
        assert services[m] != service && services[m].mock.repr !! service.mock.repr;
      }
    }

    method ResetRunningContext()
      requires Separate()
      modifies Objects()`errors, Objects()`spare, InUse()
      ensures Separate() && forall n | n in services :: services[n].AtStart()
    {
      hide Definition.Valid, ServiceMock.AtStart, Mocks.InUse, Mocks.Separate;
      var todo := services.Keys;
      while todo != {}
        invariant todo <= services.Keys && Separate() && InUse() == old(InUse()) && Started(services.Keys - todo)
        decreases todo
      {
        var n :| n in todo;
        Uses(n);
        ResetOne(n, services[n], todo);
        todo := todo - {n};
      }
    }

    /** What each service has to report: its log and its mismatches, naming the service. */
    ghost function Reports(): map<string, seq<Err>>
      requires Separate()
      reads Objects(), InUse()
    {
      map n | n in services :: services[n].Report()
    }

    lemma QuietOnes()
      requires Separate()
      ensures forall n | n in services :: Reports()[n] == [] <==> services[n].Quiet()
    {
      hide Definition.Valid, ServiceMock.Quiet, ServiceMock.Report;
      forall n | n in services ensures Reports()[n] == [] <==> services[n].Quiet() {
        services[n].QuietIff();
      }
    }

    /** These services still have the same to report. */
    ghost predicate Reporting(names: set<string>, reports: map<string, seq<Err>>)
      requires Separate() && reports.Keys == services.Keys
      reads Objects(), InUse()
    {
      forall n | n in names && n in services :: services[n].Report() == reports[n]
    }

    method EndOne(n: string, service: ServiceMock, ghost todo: set<string>, ghost reports: map<string, seq<Err>>)
      returns (errs: seq<Err>)
      requires Separate() && n in todo && n in services && service == services[n]
      requires reports.Keys == services.Keys && Reporting(todo, reports)
      modifies service`errors
      ensures Separate() && errs == reports[n] && Reporting(todo - {n}, reports)
    {
      hide Definition.Valid, ServiceMock.Quiet, ServiceMock.Shared, ServiceMock.Report;
      errs := service.EndRunningContext();
    }

    /** The reports of all services, one service after another in some order. */
    method EndRunningContext() returns (errs: seq<Err>, ghost order: seq<string>)
      requires Separate()
      modifies Objects()`errors
      ensures Lists(order, services.Keys) && errs == Gathered(order, old(Reports()))
      ensures errs == [] <==> forall n | n in services :: old(services[n].Quiet())
    {
      hide Definition.Valid, ServiceMock.Quiet, ServiceMock.Report, Lists;
      errs, order := [], [];
      var todo := services.Keys;
      ghost var reports := Reports();
      QuietOnes();
      ListsNothing(services.Keys);
      while todo != {}
        invariant todo <= services.Keys && Lists(order, services.Keys - todo)
        invariant Separate() && reports.Keys == services.Keys && Reporting(todo, reports)
        invariant errs == Gathered(order, reports)
        decreases todo
      {
        var n :| n in todo;
        GatheredSnoc(order, n, reports);
        ListsSnoc(order, services.Keys, todo, n);
        var more := EndOne(n, services[n], todo, reports);
        errs := errs + more;
        order := order + [n];
        todo := todo - {n};
      }
      assert services.Keys - todo == services.Keys;
      GatheredNothing(order, services.Keys, reports);
    }

    /** Every service named exists and every definition is well written. */
    ghost predicate Loadable(defs: map<string, Definition?>) {
      forall n | n in defs :: n in services && defs[n] != null
    }

    /** Puts this test's definitions in place; null stands for one that is not well written.  Stops at such a one and
        at a service that does not exist. */
    method Load(defs: map<string, Definition?>) returns (ok: bool)
      requires Valid()
      modifies Objects()`mock
      ensures ok <==> Loadable(defs)
      ensures forall n | n in services && n !in defs :: services[n].mock == old(services[n].mock)
      ensures ok ==> forall n | n in defs :: services[n].mock == defs[n]
    {
      var todo := defs.Keys;
      while todo != {}
        invariant todo <= defs.Keys
        invariant forall n | n in services && n !in defs :: services[n].mock == old(services[n].mock)
        invariant forall n | n in defs && n !in todo :: n in services && defs[n] != null && services[n].mock == defs[n]
        decreases todo
      {
        var n :| n in todo;
        if n !in services || defs[n] == null {
          return false;
        }
        services[n].SetDefinition(defs[n]);
        todo := todo - {n};
      }
      ok := true;
    }

    /** The definition a test sees for a service. */
    function Chosen(defs: map<string, Definition?>, n: string): Definition
      requires n in services && (n in defs ==> defs[n] != null)
    {
      if n in defs then defs[n] else services[n].defaultDefinition
    }

    /** The definitions of a test are new trees of their own. */
    ghost predicate Fresh(defs: map<string, Definition?>)
      reads New(defs)
    {
      && (forall n | n in defs && defs[n] != null ::
            defs[n].Valid() && defs[n].State() == defs[n].Blank() && defs[n].repr !! Defaults())
      && (forall n, m | n in defs && m in defs && n != m && defs[n] != null && defs[m] != null ::
            defs[n].repr !! defs[m].repr)
    }

    ghost function New(defs: map<string, Definition?>): set<Definition> {
      set n, d | n in defs && defs[n] != null && d in defs[n].repr :: d
    }

    /** Default definitions everywhere, then counters at zero. */
    method ResetAll()
      requires Valid()
      modifies Objects(), Defaults()
      ensures forall n | n in services :: services[n].AtStart() && services[n].mock == services[n].defaultDefinition
    {
      hide Definition.Valid;
      ResetDefinitions();
      assert Separate();
      forall d | d in InUse() ensures d in Defaults() {
      }
      ResetRunningContext();
    }

    /** Whatever happened before, afterwards every service has an empty log and counters at zero. */
    method SetupMocks(defs: map<string, Definition?>) returns (ok: bool)
      requires Valid() && Fresh(defs)
      modifies Objects(), Defaults()
      ensures ok <==> Loadable(defs)
      ensures ok ==> Separate() && InUse() <= Defaults() + New(defs)
      ensures ok ==> forall n | n in services :: services[n].AtStart() && services[n].mock == Chosen(defs, n)
    {
      hide Definition.Valid, Definition.State, Definition.Blank;
      ResetAll();
      ok := Load(defs);
      if ok {
        AllSetUp(defs);
      }
    }

    lemma AllSetUp(defs: map<string, Definition?>)
      requires Valid() && Fresh(defs) && Loadable(defs)
      requires forall n | n in services :: services[n].mock == Chosen(defs, n) && services[n].errors == []
      requires forall n | n in services ::
                 services[n].defaultDefinition.State() == services[n].defaultDefinition.Blank()
      ensures Separate() && InUse() <= Defaults() + New(defs)
      ensures forall n | n in services :: services[n].AtStart()
    {
      hide Definition.Valid, Definition.State, Definition.Blank;
      ChosenApart(defs);
    }

    lemma ChosenApart(defs: map<string, Definition?>)
      requires Valid() && Fresh(defs) && Loadable(defs)
      ensures forall n | n in services :: Chosen(defs, n).Valid() && Chosen(defs, n).repr <= Defaults() + New(defs)
      ensures forall n, m | n in services && m in services && n != m ::
                services[n] != services[m] && Chosen(defs, n).repr !! Chosen(defs, m).repr
    {
      hide Definition.Valid, Definition.State;
      forall n, m | n in services && m in services && n != m ensures Chosen(defs, n).repr !! Chosen(defs, m).repr {
        assert forall d | d in services[n].defaultDefinition.repr :: d in Defaults();
        assert forall d | d in services[m].defaultDefinition.repr :: d in Defaults();
      }
    }

    /** The tree, log and replies of every service are those of its own requests from its start on. */
    ghost predicate Served(start: map<string, Tree>, rs: seq<(string, Request)>, replies: seq<Option<Reply>>)
      requires Separate() && |replies| == |rs| && services.Keys <= start.Keys
      reads Objects(), InUse()
    {
      forall n | n in services :: services[n].After(start[n], SentTo(rs, n), RepliesOf(rs, replies, n))
    }

    /** Requests to any services, one after another. */
    method Serve(ghost start: map<string, Tree>, rs: seq<(string, Request)>) returns (replies: seq<Option<Reply>>)
      requires Separate() && services.Keys <= start.Keys && forall i | 0 <= i < |rs| :: rs[i].0 in services
      requires Served(start, [], [])
      modifies Objects()`errors, Objects()`spare, InUse()
      ensures Separate() && |replies| == |rs| && Served(start, rs, replies)
    {
      hide Definition.Valid, ServiceMock.After, Mocks.Served, Mocks.Separate, Mocks.InUse;
      replies := [];
      assert rs[..0] == [];
      for i := 0 to |rs|
        invariant Separate() && InUse() == old(InUse()) && |replies| == i && Served(start, rs[..i], replies)
      {
        Uses(rs[i].0);
        replies := ServeNext(services[rs[i].0], start, rs[..i], rs[i], replies);
        assert rs[..i + 1] == rs[..i] + [rs[i]];
      }
      assert rs[..|rs|] == rs;
    }

    method ServeNext(service: ServiceMock, ghost start: map<string, Tree>, ghost before: seq<(string, Request)>,
                     r: (string, Request), replies: seq<Option<Reply>>) returns (more: seq<Option<Reply>>)
      requires Separate() && services.Keys <= start.Keys && r.0 in services && service == services[r.0]
      requires |replies| == |before| && Served(start, before, replies)
      modifies service`errors, service`spare, service.mock.repr
      ensures Separate() && |more| == |before| + 1 && Served(start, before + [r], more)
    {
      hide Definition.Valid, ServiceMock.After;
      var reply := service.ServeOne(r.1, start[r.0], SentTo(before, r.0), RepliesOf(before, replies, r.0));
      more := replies + [reply];
      forall n | n in services
        ensures services[n].After(start[n], SentTo(before + [r], n), RepliesOf(before + [r], more, n))
      {
        SentSnoc(before, replies, r, reply, n);
        if n != r.0 {
          assert services[n] != service && services[n].mock.repr !! service.mock.repr;
        }
      }
    }

    /** The trees of a test as written. */
    ghost function Starts(defs: map<string, Definition?>): map<string, Tree>
      requires Valid() && Loadable(defs) && forall n | n in defs :: defs[n].Valid()
    {
      map n | n in services :: Chosen(defs, n).Blank()
    }

    /** One test against all services: every service's replies, and the verdict, are functions of the definitions as
        written and of the requests, whatever state earlier tests left behind. */
    method RunTest(defs: map<string, Definition?>, rs: seq<(string, Request)>)
      returns (ok: bool, replies: seq<Option<Reply>>, errs: seq<Err>, ghost order: seq<string>)
      requires Valid() && Fresh(defs) && forall i | 0 <= i < |rs| :: rs[i].0 in services
      modifies Objects(), Defaults(), New(defs)
      ensures ok <==> Loadable(defs)
      ensures ok ==> |replies| == |rs| && Lists(order, services.Keys)
      ensures ok ==> errs == Gathered(order, Verdicts(Starts(defs), rs))
      ensures ok ==> forall n | n in services ::
                  RepliesOf(rs, replies, n) == Replies(Starts(defs)[n], SentTo(rs, n))
      ensures ok ==> forall i | 0 <= i < |rs| :: replies[i] == AnswerTo(Starts(defs), rs, i)
    {
      hide Definition.Valid, Definition.State, Definition.Blank, ServiceMock.After, Gathered, Lists;
      replies, errs, order := [], [], [];
      ok := SetupMocks(defs);
      if ok {
        ghost var start := Starts(defs);
        NothingServed(start);
        replies := Serve(start, rs);
        ReportsAre(start, rs, replies);
        AllAnswers(start, rs, replies);
        errs, order := EndRunningContext();
      }
    }

    lemma AllAnswers(start: map<string, Tree>, rs: seq<(string, Request)>, replies: seq<Option<Reply>>)
      requires start.Keys == services.Keys && |replies| == |rs| && forall i | 0 <= i < |rs| :: rs[i].0 in services
      requires forall n | n in services :: RepliesOf(rs, replies, n) == Replies(start[n], SentTo(rs, n))
      ensures forall i | 0 <= i < |rs| :: replies[i] == AnswerTo(start, rs, i)
    {
      hide RepliesOf, SentTo, AnswerTo;
      forall i | 0 <= i < |rs| ensures replies[i] == AnswerTo(start, rs, i) {
        AnswersAre(start, rs, replies, i);
      }
    }

    lemma NothingServed(start: map<string, Tree>)
      requires Separate() && start.Keys == services.Keys
      requires forall n | n in services :: services[n].AtStart() && services[n].mock.Blank() == start[n]
      ensures Served(start, [], [])
    {
      hide Definition.Valid, Definition.State, Definition.Blank, AfterRun;
      forall n | n in services {
        AfterNothing(start[n]);
      }
    }

    lemma ReportsAre(start: map<string, Tree>, rs: seq<(string, Request)>, replies: seq<Option<Reply>>)
      requires Separate() && start.Keys == services.Keys && |replies| == |rs| && Served(start, rs, replies)
      ensures Reports() == Verdicts(start, rs)
      ensures forall n | n in services :: RepliesOf(rs, replies, n) == Replies(start[n], SentTo(rs, n))
    {
      hide Definition.Valid, Definition.State, Wrap, Log, Run, Replies, End, SentTo, RepliesOf;
    }

    ghost function Verdicts(start: map<string, Tree>, rs: seq<(string, Request)>): map<string, seq<Err>>
      requires services.Keys <= start.Keys
    {
      map n | n in services :: Verdict(services[n].name, start[n], SentTo(rs, n))
    }
  }

  /** What a service reports after serving the requests from its start on. */
  ghost function Verdict(name: string, start: Tree, rs: seq<Request>): seq<Err> {
    Wrap(name, Log(start, rs) + End(Run(start, rs)))
  }

  ghost predicate Passed(start: Tree, rs: seq<Request>) {
    CleanRun(start, rs) && CountsMet(start, rs)
  }

  /** A service reports nothing exactly when every request was clean at its turn and every constrained node of the
      definition was reached as often as it asks. */
  lemma TestPassesIff(d: Definition, name: string, rs: seq<Request>)
    requires d.Valid()
    ensures Verdict(name, d.Blank(), rs) == [] <==> Passed(d.Blank(), rs)
  {
    d.BlankIsReset();
    hide Log, End, Run, CleanRun, CountsMet;
    VerdictIsEmptyIff(d.Blank(), rs);
    var errs := Log(d.Blank(), rs) + End(Run(d.Blank(), rs));
    assert |Wrap(name, errs)| == |errs|;
  }

  /** A test has no mock errors exactly when every service passed on the requests it got, in whatever order the
      services are asked. */
  lemma WholeTestPassesIff(mocks: Mocks, defs: map<string, Definition?>, rs: seq<(string, Request)>, order: seq<string>)
    requires mocks.Valid() && mocks.Loadable(defs) && forall n | n in defs :: defs[n].Valid()
    requires Lists(order, mocks.services.Keys)
    ensures Gathered(order, mocks.Verdicts(mocks.Starts(defs), rs)) == [] <==>
            forall n | n in mocks.services :: Passed(mocks.Chosen(defs, n).Blank(), SentTo(rs, n))
  {
    hide Definition.Valid, Definition.Blank, Verdict, Passed, Lists, Gathered, SentTo;
    var start := mocks.Starts(defs);
    forall n | n in mocks.services
      ensures mocks.Verdicts(start, rs)[n] == [] <==> Passed(mocks.Chosen(defs, n).Blank(), SentTo(rs, n))
    {
      TestPassesIff(mocks.Chosen(defs, n), mocks.services[n].name, SentTo(rs, n));
    }
    GatheredNothing(order, mocks.services.Keys, mocks.Verdicts(start, rs));
  }
}
