/** What a full comparison reports: something exactly when it rejects, and in an unordered comparison something below
    the index of every unmatched element. */
module CompareReports {
  import opened ArrayLen
  import opened Json
  import opened Matching
  import opened Acceptance
  import opened Compare

  ghost predicate Reported(eng: Engine, p: Flags, e: Value, a: Value) {
    exists path, issue :: Reports(eng, p, e, a, path, issue)
  }

  /** Some issue is reported exactly when the value is rejected. */
  lemma {:induction false} RejectedIffReported(eng: Engine, p: Flags, e: Value, a: Value)
    requires NoPanic(eng, p, false, e, a)
    ensures Reported(eng, p, e, a) <==> !Accepts(eng, p, e, a)
    decreases Rank(e), e, 1
  {
    if Scalar(a) || !Descends(e, a) {
      LeafReported(eng, p, e, a);
    } else if a.Arr? {
      ArrayReported(eng, p, e, a);
    } else {
      ObjectReported(eng, p, e, a);
    }
  }

  lemma LeafReported(eng: Engine, p: Flags, e: Value, a: Value)
    requires Scalar(a) || !Descends(e, a)
    ensures Reported(eng, p, e, a) <==> !Accepts(eng, p, e, a)
  {
    OwnIssueHere(eng, p, e, a);
    hide Accepts, Reports, OwnIssue;
    if issue :| OwnIssue(eng, p, e, a, issue) {
      ReportsHere(eng, p, e, a, issue);
    }
    if Reported(eng, p, e, a) {
      var path: seq<Step>, issue: Issue :| Reports(eng, p, e, a, path, issue);
      NoChildren(eng, p, e, a, path, issue);
    }
  }

  lemma OwnIssueHere(eng: Engine, p: Flags, e: Value, a: Value)
    requires Scalar(a) || !Descends(e, a)
    ensures (exists issue :: OwnIssue(eng, p, e, a, issue)) <==> !Accepts(eng, p, e, a)
  {
    hide Denotes, LengthAccepts;
    var mt := LeafMatchType(e);
    var issue :=
      if mt.Length? then
        if forall lo, hi :: !Denotes(mt.spec, lo, hi) then SpecInvalid
        else if !a.Arr? then NotAnArray else LengthOutOfBounds
      else if mt.Pure? && KindOf(e) != KindOf(a) then TypesDiffer
      else if mt.Pure? then ValuesDiffer
      else if !eng.compiles(mt.pattern) then RegexInvalid else RegexMismatch;
    LengthNeedsRange(e, a);
    assert !Accepts(eng, p, e, a) ==> OwnIssue(eng, p, e, a, issue);
  }

  lemma LengthNeedsRange(e: Value, a: Value)
    ensures var mt := LeafMatchType(e);
            mt.Length? && LengthAccepts(mt.spec, a) ==> a.Arr? && exists lo, hi :: Denotes(mt.spec, lo, hi)
  {
    hide Denotes;
  }

  /** What is reported below an index is what the pair compared there reports. */
  lemma ReportedAt(eng: Engine, p: Flags, e: Value, a: Value, i: nat)
    requires a.Arr? && Descends(e, a) && |Elems(e)| == |a.items|
    requires var (l, r) := Remaining(eng, p, e, a.items);
             i < |l| == |r| && forall i | 0 <= i < |l| :: 0 <= l[i] < |a.items| && 0 <= r[i] < |a.items|
    ensures var (l, r) := Remaining(eng, p, e, a.items);
            forall path, issue ::
              Reports(eng, p, e, a, [At(i)] + path, issue) <==>
              Reports(eng, p, Elems(e)[l[i]], a.items[r[i]], path, issue)
  {
    hide Remaining, LeafMatchType, Elems, OwnIssue;
    var l, r := Remaining(eng, p, e, a.items).0, Remaining(eng, p, e, a.items).1;
    forall path: seq<Step>, issue
      ensures Reports(eng, p, e, a, [At(i)] + path, issue) <==>
              Reports(eng, p, Elems(e)[l[i]], a.items[r[i]], path, issue)
    {
      var q := [At(i)] + path;
      assert q[0] == At(i) && q[1..] == path;
    }
  }

  /** Something is reported below the i-th index. */
  ghost predicate ReportedBelow(eng: Engine, p: Flags, e: Value, a: Value, i: int) {
    exists path, issue :: Reports(eng, p, e, a, [At(i)] + path, issue)
  }

  lemma NothingBelow(eng: Engine, p: Flags, e: Value, a: Value, i: int)
    requires a.Arr? && Descends(e, a) && |Elems(e)| == |a.items| && ReportedBelow(eng, p, e, a, i)
    ensures var (l, r) := Remaining(eng, p, e, a.items); 0 <= i < |l|
  {
    hide Remaining, LeafMatchType, Elems, OwnIssue;
    var path: seq<Step>, issue: Issue :| Reports(eng, p, e, a, [At(i)] + path, issue);
    var q := [At(i)] + path;
    assert q[0] == At(i);
  }

  lemma RemainingIsSafe(eng: Engine, p: Flags, e: Value, items: seq<Value>, i: nat)
    requires |Elems(e)| == |items| && Descends(e, Arr(items)) && NoPanic(eng, p, false, e, Arr(items))
    requires var (l, r) := Remaining(eng, p, e, items);
             i < |l| && i < |r| && 0 <= l[i] < |items| && 0 <= r[i] < |items|
    ensures var (l, r) := Remaining(eng, p, e, items);
            NoPanic(eng, p, false, Elems(e)[l[i]], items[r[i]])
  {
    var (l, r) := Remaining(eng, p, e, items);
    if p.unordered {
      hide Remaining, NoPanic;
      RemainingSafe(eng, p, e, items, l, r);
    } else {
      OrderedSafe(eng, p, false, e, items);
      hide NoPanic;
      assert l[i] == i == r[i] && Reached(eng, p, false, Elems(e), items, i);
    }
  }

  /** Below the i-th index something is reported exactly if there is such a pair and it disagrees. */
  lemma {:induction false} ChildReported(eng: Engine, p: Flags, e: Value, a: Value, i: int)
    requires a.Arr? && Descends(e, a) && |Elems(e)| == |a.items| && NoPanic(eng, p, false, e, a)
    ensures var (l, r) := Remaining(eng, p, e, a.items);
            && |l| == |r| && (forall i | 0 <= i < |l| :: 0 <= l[i] < |a.items| && 0 <= r[i] < |a.items|)
            && (ReportedBelow(eng, p, e, a, i) <==>
                0 <= i < |l| && !Accepts(eng, p, Elems(e)[l[i]], a.items[r[i]]))
    decreases Rank(e), e, 0, 0
  {
    RemainingInRange(eng, p, e, a.items);
    var (l, r) := Remaining(eng, p, e, a.items);
    if 0 <= i < |l| {
      var x, y := Elems(e)[l[i]], a.items[r[i]];
      RemainingIsSafe(eng, p, e, a.items, i);
      RejectedIffReported(eng, p, x, y);
      hide Remaining, NoPanic, Accepts, Reports, Descends, Elems;
      ReportedAt(eng, p, e, a, i);
      if Reported(eng, p, x, y) {
        var path: seq<Step>, issue: Issue :| Reports(eng, p, x, y, path, issue);
        assert Reports(eng, p, e, a, [At(i)] + path, issue);
      }
      if ReportedBelow(eng, p, e, a, i) {
        var path: seq<Step>, issue: Issue :| Reports(eng, p, e, a, [At(i)] + path, issue);
        assert Reports(eng, p, x, y, path, issue);
      }
    } else if ReportedBelow(eng, p, e, a, i) {
      NothingBelow(eng, p, e, a, i);
    }
  }

  lemma ReportedSomewhere(eng: Engine, p: Flags, e: Value, a: Value)
    requires a.Arr? && Descends(e, a) && |Elems(e)| == |a.items|
    ensures Reported(eng, p, e, a) <==> exists i :: ReportedBelow(eng, p, e, a, i)
  {
    NoOwnArrayIssue(eng, p, e, a);
    hide OwnIssue, Remaining, LeafMatchType, Elems;
    if Reported(eng, p, e, a) {
      var path: seq<Step>, issue: Issue :| Reports(eng, p, e, a, path, issue);
      assert path != [] && path[0].At?;
      assert path == [At(path[0].i)] + path[1..];
      assert ReportedBelow(eng, p, e, a, path[0].i);
    }
    if i :| ReportedBelow(eng, p, e, a, i) {
      var path: seq<Step>, issue: Issue :| Reports(eng, p, e, a, [At(i)] + path, issue);
    }
  }

  lemma {:induction false} ArrayReported(eng: Engine, p: Flags, e: Value, a: Value)
    requires a.Arr? && Descends(e, a) && NoPanic(eng, p, false, e, a)
    ensures Reported(eng, p, e, a) <==> !Accepts(eng, p, e, a)
    decreases Rank(e), e, 0, 1
  {
    if |Elems(e)| != |a.items| {
      assert OwnIssue(eng, p, e, a, ArrayLengthsDiffer);
      ReportsHere(eng, p, e, a, ArrayLengthsDiffer);
    } else {
      hide Reports, NoPanic, Remaining, Accepts, ReportedBelow, Descends, Elems;
      ReportedSomewhere(eng, p, e, a);
      forall i ensures ReportedBelow(eng, p, e, a, i) <==> Disagrees(eng, p, e, a, i) {
        ChildReported(eng, p, e, a, i);
      }
      DisagreesIff(eng, p, e, a);
    }
  }

  /** There is an i-th pair to compare and it disagrees. */
  ghost predicate Disagrees(eng: Engine, p: Flags, e: Value, a: Value, i: int)
    requires a.Arr? && !LeafMatchType(e).Length? && |Elems(e)| == |a.items|
  {
    var (l, r) := Remaining(eng, p, e, a.items);
    && 0 <= i < |l| && i < |r| && 0 <= l[i] < |a.items| && 0 <= r[i] < |a.items|
    && !Accepts(eng, p, Elems(e)[l[i]], a.items[r[i]])
  }

  lemma DisagreesIff(eng: Engine, p: Flags, e: Value, a: Value)
    requires a.Arr? && Descends(e, a) && |Elems(e)| == |a.items|
    ensures (exists i :: Disagrees(eng, p, e, a, i)) <==> !Accepts(eng, p, e, a)
  {
    var (l, r) := Remaining(eng, p, e, a.items);
    RemainingInRange(eng, p, e, a.items);
    if p.unordered {
      UnorderedVerdict(eng, p, e, a.items);
      hide Accepts, Greedy, Verdicts;
      if l != [] {
        assert Disagrees(eng, p, e, a, 0);
      }
    } else {
      OrderedVerdict(eng, p, e, a.items);
      hide Accepts, Greedy, Verdicts;
      if !AllAccepted(eng, p, Elems(e), a.items) {
        var i :| 0 <= i < |a.items| && !Accepts(eng, p, Elems(e)[i], a.items[i]);
        assert Disagrees(eng, p, e, a, i);
      }
    }
  }

  /** In an unordered comparison there are errors below exactly the indices of the unmatched elements. */
  lemma UnmatchedAreReported(eng: Engine, p: Flags, e: Value, a: Value, i: int)
    requires p.unordered && a.Arr? && Descends(e, a) && |Elems(e)| == |a.items| && NoPanic(eng, p, false, e, a)
    ensures ReportedBelow(eng, p, e, a, i) <==>
            0 <= i < |Greedy(Verdicts(eng, p, e, a.items), 0, Indices(|a.items|)).left|
  {
    ChildReported(eng, p, e, a, i);
    RemainingInRange(eng, p, e, a.items);
    hide Accepts, Greedy, Verdicts, NoPanic, ReportedBelow;
  }

  lemma {:induction false} ObjectReported(eng: Engine, p: Flags, e: Value, a: Value)
    requires a.Obj? && Descends(e, a) && NoPanic(eng, p, false, e, a)
    ensures Reported(eng, p, e, a) <==> !Accepts(eng, p, e, a)
    decreases Rank(e), e, 0, 0
  {
    if p.disallowExtra && Size(e) != |a.fields| {
      assert OwnIssue(eng, p, e, a, MapLengthsDiffer);
      ReportsHere(eng, p, e, a, MapLengthsDiffer);
      assert !Accepts(eng, p, e, a);
    } else {
      forall k | k in e.fields && k in a.fields
        ensures Reported(eng, p, e.fields[k], a.fields[k]) <==> !Accepts(eng, p, e.fields[k], a.fields[k])
      {
        RejectedIffReported(eng, p, e.fields[k], a.fields[k]);
      }
      FieldsReported(eng, p, e, a);
    }
  }

  lemma FieldsReported(eng: Engine, p: Flags, e: Value, a: Value)
    requires e.Obj? && a.Obj? && !(p.disallowExtra && Size(e) != |a.fields|)
    ensures Reported(eng, p, e, a) <==>
            exists k | k in e.fields :: k in a.fields ==> Reported(eng, p, e.fields[k], a.fields[k])
  {
    if Reported(eng, p, e, a) {
      var path: seq<Step>, issue: Issue :| Reports(eng, p, e, a, path, issue);
      var k := if path == [] then issue.key else path[0].k;
      if path != [] {
        assert Reports(eng, p, e.fields[k], a.fields[k], path[1..], issue);
      }
      assert k in e.fields && (k in a.fields ==> Reported(eng, p, e.fields[k], a.fields[k]));
    }
    if k :| k in e.fields && (k in a.fields ==> Reported(eng, p, e.fields[k], a.fields[k])) {
      if k in a.fields {
        var path: seq<Step>, issue: Issue :| Reports(eng, p, e.fields[k], a.fields[k], path, issue);
        var q := [Field(k)] + path;
        assert q[0] == Field(k) && q[1..] == path;
        assert Reports(eng, p, e, a, q, issue);
      } else {
        assert Reports(eng, p, e, a, [], KeyMissing(k));
      }
    }
  }
}
