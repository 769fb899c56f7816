# Gonkey: the parts that decide a verdict

Gonkey runs tests against HTTP and gRPC services. Whether a test passes rests on a few algorithms that need no
network: comparing what came back with what was expected, mock services that count and check the requests they get,
fixture files that inherit from each other, and variables substituted into the text of a test. This project models
those algorithms in Dafny and proves what they promise, for all inputs and for every run.

`dafny verify dfyconfig.toml` checks everything.

## How the model is laid out

Rows of the table below name the members that carry the statements. `Wrappers` holds the one `Option` all modules use.

**Comparison** (`Json`, `ArrayLen`, `ArrayLenForms`, `Matching`, `Acceptance`, `AcceptanceTheorems`, `Compare`,
`CompareReports`, `Query`). `Acceptance.Accepts` is the verdict of the code, greedy matcher and swap-removal included;
`Acceptance.Conforms` is the reading of the documentation, in which an unordered array matches when *some* one-to-one
assignment of its items does; `Acceptance.Similar` is equality up to permuting arrays at every depth. `Compare` holds
the methods as the code runs them, with loops, a buffer that is swap-removed in place, a fail-fast mode and map keys
visited in any order. `Matching` knows nothing of values: it proves once, for any relation, what a maximal one-to-one
matching achieves, and both `getUnmatchedArrays` and `Query` are shown to produce one.

**HTTP mocks** (`MockTree`, `MockTheorems`, `MockService`, `MockAnswers`, `MockOrder`, `MockSetup`). `MockTree` is a
definition tree as a value and what one request does to it; `MockService` and `MockSetup` are the objects with their
counters and logs, each method proved to do what the tree function says; `MockTheorems` proves what every run keeps,
`MockAnswers` who answers a request with what, from the definitions as written, and `MockOrder` that the order in which
a map of variants is visited shows in nothing but the order of the mismatches.

**gRPC** (`GrpcConnection`, `DescriptorCache`, `GrpcMock`, `GrpcMockHistory`). Each is a state machine whose runs are
all interleavings of any number of callers, one lock or memory step at a time; `GrpcMockHistory` tells what was
recorded from the moves of a run.

**Fixtures** (`FixtureRefs`, `FixtureGraph`, `FixtureRows`, `FixtureLoader`, `SqlLiterals`). The walk over `inherits`,
the merging of `$extend` rows, and the printing of string values. Rows are objects shared between tables and stored
references, and merging writes into a copy in place, so that leaving a stored row untouched is something to prove.

**Variables** (`Placeholders`, `Variables`, `Rereading`, `VariablesExact`). The two regular expressions on actual text,
the replacement passes, the single simultaneous substitution they amount to, and exactly which stores they amount to it
for.

### Where a promise does not hold

* Unordered comparison is *not* complete when extra fields are allowed: `[{x:1},{},{y:1}]` is rejected against itself
  (`OverlapRejectsItself`). `ExactForPlainValuesIff` gives the exact flag settings in which the verdict and the
  documentation agree on expectations without matchers: arrays are ordered, or extra fields are disallowed. With
  matchers allowed the verdict is exact in ordered mode only (`ExactIff`; the input is in `LengthMatcherIsGreedy`).
  Input by input, for any flags and matchers, it is exact wherever elements that share a conforming item conform to the
  same items (`UnambiguousExact`).
* Sequential replacement of variables is not one simultaneous substitution when a value is empty or holds a placeholder
  that is replaced again, and neither is performing twice performing once. For stores whose values have no `{{` outside
  placeholders and no plain `{` at either end, `ExactlySafe` gives the condition for both, in both directions: no value
  is empty, and every placeholder of a known name inside a value reads as that name's value. When no value has a `{`,
  emptiness alone decides (`BraceFreeExactlyNonEmpty`). For any store at all, `RereadIff` says when the text of two
  placeholders is read again.
* The documentation of `$matchArrayLen` lists unsigned numbers; the code also reads a sign, so `+3` and `-0` are lengths
  (`DenotesIff` gives all texts that are read).
* The error for a `$matchArrayLen` specification without any bound can never be returned: splitting always yields a
  part (`ArrayLen.ScanBounds`).
* `EndRunningContext` of a service mock writes its wrapped errors into the array it shares with the log, so ending twice
  without a reset in between reports the same exactly when nothing was logged or the mismatches did not fit into the
  log's array (`EndTwice`).

### What stands for the parts outside the model

The regexp engine and number formatting are the fields of `Json.Engine`; a request constraint and a reply without
children are arbitrary functions of the request (`MockTree.Constraint`, `MockTree.Strategy.Fixed`); the file system is
`FixtureGraph.World`; whether the database takes a table and which rows it gives back are parameters of `Load`;
environment variables are a map. A request body that cannot be read fails as often as it is tried.
Bytes of Go strings are chars. `strings.EqualFold` folds ASCII letters and `strings.TrimSpace` trims ASCII white space.
Variants that the code keeps in a map are a list in the model; `OrderDoesNotMatter` shows that with distinct normalised
keys its order matters for nothing but the order of mismatches. Definitions form a tree and every service has a default
definition. A `$matchRegexp` expectation that meets an object makes the code ask a string for its map keys and panic, so
the methods of `Compare` require `NoPanic`: that this happens in no comparison the code makes, whatever order it visits
map keys in. Expectations without matchers always satisfy it (`PlainNeverPanics`).

## Model

| member | source | states |
|---|---|---|
| Compare.Compare | compare/compare.go:44-46 | A full comparison returns no error iff the verdict accepts, and otherwise exactly the issues found by following paths through both values, each once and under its own path. |
| Compare.CompareBranch | compare/compare.go:48-137 | For every input and flag setting, fail-fast and full comparison return no error in exactly the same cases; fail-fast returns at most one error; a full comparison returns exactly the issues there are. |
| Compare.CompareArrays | compare/compare.go:73-97 | The array branch: length first, then the children, with the same guarantee. |
| Compare.SelectChildren | compare/compare.go:84-86 | Whatever the matcher leaves for the second comparison, all its pairs agree iff the arrays are accepted, although fail-fast leaves different leftovers; the index into the actual leftovers is always in bounds. |
| Compare.CompareEach | compare/compare.go:88-96 | Comparing children in order: no error iff every pair is accepted, every issue of every child and no other. |
| Compare.CompareObjects | compare/compare.go:99-134 | The map branch: key count first if extra fields are disallowed, then every expected key. |
| Compare.CompareFields | compare/compare.go:110-133 | In whatever order the keys are visited: one error per missing key and every issue of every common key, nothing else. |
| Compare.GetUnmatchedArrays | compare/compare.go:356-386 | The in-place swap-removal computes the greedy matching: without fail-fast the leftovers of both sides, under fail-fast one expected element and one actual item that do not match; the slice of one item is in bounds. |
| Compare.MatchNext | compare/compare.go:362-383 | One round: the element takes its first partner out of the buffer, or nothing in the buffer matches it. |
| Compare.FirstMatch | compare/compare.go:364-376 | The inner scan finds the first item still in the buffer that the element accepts, or none. |
| Compare.TakeOut | compare/compare.go:368-372 | The buffer loses exactly the item that was taken. |
| Compare.CompareLeafs | compare/compare.go:159-208 | Leaves: at most one error, none iff equal or matching; the call site can never reach the panic for an unknown kind of comparison. |
| Compare.CompareArrayLen | compare/compare.go:237-263 | No error iff the specification denotes a range, the value is an array and its length is in the range. |
| Compare.PlainNeverPanics | compare/compare.go:100-110 | Expectations without matchers keep every comparison inside the domain where the code does not panic. |
| CompareReports.RejectedIffReported | compare/compare.go:48-137 | A full comparison has something to report iff the value is rejected. |
| CompareReports.UnmatchedAreReported | compare/compare.go:84-96 | In an unordered full comparison something is reported below index i iff i is below the number of unmatched elements. |
| ArrayLen.ParseArrayLenSpec | compare/compare.go:269-332 | The parsed range is the one the specification denotes (exact form, or each side bounded at most once by good parts, lower not above upper), and an error is returned iff it denotes none. |
| ArrayLen.ScanBounds | compare/compare.go:284-325 | The loop over parts succeeds iff every part is a bound and no side is bounded twice, and finds both bounds. |
| ArrayLen.DenotesUnique | compare/compare.go:265-268 | A specification denotes at most one range, and only ranges of lengths. |
| ArrayLenForms.AtoiIff | compare/compare.go:276-297 | A text is read as a number iff it is an optional sign, any zeros and that number in decimal notation, within 64 bits. |
| ArrayLenForms.BoundIff | compare/compare.go:285-317 | A part bounds a side by n iff it is the key, "=" and n written as a number, with any white space around the three. |
| ArrayLenForms.DenotesIff | compare/compare.go:265-332 | A text allows the lengths from lo to hi iff it is `N`, `min=N`, `max=M` or both bounds in either order for that range, with any white space around numbers, keys, "=" and ",". |
| ArrayLenForms.PlainForms | compare/compare.go:265-268 | The plainest texts: `N` in decimal notation is exactly N, `min=N` from N on, `max=M` up to M, `min=N,max=M` from N to M. |
| Json.MatcherForms | compare/compare.go:34-37 | Exactly the strings `$matchRegexp(...)` with a non-empty one-line text and `$matchArrayLen(...)` without a closing parenthesis inside are matchers, with that text. |
| AcceptanceTheorems.RegexMeans | compare/compare.go:176-208 | A `$matchRegexp(t)` expectation accepts a string iff t compiles and matches it, a number by its rendering, and true, false and null as "true", "false" and "<nil>"; with values ignored, any scalar. |
| AcceptanceTheorems.RegexRejectsArrays | compare/compare.go:73-97 | It accepts no array of decoded values, since it would compare its own bytes with them. |
| AcceptanceTheorems.LengthMeans | compare/compare.go:237-263 | A `$matchArrayLen(body)` expectation accepts exactly the arrays whose length is in a range that body is a documented form for. |
| AcceptanceTheorems.AcceptedConforms | compare/compare.go:48-137 | For every input and flag setting, whatever is accepted conforms: an unordered match is a real one-to-one assignment at every depth. |
| AcceptanceTheorems.OrderedExact | compare/compare.go:48-137 | In ordered mode a value is accepted iff it conforms (types, leaves, regexps, length ranges, key inclusion or equality). |
| AcceptanceTheorems.UnorderedExact | compare/compare.go:48-137 | With order ignored and extra fields disallowed, a matcher-free expectation accepts exactly the values equal to it up to permuting arrays at every depth. |
| AcceptanceTheorems.AcceptanceIsReflexive | compare/compare.go:48-137 | In that mode every matcher-free value is accepted against itself. |
| AcceptanceTheorems.AcceptanceIsSymmetric | compare/compare.go:48-137 | In that mode acceptance does not depend on which side is expected. |
| AcceptanceTheorems.AcceptanceIsTransitive | compare/compare.go:48-137 | In that mode acceptance is transitive. |
| AcceptanceTheorems.PermutingChangesNothing | compare/compare.go:84-86 | In that mode permuting any arrays at any depth on either side leaves the verdict as it was. |
| AcceptanceTheorems.GreedySplit | compare/compare.go:356-386 | For any values: elements are paired or left over with equally many left on both sides, pairs agree, no two leftovers agree, and no assignment has more than twice as many pairs. |
| AcceptanceTheorems.UnambiguousExact | compare/compare.go:48-137 | For any flags, matchers included: if at every depth compared without order the elements that share a conforming item conform to the same items, a value is accepted iff it conforms. |
| AcceptanceTheorems.OverlapRejectsItself | compare/compare.go:362-376 | With order ignored and extra fields allowed, `[{x:1},{},{y:1}]` conforms to itself and is rejected. |
| AcceptanceTheorems.LengthMatcherIsGreedy | compare/compare.go:362-376 | With order ignored, a length matcher takes the only item the other expectation could have had. |
| AcceptanceTheorems.ExactForPlainValuesIff | compare/compare.go:84-108 | Verdict and documentation agree on all matcher-free expectations iff arrays are ordered or extra fields are disallowed. |
| AcceptanceTheorems.ExactIff | compare/compare.go:84-86 | They agree on all expectations iff arrays are ordered. |
| Matching.GreedyIsMaximal | compare/compare.go:356-386 | For any relation the greedy run ends in a maximal one-to-one matching that splits both sides, with equally many left over. |
| Matching.GreedySucceedsIff | compare/compare.go:356-386 | It leaves nothing iff its matching is perfect, and on a difunctional relation iff any perfect matching exists. |
| Matching.MaximalIsHalfOfAny | compare/compare.go:356-386 | No matching has more than twice the pairs of a maximal one. |
| Matching.MaximalIsPerfect | compare/compare.go:356-386 | On a difunctional relation a maximal matching is perfect if any perfect one exists. |
| Matching.SwapRemoveBag | compare/compare.go:368-372 | Moving the last element over a removed one takes out exactly that element. |
| Query.Query | compare/compare_query.go:8-59 | Different lengths iff that error; a `$matchRegexp(t)` whose t does not compile iff the other error; a positive verdict pairs all values one to one so that matchers match and other values are equal; a negative one leaves an expected value over although nothing left over fits; without regexps it is whether both lists hold the same values equally often; it terminates and changes neither list. |
| Query.AgreesIffFits | compare/compare_query.go:27-42 | The code pairs two values iff the expected one is a `$matchRegexp(t)` whose t matches the other, or is no matcher and equal to it. |
| Query.FindPair | compare/compare_query.go:27-50 | The nested scan returns an agreeing pair, or shows there is none, or hits a regexp that does not compile. |
| Query.Remove | compare/compare_query.go:13-17 | The removal closure is swap-removal. |
| Query.QueryExact | compare/compare_query.go:24-58 | If values that share a fitting value fit the same values, the verdict is positive iff all values can be paired one to one with values they fit. |
| Query.SortAndCompareAgrees | mocks/request_constraint.go:224-226 | Sorting both lists and comparing them decides exactly as `Query` does on lists without regexps. |
| MockService.VerifyOne | mocks/request_constraint.go:341-359 | A constraint that reads the body sees all of it and leaves it whole, so its verdict is a function of the original request; a failing read is its complaint. |
| MockService.VerifyRequestConstraints | mocks/definition.go:91-111 | Every constraint of a list sees the original request; all complaints, in order; the body is whole afterwards. |
| MockTheorems.OrderOfConstraints | mocks/definition.go:98-108 | Reordering a constraint list only reorders its errors. |
| MockService.Definition.Execute | mocks/definition.go:35-62 | Counts the call, collects every constraint's errors on the original request, then the strategy's; the new counters are those of the tree function. |
| MockService.Definition.ExecuteWithoutVerifying | mocks/definition.go:112-122 | The same without verification; a missing strategy is an error here. |
| MockService.Definition.HandleUriVary | mocks/reply_strategy.go:110-118 | The variant whose full URI is the request path executes, or the request is unhandled. |
| MockTree.SlashesDoNotMatter | mocks/reply_strategy.go:103-113 | One slash joins base path and URI, whatever slashes are written there. |
| MockAnswers.FullUriIff | mocks/reply_strategy.go:103-113 | A path is that of a variant iff it is base path and URI joined by one slash, with any slashes at the joint left out. |
| MockAnswers.LowerIff | mocks/reply_strategy.go:144-151 | Methods agree iff they are the same letter by letter up to case. |
| MockAnswers.PickIsFirst | mocks/reply_strategy.go:110-232 | A request goes to the first child written for it: by path, by method, by position, or because none of its constraints objects; and to none iff there is none. |
| MockAnswers.VerifyReports | mocks/definition.go:91-111 | Verification reports what the constraints say of the whole request under the endpoint, and nothing else. |
| MockAnswers.RefusalsReport | mocks/reply_strategy.go:219-230 | What variants refuse a request for is what their constraints say of it. |
| MockAnswers.ReplyIsLeafs | mocks/definition.go:35-62 | The reply to a request is that of the node at the end of its trail, and none if that node has no reply of its own. |
| MockAnswers.ErrorsAreTrails | mocks/definition.go:35-62 | The errors of a request are the complaints of the verified nodes down its trail, in order, then what the last node adds. |
| MockAnswers.RepliesAre | mocks/service_mock.go:61-69 | The k-th reply of a run is that of the node the k-th request ends at in the tree as it is by then. |
| MockAnswers.LogGrows | mocks/service_mock.go:61-69 | The log grows by the errors of each request's trail in the tree as it is by then. |
| MockAnswers.EndReports | mocks/definition.go:73-89 | The end reports path, constraint and count of exactly the nodes whose count is wrong. |
| MockService.Definition.HandleMethodVary | mocks/reply_strategy.go:144-151 | The variant whose method equals the request's up to case executes, or the request is unhandled. |
| MockService.Definition.HandleSequence | mocks/reply_strategy.go:196-206 | The child at the position executes and the position advances, or the request is unhandled. |
| MockService.Definition.ChooseVariant | mocks/reply_strategy.go:219-230 | The first variant whose constraints all pass on the whole body, or the collected complaints of all of them. |
| MockService.Definition.HandleBasedOnRequest | mocks/reply_strategy.go:219-232 | That variant executes without being verified again, or the request is unhandled after all complaints. |
| MockService.Definition.ResetRunningContext | mocks/definition.go:64-71 | All counters of the whole tree are zero afterwards. |
| MockService.Definition.EndRunningContext | mocks/definition.go:73-89 | The mismatches of the children, then the node's own. |
| MockService.Definition.ResetIsBlank | mocks/definition.go:64-71 | The state after a reset depends only on what never changes. |
| MockService.ServiceMock.ServeHTTP | mocks/service_mock.go:61-69 | One request under the lock: the definition's step, its errors appended to the log. |
| MockService.ServiceMock.SetDefinition | mocks/service_mock.go:71-78 | The current definition is replaced and nothing else changes. |
| MockService.ServiceMock.ResetDefinition | mocks/service_mock.go:80-84 | The default definition is current again. |
| MockService.ServiceMock.ResetRunningContext | mocks/service_mock.go:86-91 | An empty log and all counters at zero. |
| MockService.ServiceMock.EndRunningContext | mocks/service_mock.go:93-105 | The log followed by the mismatches, each naming the service; empty iff nothing was logged and no count is wrong; the log itself comes out wrapped iff the mismatches fit behind it in its array. |
| MockService.ServiceMock.EndTwice | mocks/service_mock.go:93-105 | Ending twice reports the same iff nothing was logged or the mismatches did not fit behind the log; otherwise the logged errors come out wrapped twice. |
| MockService.ServiceMock.ServeAll | mocks/service_mock.go:61-69 | Serving requests one after another yields the tree, log and replies of the run. |
| MockSetup.Mocks.Serve | mocks/service_mock.go:61-69 | Requests to any services in any mixture: each service's tree, log and replies are those of its own requests alone. |
| MockSetup.Mocks.ResetDefinitions | mocks/mocks.go:34-38 | Every service is back on its default definition. |
| MockSetup.Mocks.ResetRunningContext | mocks/mocks.go:80-84 | Every service is at its start. |
| MockSetup.Mocks.EndRunningContext | mocks/mocks.go:86-92 | The reports of all services one after another in some order, each service once; empty iff no service logged an error or has a mismatch. |
| MockSetup.Mocks.Load | mocks/loader.go:22-36 | Succeeds iff every named service exists and every definition is well written; then each has its new definition and the others are untouched. |
| MockSetup.Mocks.SetupMocks | runner/runner.go:197-208 | Whatever happened before, afterwards every service has an empty log, the definition of this test or its default, and counters at zero. |
| MockSetup.Mocks.RunTest | runner/runner.go:230-275 | No carry-over: for requests to any services, every reply is that of the node the request ends at in its service's definition as written after that service's earlier requests of this test, and the errors of all services are functions of the definitions and requests, whatever state earlier tests left. |
| MockSetup.TestPassesIff | mocks/service_mock.go:93-105 | A service reports nothing iff every request was clean at its turn and every constrained node was reached as often as it asks. |
| MockSetup.WholeTestPassesIff | mocks/mocks.go:86-92 | A test has no mock errors iff that holds of every service, in whatever order they are asked. |
| MockTheorems.StepShape | mocks/definition.go:35-62 | A request bumps the node it enters and changes at most the one child it is routed to, verified or not. |
| MockTheorems.ResetForgetsRun | mocks/definition.go:64-71 | A reset undoes any run, for trees of any depth. |
| MockTheorems.OnlyTrailAdvances | mocks/reply_strategy.go:110-232 | A request changes exactly the nodes on one root-to-leaf trail, each as if it had been sent there, and counts one call on each. |
| MockTheorems.SubtreeRun | mocks/reply_strategy.go:110-232 | Every node of a run is a run of its own over the requests that reach it. |
| MockTheorems.RoutingIsStatic | mocks/reply_strategy.go:110-151 | Except in a sequence, where a request goes does not depend on earlier requests. |
| MockOrder.OrderOfVariants | mocks/reply_strategy.go:110-151 | With distinct normalised keys a request goes to the same variant, wherever it stands in the visiting order. |
| MockOrder.ShuffledStep | mocks/reply_strategy.go:110-232 | Reordering the variants of maps at any depth changes no answer, and the trees stay equal up to that order. |
| MockOrder.OrderDoesNotMatter | mocks/reply_strategy.go:110-246 | Over whole runs it changes neither replies nor log, and only permutes the mismatches reported at the end. |
| MockTheorems.CallsAreConserved | mocks/reply_strategy.go:110-232 | A varying node's calls are the sum of its children's calls plus its unhandled requests. |
| MockTheorems.SequenceAdvances | mocks/reply_strategy.go:196-206 | The position is the smaller of calls and length; the i-th request reaches exactly the i-th child. |
| MockTheorems.ConservedEverywhere | mocks/definition.go:35-62 | Both laws hold at every node of the tree, from a reset on. |
| MockTheorems.PostOrderExact | mocks/reply_strategy.go:126-132 | The order in which ends are collected names every node exactly once. |
| MockTheorems.EndReportsMismatches | mocks/definition.go:73-89 | Ending a run reports one mismatch for each node whose count is wrong, children before parents, and nothing else. |
| MockTheorems.ErrorFreeIffClean | mocks/definition.go:35-62 | A request logs no error iff it passes the constraints on its way, is routed at every level, and gets an error-free reply. |
| MockTheorems.VerdictIsEmptyIff | mocks/service_mock.go:93-105 | Log and mismatches together are empty iff all requests were clean and all constrained counts are met. |
| GrpcConnection.StepKeepsInv | runner/grpc_transport.go:49-91 | Every step keeps mutual exclusion and, phase by phase, what is known of the connection. |
| GrpcConnection.AtMostOneConnection | runner/grpc_transport.go:49-91 | In every interleaving, connections created minus closed is 0 or 1 at every instant and, outside the write lock, 1 iff the field is set. |
| GrpcConnection.CarriedWasLive | runner/grpc_transport.go:49-76 | Every connection a call returns was live at some instant inside that call. |
| GrpcConnection.CloseCloses | runner/grpc_transport.go:79-91 | When `Close` releases the lock no connection is live and none is set. |
| GrpcConnection.ClosesAreDone | runner/grpc_transport.go:79-91 | Inside every `Close` that is done there was an instant without a connection. |
| GrpcConnection.EmptyMeansFailed | runner/grpc_transport.go:49-76 | `getConn` comes back without a connection only if its own dialling failed inside that call. |
| DescriptorCache.EntriesStay | runner/grpc_transport.go:208-226 | A cached source is never replaced. |
| DescriptorCache.OneSourcePerFile | runner/grpc_transport.go:197-229 | All successful look-ups of one file, by any callers at any times, return the same source, however many parsed it. |
| DescriptorCache.LookupsGetTheirOwn | runner/grpc_transport.go:197-229 | A look-up returns a source parsed from its own file at an earlier instant, and two look-ups return the same source iff they asked for the same file. |
| GrpcMock.StepKeepsInv | mocks/grpc/server.go:61-85 | Every step of handlers, resets and reads keeps the error list in step with the recorded requests, phase by phase. |
| GrpcMock.ErrorsMatchRequests | mocks/grpc/mock.go:49-102 | In every interleaving, outside the mutex and in every copy returned, the requests are those recorded and the errors exactly those of the recorded requests that differ from the expectation their handler had loaded, in order. |
| GrpcMock.HandlersUseRegisteredDefinitions | mocks/grpc/server.go:61-66 | What a handler holds was registered for its method at an earlier instant. |
| GrpcMock.LoggedDefinitionsWereRegistered | mocks/grpc/server.go:61-85 | So was what every recorded request was verified against. |
| GrpcMockHistory.DefinitionsAreRegistered | mocks/grpc/mock.go:49-66 | What is registered is what the moves of the run have stored and not deleted since. |
| GrpcMockHistory.HandlersBegin | mocks/grpc/server.go:55-73 | A request for a registered method is handled with the definition registered by then, and the payload that comes in is what is about to be recorded. |
| GrpcMockHistory.ReceivedWhat | mocks/grpc/server.go:61-73 | What a handler is about to record is the method of its own request, the payload of its own receive, and the definition registered when the request came in. |
| GrpcMockHistory.HandlersRecord | mocks/grpc/server.go:75-86 | A handler that received a payload and is done has appended its request inside that call. |
| GrpcMockHistory.ResetsClear | mocks/grpc/mock.go:49-60 | A `ResetDefinitions` that is done held the mutex at an instant when both lists were empty. |
| GrpcMockHistory.RecordedIsTaken | mocks/grpc/server.go:75-86 | In every interleaving, outside the mutex and in every copy returned, the requests are those of the handlers that took the mutex since the last reset, in that order, and the errors exactly those of them that differ from what was expected. |
| FixtureLoader.Load | fixtures/postgres/postgres.go:78-92 | Terminates on any graph; on success exactly the reachable files went in, each once, and every row of every table and every stored reference has in each column the value of the nearest row up its `$extend` chain; once the files are read it succeeds iff every table goes in after those before it. |
| FixtureLoader.Gather | fixtures/postgres/postgres.go:83-89 | Exactly the reachable files were opened and went in, each once, with their tables and templates in that order; it fails only if a name stands for no file, a reachable file is unsound, or a template of the file being read takes a name already stored or extends a row not stored. |
| FixtureLoader.LoadContext.LoadFile | fixtures/postgres/postgres.go:94-126 | Opens only what the file reaches, finishes all of it, skips what was opened before; every stored reference is still the same row and that row holds what it held. |
| FixtureLoader.LoadContext.LoadYml | fixtures/postgres/postgres.go:128-207 | Inherited files first, then templates, then tables, each contributed once. |
| FixtureLoader.LoadContext.LoadInherits | fixtures/mysql/mysql.go:119-124 | Every inherited file is open afterwards and nothing but reachable files was opened. |
| FixtureLoader.LoadContext.LoadTemplates | fixtures/postgres/postgres.go:148-175 | Templates are stored in order and mean their chain, and no row stored before is written to; it fails only where the next template's name is taken or its base undefined. |
| FixtureLoader.LoadContext.AddTables | fixtures/postgres/postgres.go:185-204 | Every table is appended in order with new rows; fails iff one is not an array. |
| FixtureLoader.LoadContext.LoadTables | fixtures/postgres/postgres.go:222-229 | Succeeds iff every table with rows goes in after those before it; then every row means its chain, the named rows given back are stored in order, and no reference stored before has changed. |
| FixtureLoader.LoadContext.ExtendRows | fixtures/postgres/postgres.go:266-280 | Every row is replaced in place by a row that has in each column the nearest value up its chain and its own markers; succeeds iff every base is stored. |
| FixtureLoader.LoadContext.LoadTable | fixtures/postgres/postgres.go:265-329 | Succeeds iff every base is known, the database takes the rows and no name is taken; then every row means its chain, named rows given back are stored as the very rows of the table, and no reference stored before has changed. |
| FixtureRows.ResolveReference | fixtures/postgres/postgres.go:456-471 | A new row with the columns of the stored one and none of its markers; the stored one is not written to. |
| FixtureRows.Merge | fixtures/postgres/postgres.go:276-278 | The loop writes the row's columns over those of the base, in place. |
| FixtureRows.Extended | fixtures/postgres/postgres.go:267-279 | The merged row is new and no row that existed is written to; fails iff the base is undefined. |
| FixtureGraph.InheritedComesFirst | fixtures/mysql/mysql.go:112-177 | An inherited file goes in before the file that inherits it unless it inherits back; on an acyclic graph always. |
| FixtureGraph.ReachedAreSound | fixtures/mysql/mysql.go:75-124 | After a successful load every reachable file reads, resolves its inherited names and has arrays for tables. |
| FixtureGraph.ClosedUnderReach | fixtures/postgres/postgres.go:135-140 | Files closed under `inherits` include everything their members reach. |
| FixtureGraph.Resolve | fixtures/postgres/postgres.go:95-113 | The first of the name itself, with `.yml` and with `.yaml` that exists; none iff none of the three does. |
| FixtureRefs.StoreExplains | fixtures/postgres/postgres.go:148-170 | Storing a merged row under a new name keeps every reference's meaning and gives the new one the meaning of its chain. |
| FixtureRefs.FlattenMeans | fixtures/postgres/postgres.go:266-280 | A merged row has in each column the value of the nearest row up its `$extend` chain that defines it, and its own markers. |
| FixtureRefs.MeansStays | fixtures/postgres/postgres.go:266-280 | Definitions stored later under other names do not change what a row means. |
| FixtureRefs.MarkersStayOwn | fixtures/postgres/postgres.go:461-468 | `$` markers are never inherited. |
| SqlLiterals.TupleRoundTrip | fixtures/postgres/postgres.go:392-422 | Reading the printed tuple by the dialect's literal rules gives back the list, for every list of strings. |
| SqlLiterals.PrintTuple | fixtures/mysql/mysql.go:394-422 | The loop that prints a row of plain strings produces such a tuple. |
| SqlLiterals.LiteralRoundTrip | fixtures/postgres/postgres.go:535-544 | One quoted literal reads back as its string and leaves the text behind it, with the `E` prefix exactly when there is a backslash (sections 4.1.2.1 and 4.1.2.2 of the PostgreSQL manual). |
| SqlLiterals.BodyRoundTrip | fixtures/mysql/mysql.go:550-555 | The two replacement passes are undone by reading (section 9.1.1 of the MySQL 8.0 Reference Manual, default SQL mode). |
| Placeholders.PatternsAgree | variables/variable.go:17-28 | For a proper name the pattern built for one variable finds exactly the placeholders the general pattern finds under that name. |
| Placeholders.RealMatches | variables/variables.go:15 | A placeholder matches wherever it stands, whatever follows it. |
| Placeholders.ScanOfText | variables/variables.go:90-97 | Text without stray braces reads back as the tokens it was made of. |
| Variables.ReplaceIsSubst | variables/variable.go:41-49 | Replacing one variable in any text is substituting it in the tokens of that text. |
| Variables.SequentialIsSubst | variables/variables.go:101-111 | The passes up to any point amount to substituting the names seen so far. |
| Variables.AnyOrderIsSimultaneous | variables/variables.go:101-111 | Passes in any order, over any names that include those used, are one simultaneous substitution. |
| Variables.PerformIsSimultaneous | variables/variables.go:101-111 | `perform` is one simultaneous substitution under the stated conditions. |
| Variables.PerformIsIdempotent | variables/variables.go:101-111 | Performing again changes nothing. |
| Variables.TwoPassesAreOne | runner/runner.go:223-224 | Two passes are one pass with the union in which whatever resolved first wins; second values of names that resolved first may be anything. |
| Rereading.UnchangedIffSettled | variables/variable.go:41-49 | Replacing a name leaves a text unchanged iff each of its placeholders already reads as the value. |
| Rereading.RereadIff | variables/variables.go:101-111 | For any store and any two names, the text of their placeholders is substituted simultaneously iff each placeholder of the second inside the first's value already reads as the second's value. |
| VariablesExact.ExactlySafe | variables/variables.go:101-111 | In a store of self-contained values, `perform` is simultaneous on every text, and idempotent on every text, iff no value is empty and every placeholder of a known name inside a value reads as that name's value. |
| VariablesExact.BraceFreeExactlyNonEmpty | variables/variables.go:101-111 | When no value has an opening brace, both hold on every text iff no value is empty. |
| Variables.VariableStore.Load | variables/variables.go:24-30 | Adds variables and replaces existing values. |
| Variables.VariableStore.Merge | variables/variables.go:80-84 | The merged-in variables win. |
| Variables.VariableStore.Get | variables/variables.go:134-141 | A stored name gives its stored value; any other gives its environment value iff that is set and not empty. |
| Variables.VariableStore.Perform | variables/variables.go:101-111 | The loop computes the sequential passes over the names of the original text; with good values each placeholder reads as the stored value, or else the environment's, or else as it stands. |
| Variables.VariableStore.ApplyTwice | runner/runner.go:223-283 | Over both passes a placeholder reads as the test's own variable, or else the store's, or else the environment's even if the response sets it, or else the response's, or else as it stands. |

## Left out

- HTTP and gRPC servers and clients, listeners, reflection, proto conversion, database and Redis and Aerospike connections, scripts: input and output.
- The regexp engine, `text/template`, gjson and the JSON, YAML and XML decoders: abstract functions or values already decoded.
- Error texts, colours, reports and OpenAPI checking: presentation.
- Individual request constraints (method, header, path, query, JSON, XML): each is one arbitrary function of the request, so what they check is not modelled apart from the two query matchers.
- `$eval` and `$record.field` expressions in fixture rows, `truncateTables`, `fixSequences` and values other than strings in SQL literals: database calls, or one-line conversions without a law of their own.
- FixtureLoader.LoadContext.LoadTable: the database takes a table or refuses it as a whole; a row that cannot be read back, or in MySQL is refused after others went in, is not modelled.
- MockSetup.Mocks.SetupMocks: the reset and loading of gRPC definitions that follow are not part of it; `GrpcMock` models them as steps.
- MockService.Definition.EndRunningContext: mismatches do not carry the service name, which the code sets on root definitions only.
- The Redis and Aerospike fixture loaders, XML grouping, test-case expansion and cloning: smaller copies of the same shapes, or sharing of maps that decides nothing here.
- The gRPC transport and mock are state machines over their locked steps, not objects; replies, trailers and status codes of the gRPC mock are not modelled.
- VariablesExact.ExactlySafe: stores with a value that has `{{` outside placeholders or a plain `{` at an end are covered by `RereadIff` only, since such a value can become part of a placeholder with any text around it.
