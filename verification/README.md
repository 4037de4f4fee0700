# Verified model of the upgrade safeguard

The safeguard decides whether a Soroban contract can be upgraded without
breaking its callers, its stored data or the contracts that depend on it. This
project models the parts of it that carry an argument and proves what they are
for. One module per component:

| module | component |
|---|---|
| `Prelude`, `Ordering`, `Text` | shared definitions, sorting, decimal numbers |
| `Spec` | contract specs |
| `CallAbi` | the call-ABI walk over two types, in the source's imperative form, against a break-list specification |
| `Simulation`, `Compatibility` | what a clean walk means: simulations over type names; composition and reflexivity of the verdict |
| `Routes`, `Directions` | what a walk's report holds, told by routes to mismatches; the comparison of whole specs and its report |
| `Empirical`, `Decoding`, `Candidates` | the validator of stored values; typed values and their stored forms; the search for candidates |
| `Soundness` | the verdict proved sound against the validator |
| `InterfaceHash`, `InterfaceExact`, `InterfaceReader` | the canonical byte form; its injectivity modulo the interface comparison; a reader of it |
| `Findings`, `DependencyGraph` | findings; declared dependencies merged into a graph |
| `DepthFirst`, `CycleListing`, `Cycles` | the depth-first walk and its invariants; which cycles it lists; cycle detection |
| `Reachability`, `SearchOrder`, `Propagation` | chains that carry a finding and what a search with one key per finding has found; the order in which it is found; the breadth-first search and its report |
| `Json`, `JsonReader`, `Attestation` | the canonical JSON writer; a reader of JSON text; DSSE pre-authentication encoding, signing and verifying |
| `Migration` | the migration audit and cascade inheritance |
| `Calendar`, `Minimize`, `Budget`, `Profiles`, `ForwardDecode` | the calendar loops, input reduction, budgets, profile inheritance, forward-compatible decoding |

How the pieces fit:

- **Call ABI.** `TypeBreaks` is the list of breaks the walk adds, with the set of
  pairs in progress as a parameter. The class `Walk` computes it in place and
  leaves `visiting` as it found it. `Simulation.CycleCutIsExact` gives a clean
  walk its coinductive meaning, `Soundness.VerdictIsSound` ties that meaning to
  decoding of values, and `Compatibility` proves the laws of the verdict. What an
  unclean walk reports is told without the walk: `Routes` defines steps from
  types to their parts and the mismatches they can end at, and
  `Routes.WalkIsExact` proves that the breaks are exactly those.
- **Stored values.** `Decoding` defines typed values and the forms in which they
  are stored, and proves that a value validates iff it is such a form. The search
  and the check of candidates are stated by that, not by the validator.
- **Canonical form.** Every encoder splits off a stream uniquely, level by
  level, up to `InterfaceExact.CanonicalFormIsExact`. `InterfaceReader` reads the
  form back, tags, order and all, and `JsonReader` does the same for the JSON text
  that is signed.
- **Cycles.** `DepthFirst` specifies the walk with the trail, entering and leaving
  of each contract, `CycleListing` proves which cycles such a walk lists, and the
  class in `Cycles` computes it with the source's four variables.
- **Propagation.** A breadth-first search with one key per contract and finding
  is proved against chains of watched calls, which are defined without a search,
  and its report does not depend on the order of visiting.
- **Migration audit.** `Audit` returns exactly the final coverage and exactly
  the diagnostics that four declarative predicates describe.

Conventions. Text is a sequence of characters, one for each UTF-8 byte of the
original. The text of a break's reason is abstract: any total order on reasons
serves. Base64, signatures, hashes, the JSON parser, the fuzz oracle and the XDR
entry reader are function parameters, with what is needed of them stated as a
precondition. An iteration over an unordered map becomes a choice of any
remaining key, so the proofs hold for every iteration order.

Where the code and its comments differ:

- `detect_cycles` is documented as returning every cycle. Its `visited` set is
  never cleared, so it can miss some (`Cycles.DiamondMissesACycle`). It returns
  every simple cycle precisely when each group of mutually dependent contracts
  is entered one way (`CycleListing.CompletenessIsExact`), and always enough to
  catch every closed walk (`CycleListing.ClosedWalkIsCaught`).
- A missing and an empty target give one propagation key
  (`Reachability.KeyClash`). Propagation is exact precisely when no contract has
  both for one category under an unfiltered dependency
  (`Propagation.Propagate`); `Propagation.ClashExample` loses a result.
- The validator lets a stored struct omit an `Option` field, and the checker lets
  an `Option` field flow into an untyped one, which must be present. A clean
  check therefore carries over every value with all declared fields, and a value
  that omits some iff those are optional for the consumer
  (`Soundness.OmissionIsExact`, `Soundness.OmittedFieldIsLost`).
- The forward-compatible path counts skipped bytes as the length less four per
  entry, not from the cursor. The count is never too low, and it is right iff the
  decoded entries are bare discriminants (`ForwardDecode.SkippedIsConservative`,
  `ForwardDecode.SkippedIsExact`, `ForwardDecode.SkippedCanBeTooHigh`).

## Model

| member | source | states |
|---|---|---|
| CallAbi.UnusedShrinks | src/call_abi.rs:349-351 | Entering a pair that both specs declare as one kind strictly lowers the number of unused declared pairs: the measure that ends the walk on every pair of specs |
| CallAbi.Walk.CheckValueFlow | src/call_abi.rs:201-336 | The walk over two types leaves `visiting` as it was and extends `breaks` by exactly the specified list |
| CallAbi.Walk.CheckUdtFlow | src/call_abi.rs:339-479 | The same for a pair of named types, including the cut at a pair in progress and the kind mismatch |
| CallAbi.Walk.CheckFields | src/call_abi.rs:354-395 | Struct rule: one break for differing field sets, then each shared field in name order |
| CallAbi.Walk.CheckCases | src/call_abi.rs:409-454 | Union rule: every producer case must be known with the same payload shape, payloads checked by position |
| CallAbi.Walk.CheckValues | src/call_abi.rs:400-408 | Enum rules: one break per producer discriminant the consumer lacks, in numeric order |
| Routes.StepIsExact | src/call_abi.rs:201-479 | A break at two types is their own mismatch or lies below one step to a part of them, and conversely: option, vector, map key and value, result ok and err, tuple element, struct field, union payload, each with its path |
| Routes.WalkIsExact | src/call_abi.rs:201-479 | The walk reports exactly the mismatches that some route of such steps leads to, where a pair in progress is not entered again |
| Directions.CompareDirection | src/call_abi.rs:104-198 | A break is in the report iff a client function is missing, its arguments or results differ in number, or a route from one of their positions ends at it. With equal numbers, a position has a break under its own path iff its types are not compatible, arguments forwards and results backwards; every break has such a place. Sorted by function, path and reason in byte order; empty iff the direction is clean |
| Directions.CompareFunction | src/call_abi.rs:112-188 | One function adds exactly what is reported of it: the missing export, each arity mismatch, and what routes from each argument and each result lead to |
| Directions.FunctionReport | src/call_abi.rs:112-188 | A function's breaks are those reported of it, in whichever of its arguments and results they are |
| Directions.ReportTells | src/call_abi.rs:104-198 | Any listing of the reported breaks speaks of every position with incompatible types, of each missing function and each arity mismatch, and of nothing else |
| Directions.NoPartIsPassedOver | src/call_abi.rs:201-479 | One level down: where a step from two types meets parts that are not compatible given the pairs in progress, the walk has a break under that part's path |
| Directions.BreakOrder | src/call_abi.rs:191-196 | The report's sort key is a total order, so the sorted report is unique |
| Directions.VerdictIsDetermined | src/call_abi.rs:104-198 | Two runs over the same specs give the same report, in whatever order the function map is visited |
| Simulation.SimulationIsClean | src/call_abi.rs:201-479 | If a simulation relates two types, the walk adds no break for them, from any set in progress |
| Simulation.CleanIsSimulated | src/call_abi.rs:201-479 | A walk that adds no break yields a relation closed under the local rules up to the pairs in progress |
| Simulation.CutIsExact | src/call_abi.rs:349-478 | With pairs in progress, a walk adds no break iff the types are compatible given those pairs |
| Simulation.CycleCutIsExact | src/call_abi.rs:349-478 | Cutting at pairs in progress is exact: no break iff some simulation relation relates the two types |
| Compatibility.FunctionIsExact | src/call_abi.rs:112-188 | A function adds no break iff it is exported, arities agree, and all arguments and results are compatible in their directions |
| Compatibility.VerdictIsExact | src/call_abi.rs:104-198 | A direction is clean iff every client function is compatible in that sense |
| Compatibility.CompatibleComposes | src/call_abi.rs:201-479 | Compatibility of types is transitive across three specs, recursive types included |
| Compatibility.DirectionsCompose | src/call_abi.rs:104-198 | If A against B and B against C are clean, A against C is clean |
| Compatibility.MixedKindsDoNotCompose | src/call_abi.rs:354-478 | A name with two kinds in the middle spec breaks composition: why one kind per name is required |
| Compatibility.SelfVerdictIsExact | src/call_abi.rs:82-198 | A spec is clean against itself iff all named types its functions lead to are declared |
| Decoding.ValidationIsDecoding | src/empirical.rs:124-492 | A stored value validates as a type iff it is a stored form of some value of it: the scalar of each kind, options and results, vectors, maps, tuples, named types |
| Decoding.UdtValidationIsDecoding | src/empirical.rs:288-492 | The same for named types: a map that may hold more and may omit absent optional fields or one item a field, an enum by name, tagged vector, u32 or truncated i32, a union by symbol or tagged vector |
| Candidates.SubValuesAreExact | src/empirical.rs:495-518 | The values a search visits are those stored at any depth in the input: items, keys, map values and the input itself |
| Candidates.CandidateList.Find | src/empirical.rs:495-518 | The search appends exactly the values stored at any depth that are stored forms of the type and not yet listed, without duplicates, keeping what was listed |
| Candidates.CollectCandidates | src/empirical.rs:536-541 | The candidates of a type are the values stored in some entry, at any depth, that are stored forms of it, each once |
| Candidates.RunEmpiricalCheck | src/empirical.rs:521-570 | One result per distinct affected type and stored form of it under the old spec, successful iff it is a stored form of the type under the new spec |
| Soundness.TypesAreSound | src/empirical.rs:124-492 | Under a simulation, every wire value the producer's type accepts is accepted by the consumer's, and is in wire form there |
| Soundness.UnionsAreSound | src/empirical.rs:411-488 | The same for unions: the consumer's first match by name is the case the checker compared |
| Soundness.CheckIsSound | src/call_abi.rs:200-479 | No break implies that every wire value the producer accepts decodes at the consumer, through mutually recursive types |
| Soundness.VerdictIsSound | src/call_abi.rs:104-198 | With a clean direction every call is to an exported function, its arguments decode there, and its results decode at the client |
| Soundness.CleanTypeHasNoFailingSample | src/empirical.rs:521-570 | A type whose check is clean never shows as a failing sample in wire form |
| Soundness.OmittedFieldIsLost | src/empirical.rs:304-321 | A value with an omitted field, accepted by the producer after a clean check, does not decode: the consumer's field is not optional |
| Soundness.OmissionIsExact | src/empirical.rs:294-324 | After a clean check, a map- and discriminant-encoded value that may omit fields decodes at the consumer iff every field it omits, at each struct it passes through, is optional there |
| Soundness.NothingLooseCarriesOver | src/empirical.rs:294-324 | Told of the types alone: where no related pair of structs has a field that is optional for the producer and untyped for the consumer, every encoded value carries over, whatever it omits |
| Empirical.AcceptedOmitsOptional | src/empirical.rs:294-324 | Whatever decodes omits only optional fields, at any depth |
| Soundness.TwoKindsAreUnsound | src/empirical.rs:288-492 | Counterexample with one name declared as two kinds |
| Soundness.DuplicateCasesAreUnsound | src/call_abi.rs:413-453 | Counterexample with two union cases of one name |
| Soundness.DuplicateCasesAreNotReflexive | src/call_abi.rs:413-453 | A union with two cases of one name is not compatible with itself |
| InterfaceHash.Canonicalizer.WriteType | src/interface_hash.rs:176-231 | Appends exactly the type's encoding, nested types included |
| InterfaceHash.Canonicalizer.WriteUnion | src/interface_hash.rs:265-290 | Appends the cases in declaration order, each with its shape |
| InterfaceHash.Canonicalizer.WriteEnum | src/interface_hash.rs:292-310 | Appends the cases sorted by name and value, so declaration order is lost |
| InterfaceHash.CanonicalForm | src/interface_hash.rs:336-388 | The produced bytes are the form of the interface part of the spec alone, whatever the map order; what that form is, `CanonicalFormReads` tells |
| InterfaceReader.CanonicalFormReads | src/interface_hash.rs:176-388 | A reader that knows the domain, version, tags, counts and widths gets back from the form the five sections with one entry for each declared name in byte order, parameters, fields and union cases as declared, enum cases by name and value |
| InterfaceExact.StrSplit | src/interface_hash.rs:147-155 | A length-prefixed string is split off any stream in one way |
| InterfaceExact.TypeSplit | src/interface_hash.rs:176-231 | A type is split off any stream in one way |
| InterfaceExact.TypeListSplit | src/interface_hash.rs:214-221 | Counted type lists are split off any stream in one way |
| InterfaceExact.SectionSplit | src/interface_hash.rs:347-385 | A section fixes its map: names and declarations |
| InterfaceExact.FormIsInjective | src/interface_hash.rs:336-388 | Equal forms come from equal interfaces |
| InterfaceExact.CanonicalFormIsExact | src/interface_hash.rs:19-48 | Equal canonical bytes iff same functions, structs and unions with order, and same enums and error enums up to case order, ignoring docs and `lib` |
| DependencyGraph.MergeWatches | src/dependency.rs:355-369 | A merged function list watches a finding iff one of the two did; an empty list watches everything |
| DependencyGraph.WatchedIsPassedOn | src/dependency.rs:355-369 | A function list watches a finding iff it is empty or the finding's target is one of its functions, or such a function, a dot and anything more |
| DependencyGraph.MergeIsExact | src/dependency.rs:112-138 | A merged edge exists iff a declaration does, and watches a finding iff some declaration for the pair does |
| DependencyGraph.FromDeclarations | src/dependency.rs:112-138 | One edge per pair, holding what the pair's declarations merge to, callees in the order of first declaration |
| DependencyGraph.HasEdgeIsDeclared | src/dependency.rs:112-138 | The edges of the built graph are exactly the declared pairs |
| DependencyGraph.WatchedIsDeclared | src/dependency.rs:112-138 | An edge of the built graph watches a finding iff some declaration of the pair does |
| DependencyGraph.WholeIsDeclared | src/dependency.rs:124-127 | An edge watches the whole callee iff some declaration of the pair does |
| DepthFirst.VisitOk | src/dependency.rs:172-200 | A visit keeps the forest of trails, the bracket structure of entering and leaving, and settles its edge: it closes a listed cycle or leads to what is left already |
| DepthFirst.SearchOk | src/dependency.rs:157-200 | At the end every caller was entered and everything entered was left |
| CycleListing.ListingIsExact | src/dependency.rs:184-195 | The listed cycles are exactly the closed parts of trails, one for each edge back into the trail of its start |
| CycleListing.ListedIsSimple | src/dependency.rs:190-193 | Each listed cycle is a closed walk of declared edges with no repeated inner contract |
| CycleListing.ListedAreDistinct | src/dependency.rs:184-195 | No listed cycle is another one started elsewhere |
| CycleListing.ListedOnce | src/dependency.rs:157-200 | Over the whole search no cycle is listed twice, neither from another start nor, with one edge per pair, repeated |
| CycleListing.ClosedWalkIsCaught | src/dependency.rs:157-200 | Every closed walk takes the last step of a listed cycle |
| CycleListing.OneWayInListsAll | src/dependency.rs:152-200 | If each group of mutually dependent contracts is entered one way, every simple cycle is listed up to rotation |
| CycleListing.ListsAllOneWayIn | src/dependency.rs:152-200 | If every simple cycle is listed, each group is entered one way |
| CycleListing.CompletenessIsExact | src/dependency.rs:152-200 | The documented completeness holds iff from the contract of each group that is visited first, at most one simple walk leads to any other of the group |
| CycleListing.OneWayBetweenSuffices | src/dependency.rs:152-200 | Told of the graph alone: where one simple walk joins any two mutually dependent contracts, every simple cycle is listed |
| Cycles.CycleFinder.Dfs | src/dependency.rs:172-200 | One recursive visit does exactly what the walk specifies, keeps `on_stack` the set of `path` and restores both |
| Cycles.CycleFinder.Report | src/dependency.rs:188-193 | The reported cycle is the path from the callee on, closed |
| Cycles.DetectCycles | src/dependency.rs:157-170 | The list is that of the walk: real cycles only, none twice, every closed walk caught, non-empty iff there is a closed walk, complete iff each group is entered one way |
| Cycles.DetectDeclaredCycles | src/dependency.rs:112-170 | From declarations to cycles: each listed one is declared, each declared one is caught, none is listed iff none is declared |
| Cycles.DiamondMissesACycle | src/dependency.rs:172-200 | A depends on B and C, both on D, D on A: only the cycle through B is listed, and the condition fails |
| Reachability.KeyIsExact | src/dependency.rs:372-379 | Within a contract two visible findings share a key iff category and target text agree, although names may contain the separator |
| Reachability.KeyClash | src/dependency.rs:372-379 | A missing and an empty target share a key but are watched differently |
| Reachability.ReachedIsEmitted | src/dependency.rs:217-300 | In a finished search, a contract reached by a chain of n watched calls has a result at depth at most n |
| Reachability.ClashLosesAResult | src/dependency.rs:246-256 | One result per key is exact only if targets are told apart |
| Reachability.FinishedSearch | src/dependency.rs:217-300 | A finished search is always carried by real chains and reports once; it is exact iff targets are told apart, and then depths are shortest |
| Propagation.Search.Run | src/dependency.rs:261-288 | The queue empties on every graph, cyclic ones included, with everything expanded and one entry per key |
| Propagation.Propagate | src/dependency.rs:217-300 | The report, by depth, changed contract, affected contract and target, has exactly one result per reachable contract and finding, at shortest depth, precisely when targets are told apart; never a result without a chain |
| SearchOrder.CallersExact | src/dependency.rs:221-230 | The callers of a contract, collected in name order, are exactly the edges to it |
| SearchOrder.OfferPart | src/dependency.rs:251-255 | Offering one contract's result changes nothing in another's part: keys name the changed contract |
| SearchOrder.SamePart | src/dependency.rs:237-288 | Two finished searches over the same findings found the same for each changed contract, in the same order, however the contracts were interleaved |
| Ordering.SortKeepsTies | src/dependency.rs:290-297 | Sorting keeps results that tie in the order they were found |
| Propagation.ReportIsDetermined | src/dependency.rs:290-300 | The same findings give the same report, whatever the order in which the changed contracts are visited |
| Propagation.ClashExample | src/dependency.rs:246-256 | A graph and two findings where the condition fails: both reach the caller, and a search with one entry per key reports at most one |
| Ordering.LexIsExact | src/dependency.rs:291-297 | The order of texts everything is sorted by: a proper prefix first, otherwise the lower byte where two texts first differ |
| Propagation.DisplayRanks | src/dependency.rs:291-297 | The report's sort key ranks any two results and is transitive |
| Propagation.ReachesIsDeclared | src/dependency.rs:112-138 | Chains of carrying edges are chains of declarations that watch the finding |
| Propagation.PropagateDeclared | src/dependency.rs:112-300 | From declarations to results: critical and warning findings of visible categories, carried by chains of declarations that list no function, the finding's target or a function it is a part of; reported once, in display order, and exact, at shortest depth, precisely when no clashing findings meet a declaration about the whole contract |
| Json.QuoteSplit | src/attestation.rs:448-450 | A quoted, escaped string is split off any text in one way |
| Json.TextSplit | src/attestation.rs:438-477 | A canonical value is split off any text in one way, up to member order |
| Json.CanonicalTextIsExact | src/attestation.rs:431-477 | Canonical texts are equal iff the values are, object key order aside |
| Json.JsonWriter.Write | src/attestation.rs:438-477 | Writing succeeds iff every nested number is an integer, and then appends exactly the canonical text; what that text is, `CanonicalTextReads` tells |
| JsonReader.CanonicalTextReads | src/attestation.rs:431-477 | A reader of JSON text (sections 6 and 7 of RFC 8259) gets back from the canonical text the same value, the keys of every object in byte order, and stops where the text ends |
| Attestation.PaeExample | src/attestation.rs:419-429 | One pre-authentication encoding written out, the one the source gives |
| Attestation.PaeIsInjective | src/attestation.rs:419-429 | Pre-authentication encoding determines payload type and payload |
| Attestation.SignedBytesAreExact | src/attestation.rs:419-477 | Signed bytes are equal iff payload type and JSON value are |
| Attestation.VerifySignatures | src/attestation.rs:328-417 | Rejection for each payload fault in order; otherwise the identities are exactly the trusted keys with a good signature, and each other signature is one failure |
| Attestation.CheckSignature | src/attestation.rs:374-404 | A signature passes iff its key is trusted, it decodes and it verifies; the failure names which |
| Attestation.SignStatement | src/attestation.rs:232-247 | Signing succeeds iff every number is an integer, and signs the encoding of the canonical payload, which reads back as the statement with keys in byte order |
| Attestation.SignedStatementVerifies | src/attestation.rs:232-247 | A signed statement is accepted iff it is valid; then the signing key is among the identities and no failure is listed |
| Attestation.SignatureBindsStatement | src/attestation.rs:328-429 | Accepted envelopes with equal signed messages carry the same payload type, payload bytes and statement |
| Migration.DirectCoverageIsExact | src/contract_migration.rs:344-423 | A finding is covered directly iff exactly one claim of all verified migrations holds of it, and by that migration; two claims of one migration cover nothing |
| Migration.Auditor.RecordClaim | src/contract_migration.rs:493-589 | A claim adds itself to exactly the findings it holds of, and reports exactly its stale, not migratable and out-of-scope cases |
| Migration.InheritThroughCascades | src/contract_migration.rs:601-649 | The in-place pass equals a pointwise function of the coverage before it |
| Migration.InheritanceIsExact | src/contract_migration.rs:598-649 | Inheriting overwrites nothing; a finding without coverage gains some iff its root has critical or warning findings, all covered before, and it is that of the first of these |
| Migration.OrderDoesNotMatter | src/contract_migration.rs:619-648 | Visiting the findings in any order, reading what earlier visits wrote, gives the same coverage |
| Migration.OnePassIsEnough | src/contract_migration.rs:598-649 | With ultimate roots a second pass changes nothing |
| Migration.CountsAreExact | src/contract_migration.rs:602-630 | The counted totals agree iff the root's breaking findings are all covered |
| Migration.CoverageIsExact | src/contract_migration.rs:344-423 | A finding ends up covered iff exactly one claim of the active migrations holds of it, by category, target, pinned change and listed type, or its root has critical or warning findings and each of them has exactly one |
| Migration.DiagnosticsAreExact | src/contract_migration.rs:344-589 | Each of the eight kinds of diagnostic is raised exactly when its condition on declarations, claims, findings and coverage holds |
| Migration.Audit | src/contract_migration.rs:344-489 | The final coverage, given exactly where `CoverageIsExact` says; exactly the diagnostics of `DiagnosticsAreExact`, by migration, category and target; and whether some declaration applied |
| Migration.NoSilentGap | src/contract_migration.rs:429-469 | A critical or warning finding on a type that an active migration lists ends up covered or has its gap diagnostic |
| Migration.GapsAreReal | src/contract_migration.rs:429-469 | Every gap diagnostic stands for an uncovered critical or warning finding on a type that its migration lists |
| Calendar.DaysBeforeNext | src/bundle.rs:280-288 | The closed-form day count grows by the length of each year, leap years by the 4, 100 and 400 rule |
| Calendar.SecsToYmdhms | src/bundle.rs:271-314 | For every input whose year fits 32 bits the fields are in range and denote exactly the input seconds |
| Calendar.OrderIsExact | src/bundle.rs:271-314 | In-range fields are ordered lexicographically iff their seconds are, and equal iff their seconds are, so the conversion is the only inverse and strictly increasing |
| Calendar.DayByFormula | src/bundle.rs:271-314 | The day number is that of the usual formula counting years from March, without a table of months; January 1st of 1970 is day 0 |
| Calendar.YearOf | src/bundle.rs:278-288 | The year loop stops at the year that contains the day |
| Calendar.MonthOf | src/bundle.rs:289-312 | The month loop stops at the month that contains the day |
| Minimize.SliceOfSlice | src/fuzz_minimize.rs:421-445 | Every reduction of a contiguous slice is a contiguous slice |
| Minimize.LocalMinimumMeans | src/fuzz_minimize.rs:421-445 | No candidate keeps the class iff neither trim and neither half does |
| Minimize.TryCandidates | src/fuzz_minimize.rs:480-517 | A pass tries, in this order, without the last byte, without the first, the first half and the second half; takes the first that keeps the class, counts what it tried, and records everything or only what it accepted |
| Minimize.VerbosityOnlyRecords | src/fuzz_minimize.rs:490-507 | Verbose recording changes the history and nothing else: not the result, nor the attempts, nor the accepted steps |
| Minimize.ReductionIsSound | src/fuzz_minimize.rs:464-534 | After any number of passes the best is a slice with the original failure class, accepted lengths strictly fall to it, and a cap of the input's length leaves a local minimum |
| Minimize.MinimizeInput | src/fuzz_minimize.rs:464-534 | Fails iff the input is accepted; otherwise returns where the passes lead, attempts and history included, with these properties |
| Budget.LabelsDiffer | src/budget.rs:103-120 | Different scopes never share a label, so labels serve as keys |
| Budget.FromFileEntries | src/budget.rs:195-292 | Accepted iff every entry reads well and no two contradict; then the entries are the first occurrences, in file order, one per scope and severity |
| Budget.EntryIsExact | src/budget.rs:195-262 | An entry of the file is read as the one it spells: scope with its axis or known rule, limit not negative, metric unsuppressed unless raw is asked for |
| Budget.PoolsPartition | src/budget.rs:354-383 | Pool sizes sum to the number of findings |
| Budget.CountIsMeasured | src/budget.rs:385-404 | Counting an entry's pool is counting the findings whose narrowest claiming scope is the entry's |
| Budget.MeasuredIsExact | src/budget.rs:354-404 | An entry measures the findings charged to it: by rule if the rule has an entry, else by the first axis that has one, else globally, filtered by severity and suppression |
| Budget.Evaluate | src/budget.rs:340-418 | One violation, in entry order, for each entry with more findings charged to it than its limit, and for no other |
| Budget.ScopeShrinks | src/budget.rs:354-383 | With more entries, an entry's scope only loses findings |
| Budget.AddingEntriesNeverRaises | src/budget.rs:340-418 | Adding entries anywhere never raises what an existing entry measures |
| Profiles.CheckProfile | src/config_schema.rs:1479-1536 | One profile's walk reports exactly what following its parents does |
| Profiles.ReportsAreExact | src/config_schema.rs:1479-1536 | Each kind of report told without the walk: undeclared parent, a chain of at most eight that runs into itself, a chain of nine |
| Profiles.CheckIsExact | src/config_schema.rs:1472-1537 | All profiles are quiet iff each has a declared, non-repeating chain of at most eight that ends |
| Profiles.CheckProfiles | src/config_schema.rs:1472-1537 | No problem is reported iff every profile inherits well |
| ForwardDecode.StuckIsFurthest | src/decoder_registry.rs:723-734 | Where reading gets stuck, no other sequence of entries gets further |
| ForwardDecode.DecodeSpec | src/decoder_registry.rs:425-456 | Either the entries that fill the data, or the index and offset of the first unreadable entry and no decoding exists |
| ForwardDecode.DecodePartial | src/decoder_registry.rs:712-737 | The entries of the longest prefix that decodes strictly, consumed plus skipped being the length |
| ForwardDecode.PartialAgreesWithStrict | src/decoder_registry.rs:425-737 | Recovery is complete iff strict decoding succeeds, with the same entries; otherwise both stop at the same entry and byte |
| ForwardDecode.SkippedIsConservative | src/decoder_registry.rs:652-665 | The reported count is never below what was left unread |
| ForwardDecode.SkippedIsExact | src/decoder_registry.rs:652-665 | The reported count is the true remainder iff every decoded entry is a bare discriminant; for entries that are always longer, iff nothing was decoded |
| ForwardDecode.PlainFunctionsBehave | src/decoder_registry.rs:425-456 | Reading the wire layout of a parameterless function entry (sections 4.2 and 4.11 of RFC 4506) satisfies what is asked of readers, and takes more than four bytes |
| ForwardDecode.SkippedCanBeTooHigh | src/decoder_registry.rs:652-665 | A section with one function entry in its wire layout and an entry of unknown kind: four bytes are left, 24 are reported |
| ForwardDecode.Registry.Decode | src/decoder_registry.rs:555-615 | The first owner's decoder alone decides; without an owner, or where it fails, the version is unsupported |
| ForwardDecode.Registry.DecodeForwardCompat | src/decoder_registry.rs:622-684 | The same, with recovery and a conservative skipped count where the first owner fails |
| ForwardDecode.BuiltInOwns | src/decoder_registry.rs:513-533 | The built-in registry owns exactly unversioned sections and protocols 20 to 23 |

## Left out

- Soundness.VerdictIsSound: assumes one kind per type name, and distinct member names, in both specs; `TwoKindsAreUnsound` and `DuplicateCasesAreUnsound` show values that are lost without these.
- Soundness.TypesAreSound: the same assumptions on both specs.
- Soundness.UnionsAreSound: the same assumptions on both specs.
- Soundness.CheckIsSound: the same assumptions on both specs.
- Soundness.OmissionIsExact: the same assumptions on both specs.
- Soundness.CleanTypeHasNoFailingSample: the same assumptions on both specs.
- Compatibility.SelfVerdictIsExact: assumes distinct case names in each union; `DuplicateCasesAreNotReflexive` shows why.
- Compatibility.DirectionsCompose: assumes one kind per name in the middle spec and in one end; `MixedKindsDoNotCompose` shows why.
- Compatibility.CompatibleComposes: the same assumptions as for directions.
- InterfaceExact.CanonicalFormIsExact: assumes that one of the two forms is shorter than 2^64 bytes, as a buffer in memory is; the hash over the form is not modelled.
- ForwardDecode.Registry.Decode: an unowned version and a failing owner differ only in the message, which is left out.
- Calendar.SecsToYmdhms: inputs whose year exceeds 32 bits are excluded, because the source's year counter is that wide.
- Calendar.YearOf: the same exclusion.
- Migration.Audit: the texts of diagnostics, and how often equal ones occur, are not stated.
- Budget.FromFileEntries: of the error messages only their presence is kept.
- ForwardDecode.DecodePartial: assumes that an entry takes at least four bytes and that reading it looks at no later byte.
- Json.JsonWriter.Write: assumes distinct keys within an object, which the source's map type guarantees.
- SHA-256, Ed25519, base64, TOML and JSON parsing, and the XDR entry format: library code, kept as parameters.
- `ArtifactDigest` and `verify_artifacts`: digest comparison and date policy with little to prove beside the signatures.
- `BuildManifest::compare`, `MigrationStatus::classify`, `InterfaceVersion` packing, `missing_contracts` and the message builders: short and easy members.
- File-system work: bundles, snapshots, fixture writing, configuration loading.
- `InputKind` and the analysis behind the fuzz oracle: the oracle is any function of the bytes.
- Category and capability tables, classification, colours, layered configuration, network access, the impact graph, schema, completion and Markdown generation.
