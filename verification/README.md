# A verified model of Embyr's rule engine, document store and change feed

Embyr serves a Firestore-compatible API from Postgres. This project models the
three parts of it that carry whole-language or whole-run guarantees, and proves
those guarantees in Dafny.

**The access-rule engine.** Rule conditions are parsed from tokens by a
recursive-descent parser, rules-file functions are inlined and captured path
variables rewritten before parsing, conditions are evaluated with "missing" as a
third outcome, the documents a condition refers to are discovered up front,
queries are checked against rules without looking at documents, and requests are
routed to rules by path patterns. Almost every result says that a quick or
syntactic check agrees with a semantic definition.

**The document store.** Documents and transactions are tables. The
single-document operations, a commit's batch of writes, optimistic transactions
with recorded reads, and the background sweeper are one state machine whose
events are single statements or single database transactions, so that calls
interleave freely.

**The change feed and paging.** A bounded queue with an overflow flag and an
in-band RESET feeds a filter; a list of ids is handed out page by page through
hexadecimal offset tokens.

Where the code is imperative the model is too: a parser object with a cursor, a
path collector, a routing table, the storage adapter, a subscription, and loops
with invariants for the rest. Each is proved against a specification function,
and the properties are proved about those functions.

Results that hold only under a condition come with that condition as an "if and
only if", and with a case outside it:

| result | holds exactly when |
|---|---|
| committing a batch equals writing one document at a time | no write touches a row a later write looks at (`Documents.BatchIsSequentialIff`) |
| all reads of a committed transaction hold at its commit | it never saw one document in two states (`Transactions.AllReadsHoldIff`; otherwise `SerialHistory.InconsistentReadsCommit`) |
| a run is serial in commit order | no committed transaction saw one document in two states (`SerialHistory.SerialInCommitOrderIff`) |
| sweeps change no document and no reply but a rollback's | the time-to-live is at least 60 seconds (`TransactionRuns.SweepsInvisibleIff`) |
| an update-time precondition means the same to a commit and to a single update | it names a whole microsecond (`Documents.UpdateTimeAgreesIff`) |
| "must not exist" means the same to both | the document is not a deleted one (`Documents.CreationAgreesIff`) |
| a single delete and a commit's delete answer alike | depends on the precondition (`Documents.DeletionAgreesIff`) |
| membership in a list ignores growing data | the list is settled (`ListMembership.MembershipFixedIff`; otherwise `ListMembership.UnsettledGrantsByAbsence`) |
| a request finds exactly the stored rules that claim its document | every document id on its path is read as the literal it spells (`RequestRouting.RoutingAgreesIff`; otherwise `RequestRouting.RuleIsLost` and `RequestRouting.RulesCollide`) |
| imports that run side by side leave an unambiguous store | none is accepted while another has a conflicting pattern still to store (`ImportRuns.AmbiguousIff`; otherwise `ImportRuns.OverlappingImportsCollide`) |
| a query is refused only if its rule denies a document it selects | some branch of the filter that selects a document leaves the rule open (`QueryCompliance.CheckIsExactIff`; otherwise `QueryCompliance.EmptyBranchIsIncomplete`) |
| refusing a fixed-depth rule beside a recursive one prevents a clash | the recursive prefix does not reach below the fixed rule's documents in agreement with it (`RuleStore.RefusedInVainIff`) |
| a stored rule claims what its match path is written for | the path does not end in a literal document id (`RuleStore.StoredClaimsIff`; otherwise `RuleStore.LiteralLeafIsDropped`) |
| a returned binding rebuilds the path | wildcard names are distinct (`PathRouting.BindRoundTripsIff`) |
| rewriting name by name equals one simultaneous substitution | no later name repeats one or is `request` or `path` (`PathRewrite.PassesAreSimultaneousIff`) |
| a rewritten condition reads as the original with its names bound | each captured name stands alone wherever it occurs (`RewrittenRules.RewrittenRuleIff`) |
| once everything is delivered, every dropped change was signalled | the overflow flag is down or the newest RESET came last (`NotifyBridge.QuietGapsSignalledIff`) |
| following page tokens returns every id once, in order | there are at most 2^31 ids (`Paging.FollowCollectsIff`) |

Some places where the code is narrower than its comments: two commit calls of one
transaction can both succeed when they overlap, and a commit can succeed after
its transaction was rolled back (`TransactionRuns.OverlappingCommitsSucceed`,
`TransactionRuns.CommitAfterRollbackSucceeds`), in both cases only when its status
check came first (`TransactionRuns.DoubleCommitOverlaps`,
`TransactionRuns.RolledBackCommitOverlaps`); reading one document twice keeps
only the last version in the read set; the RESET for a dropped change waits for
the next notification; the collection path of a request is read by the scanner of
match paths, so a document id such as `{x}` or `a**b` is taken for a wildcard, and
the routing invariant holds only for the other ids; the overlap check of an import
and its statements are not one step; a rule written for one document by its id
is stored for the whole collection. The comments at the head of `access_control/mod.rs` call
cross-document reads out of scope although the code supports them. The model
follows the code.

`dafny verify dfyconfig.toml` checks the whole project.

## Model

| member | source | states |
|---|---|---|
| `Grammar.ParserIsGrammar` | crates/embyr-core/src/access_control/mod.rs:904-1192 | a token stream parses to a condition exactly when some tree of the precedence grammar spells the stream and denotes the condition |
| `Grammar.ParseInvertsPrint` | crates/embyr-core/src/access_control/mod.rs:904-1192 | printing any well-formed condition with the fewest parentheses and parsing it gives the condition back |
| `Grammar.ParserImage` | crates/embyr-core/src/access_control/mod.rs:313-327 | the possible results of parsing are exactly the well-formed conditions: `in` has a list on the right, arithmetic does not nest, a duration stands only right of + or - |
| `Grammar.SecondSignUnsupported` | crates/embyr-core/src/access_control/mod.rs:1003-1032 | a second `+` or `-` in an operand is refused as unsupported |
| `Grammar.InNeedsList` | crates/embyr-core/src/access_control/mod.rs:1136-1170 | `in` before anything but a list is refused as unsupported |
| `Grammar.DurationNeedsUnit` | crates/embyr-core/src/access_control/mod.rs:1069-1134 | a duration without a known unit is refused as unsupported |
| `Grammar.CallsUnsupported` | crates/embyr-core/src/access_control/mod.rs:313-327 | a call that was not expanded is refused as unsupported, wherever it stands |
| `TokenParser.Parser.ParseOr` | crates/embyr-core/src/access_control/mod.rs:922-930 | the cursor parser consumes and returns what the production does on the remaining tokens |
| `TokenParser.Parser.ParseAnd` | crates/embyr-core/src/access_control/mod.rs:932-940 | as above, for conjunctions |
| `TokenParser.Parser.ParseUnary` | crates/embyr-core/src/access_control/mod.rs:942-949 | as above, for negation |
| `TokenParser.Parser.ParsePrimary` | crates/embyr-core/src/access_control/mod.rs:951-995 | as above, for parentheses, literals, `exists` and comparisons |
| `TokenParser.Parser.ParseComparison` | crates/embyr-core/src/access_control/mod.rs:1136-1170 | as above, for comparisons and `in` |
| `TokenParser.Parser.ParseListLiteral` | crates/embyr-core/src/access_control/mod.rs:1172-1192 | the item loop returns the list the production gives, or its error |
| `TokenParser.Parser.ParseOperand` | crates/embyr-core/src/access_control/mod.rs:1003-1032 | at most one arithmetic operator; a second is refused |
| `TokenParser.Parser.ParseArithmeticRhs` | crates/embyr-core/src/access_control/mod.rs:1069-1083 | a duration or a base operand |
| `TokenParser.Parser.ParseDurationValue` | crates/embyr-core/src/access_control/mod.rs:1085-1134 | `duration.value(amount, unit)`, with an unknown unit as an unsupported construct |
| `TokenParser.Parser.ParseBaseOperand` | crates/embyr-core/src/access_control/mod.rs:1034-1067 | words, literals and cross-document calls as operands |
| `TokenParser.ParseTokens` | crates/embyr-core/src/access_control/mod.rs:313-327 | the whole stream must be consumed; call-shaped identifiers are refused first |
| `FunctionInlining.CollectFunctions` | crates/embyr-core/src/access_control/rules_file.rs:295-376 | succeeds exactly when every block is acceptable and no name repeats; every collected body then parses; otherwise the first offending block's error |
| `FunctionInlining.BlockProblems` | crates/embyr-core/src/access_control/rules_file.rs:295-376 | a block is accepted exactly when it names an identifier that is not built in, takes no parameters and returns a condition that parses; what is wrong is reported in that order |
| `FunctionInlining.CallError` | crates/embyr-core/src/access_control/rules_file.rs:390-493 | undefined, unterminated and with arguments are exactly the three bad calls |
| `FunctionInlining.ExpandFunctionCalls` | crates/embyr-core/src/access_control/rules_file.rs:390-493 | the expansion loop computes the expanded stream or the first bad call's error |
| `FunctionInlining.ExpandFailsAtFirst` | crates/embyr-core/src/access_control/rules_file.rs:390-493 | expansion fails with an error exactly when the first bad call site has that error |
| `FunctionInlining.InliningPreservesMeaning` | crates/embyr-core/src/access_control/rules_file.rs:390-493 | parsing the expanded stream succeeds exactly when parsing with calls as atoms does, with the same tree once each call stands for its body's tree |
| `EvaluatorLaws.EvalRefinesKleene` | crates/embyr-core/src/access_control/mod.rs:1253-1278 | whatever evaluation decides, Kleene's three-valued logic over the same comparisons decides the same way |
| `EvaluatorLaws.NegationFreeIsKleene` | crates/embyr-core/src/access_control/mod.rs:1235-1278 | without negation access is allowed exactly when three-valued logic says true |
| `EvaluatorLaws.ConnectivesCommuteIff` | crates/embyr-core/src/access_control/mod.rs:1257-1278 | disjunction commutes always; conjunction exactly when neither operand is missing while the other is false |
| `EvaluatorLaws.AndOrderDecides` | crates/embyr-core/src/access_control/mod.rs:1256-1257 | under a negation the order of a conjunction can turn a denial into an allowance, in rules the parser accepts |
| `EvaluatorLaws.EqualityIsPlainIff` | crates/embyr-core/src/access_control/mod.rs:1335-1368 | the identity pairings equal plain comparison of resolved values if and only if it is not a comparison of an absent caller with null |
| `EvaluatorLaws.EqualitySymmetric` | crates/embyr-core/src/access_control/mod.rs:1335-1368 | equality is symmetric |
| `EvaluatorLaws.RelationalIsOrder` | crates/embyr-core/src/access_control/mod.rs:1716-1760 | the relational operators are the order of instants and of numbers, and false across kinds |
| `EvaluatorLaws.FieldReadNeedsDocument` | crates/embyr-core/src/access_control/mod.rs:1480-1520 | `exists` is true exactly when the named document was fetched and is there, and a field of it has a value exactly when it also holds that field |
| `EvaluatorLaws.UnitsConvert` | crates/embyr-core/src/access_control/mod.rs:211-219 | seconds, minutes, hours and days convert into each other, also on overflow |
| `EvaluatorLaws.DurationUndone` | crates/embyr-core/src/access_control/mod.rs:1439-1473 | subtracting a duration undoes adding it, for every 64-bit time |
| `RuleMeaning.DenotesIff` | crates/embyr-core/src/access_control/mod.rs:1370-1520 | every operand denotes exactly one value or none: a literal itself, a field or claim what is stored, a captured name the ancestor's binding before the leaf's, a sum or moved instant, a fetched document's field |
| `RuleMeaning.AllowsIff` | crates/embyr-core/src/access_control/mod.rs:1235-1278 | a rule allows exactly when it holds, by a definition of holding and failing over what operands denote that does not evaluate |
| `RuleMeaning.LiteralComparisons` | crates/embyr-core/src/access_control/mod.rs:1381-1421 | a stored field, a proposed field or a claim compared with a boolean, string, integer, double or null literal is allowed exactly when it is there and is that value |
| `RuleMeaning.ExistsAllows` | crates/embyr-core/src/access_control/mod.rs:982-990 | `exists(path)` is allowed exactly when every part of the path has a value and the joined path was fetched and is there |
| `RuleMeaning.OwnerAllows` | crates/embyr-core/src/access_control/mod.rs:1335-1368 | a field compared with the caller's uid is allowed exactly when there is a caller and the field is that uid |
| `RuleMeaning.PartsIff` | crates/embyr-core/src/access_control/mod.rs:1533-1557 | the parts of a path template denote, one by one and in order, what its segments name |
| `FailClosed.EvalMonotone` | crates/embyr-core/src/access_control/mod.rs:1253-1325 | with settled lists, adding fields, claims or a request time never changes a definite result |
| `FailClosed.RemovingDataNeverAllows` | crates/embyr-core/src/access_control/mod.rs:1235-1241 | removing data never turns a denial into an allowance |
| `ListMembership.MembershipFixedIff` | crates/embyr-core/src/access_control/mod.rs:1306-1324 | for every list of operands, arithmetic included, membership ignores growing data if and only if no item may appear with new data, where a field minus itself is harmless exactly beside both zeros |
| `ListMembership.UnsettledGrantsByAbsence` | crates/embyr-core/src/access_control/mod.rs:1306-1324 | for every other list there is a rule the parser accepts, a field not in the list, that allows while some data is absent and denies once it is there |
| `ListMembership.NotInFailsClosedIff` | crates/embyr-core/src/access_control/mod.rs:1306-1324 | "field not in list" fails closed for every field if and only if the list is settled |
| `Discovery.ResolvePathTemplate` | crates/embyr-core/src/access_control/mod.rs:1533-1557 | the loop resolves a path template, or reports it missing |
| `Discovery.PathCollector.WalkTemplate` | crates/embyr-core/src/access_control/mod.rs:1663-1710 | adds the template's path, if it resolves, to the shared set |
| `Discovery.PathCollector.WalkOperand` | crates/embyr-core/src/access_control/mod.rs:1663-1710 | adds exactly the operand's paths, through arithmetic and lists |
| `Discovery.PathCollector.WalkCondition` | crates/embyr-core/src/access_control/mod.rs:1596-1661 | adds exactly the condition's paths |
| `Discovery.DiscoverCrossDocumentPaths` | crates/embyr-core/src/access_control/mod.rs:1579-1594 | returns the paths of all cross-document operands |
| `Discovery.DiscoverySuffices` | crates/embyr-core/src/access_control/mod.rs:1579-1710 | evaluation agrees on any two fetch results that agree on the discovered paths |
| `Discovery.PrefetchDecides` | crates/embyr-core/src/access_control/mod.rs:1488-1557 | fetching only the discovered documents decides as the whole database would |
| `Discovery.DiscoversOnlyNamed` | crates/embyr-core/src/access_control/mod.rs:1579-1710 | the discovered paths are exactly those that the condition's cross-document operands name |
| `QueryCompliance.CheckQueryCompliance` | crates/embyr-core/src/access_control/mod.rs:1844-1890 | the check's verdict, with every unsatisfied atom in order |
| `QueryCompliance.DecomposeExact` | crates/embyr-core/src/access_control/mod.rs:1916-1957 | a decidable rule is true of a document exactly when all its atoms hold |
| `QueryCompliance.BindingFilterBinds` | crates/embyr-core/src/access_control/mod.rs:1975-2004 | a filter that binds a field selects only documents carrying the caller's uid there, through nested AND and OR |
| `QueryCompliance.AdmittedIsSound` | crates/embyr-core/src/access_control/mod.rs:1844-2004 | an admitted query's rule allows every document the filter selects |
| `QueryCompliance.RejectedIsFinal` | crates/embyr-core/src/access_control/mod.rs:1844-1890 | rejection as deny-all or for want of a caller means every document is denied |
| `QueryCompliance.VerdictShape` | crates/embyr-core/src/access_control/mod.rs:1844-1957 | the verdict is "unsupported" exactly when a conjunct is none of the supported forms, and "deny all" exactly when a conjunct is `false` |
| `QueryCompliance.VerdictReasons` | crates/embyr-core/src/access_control/mod.rs:1844-1890 | otherwise its reasons are exactly the missing caller and the owned fields that some branch of the filter leaves unbound |
| `QueryCompliance.MatchesIff` | crates/embyr-core/src/access_control/mod.rs:1975-2004 | a filter selects a document exactly when a branch of its disjunctive normal form does |
| `QueryCompliance.BindsIff` | crates/embyr-core/src/access_control/mod.rs:1975-2004 | a filter binds a field to the caller exactly when every branch does, through any nesting |
| `QueryCompliance.AllowsSelectedIff` | crates/embyr-core/src/access_control/mod.rs:1844-2004 | with the rule's fields compared by equality, a decidable rule allows every selected document exactly when no branch that selects something leaves an atom open |
| `QueryCompliance.CheckIsExactIff` | crates/embyr-core/src/access_control/mod.rs:1844-2004 | for every nesting of AND and OR, admission means that every selected document is allowed if and only if the query is admitted or a branch that selects something leaves the rule open |
| `QueryCompliance.SatisfiableBranchesAreExact` | crates/embyr-core/src/access_control/mod.rs:1844-2004 | so the check is exact whenever every branch selects something |
| `QueryCompliance.SatisfiableIff` | crates/embyr-core/src/access_control/mod.rs:1975-2004 | a branch of equalities selects something exactly when it equates no field with two values |
| `QueryCompliance.EmptyBranchIsIncomplete` | crates/embyr-core/src/access_control/mod.rs:1975-2004 | a branch that selects nothing can have a query refused although every selected document is allowed |
| `PathRouting.BindAncestor` | crates/embyr-core/src/access_control/path_routing.rs:86-106 | the loop returns the captures, or none on the first mismatch |
| `PathRouting.BindRecursivePrefix` | crates/embyr-core/src/access_control/path_routing.rs:128-148 | the same for a prefix, with the number of remaining segments |
| `PathRouting.OverlapIff` | crates/embyr-core/src/access_control/path_routing.rs:53-77 | two patterns overlap structurally if and only if one concrete path is bound by both |
| `PathRouting.BindRoundTripsIff` | crates/embyr-core/src/access_control/path_routing.rs:86-106 | substituting a returned binding gives back the path, for every path, if and only if wildcard names are distinct |
| `PathRouting.NoneMeansNoInstance` | crates/embyr-core/src/access_control/path_routing.rs:86-106 | no binding means no substitution of the pattern is the path |
| `PathRouting.ClassifyIsExact` | crates/embyr-core/src/access_control/path_routing.rs:163-246 | disjoint, contains and ambiguous are exactly the three relations between the sets of paths two prefixes reach |
| `PathRouting.RecursiveWildcardIsMisclassified` | crates/embyr-core/src/access_control/path_routing.rs:163-170 | a recursive wildcard inside a prefix breaks that exactness |
| `PathRouting.FixedDepthComparison` | crates/embyr-core/src/access_control/path_routing.rs:178-182 | against a fixed-depth rule's reach, "disjoint" is exact about documents of that depth if and only if the prefix is no longer than the reach or differs from it at a shared position |
| `PathRouting.MatchesFormChain` | crates/embyr-core/src/access_control/path_routing.rs:189-246 | of two prefixes reaching one path in a resolved set, one contains the other and is strictly shorter |
| `PathRouting.DeepestMatchIsUnique` | crates/embyr-core/src/access_control/path_routing.rs:189-246 | in a resolved set a path that is reached has one deepest prefix, strictly longer than and contained in every other that reaches it |
| `PathRouting.OverlapSharesKey` | crates/embyr-core/src/access_control/path_routing.rs:29-39 | overlapping shape-valid patterns have the same length and literal skeleton |
| `PathRouting.IndexLosesNothing` | crates/embyr-core/src/access_control/path_routing.rs:29-39 | narrowing by length and skeleton keeps every pattern that binds |
| `RuleStore.ValidateSegmentShape` | crates/embyr-core/src/access_control/rules_file.rs:845-877 | the loop finds the first misplaced segment |
| `RuleStore.ShapeErrors` | crates/embyr-core/src/access_control/rules_file.rs:845-877 | which misplaced segment gets which error |
| `RuleStore.ValidShapesAreStoredWellShaped` | crates/embyr-core/src/access_control/rules_file.rs:895-1045 | a valid pattern is stored with literal collection names, no inner recursive wildcard and the right depth, except that one or two segments name a collection that has a table of its own |
| `RuleStore.StoredClaimsIff` | crates/embyr-core/src/access_control/rules_file.rs:895-1045 | a stored rule claims exactly the documents its match path is written for if and only if the path does not end in a literal document id |
| `RuleStore.LiteralLeafIsDropped` | crates/embyr-core/src/access_control/rules_file.rs:964-980 | with one, the rule claims other documents of the collection too |
| `RuleStore.OneCollectionKept` | crates/embyr-core/src/access_control/rules_file.rs:1025-1034 | a rule for one top-level collection keeps the collection's name and the rule |
| `RuleStore.CollectPatterns` | crates/embyr-server/src/admin/handlers/access_rules.rs:1743-1757 | only the patterns of a file are checked for overlap |
| `RuleStore.RefusedInVainIff` | crates/embyr-server/src/admin/handlers/access_rules.rs:1799-1813 | a fixed-depth and a recursive rule that share no document are refused together exactly when the recursive prefix is longer than the fixed reach, agrees with it everywhere they overlap, and the fixed rule is narrower at some position |
| `RuleStore.RefusedInVain` | crates/embyr-server/src/admin/handlers/access_rules.rs:1799-1813 | two such rules |
| `RuleStore.CheckPatternOverlap` | crates/embyr-server/src/admin/handlers/access_rules.rs:1738-1903 | the pair loops accept exactly the files whose patterns coexist with each other and with the store |
| `RuleStore.ImportKeepsUnambiguous` | crates/embyr-server/src/admin/handlers/access_rules.rs:1738-1903 | an accepted import leaves no two rules of one kind and depth claiming a document, although only index buckets are compared |
| `RuleStore.ReimportChangesNothing` | crates/embyr-server/src/admin/handlers/access_rules.rs:1965-2143 | an accepted file is stored whole; importing it again is accepted and changes nothing |
| `RuleStore.ImportsKeepUnambiguous` | crates/embyr-server/src/admin/handlers/access_rules.rs:1965-1971 | the same over any sequence of imports, accepted or not, that do not overlap in time |
| `ImportRuns.AmbiguityNeedsOverlap` | crates/embyr-server/src/admin/handlers/access_rules.rs:1965-2143 | in every interleaving of checks and stores, the store becomes ambiguous only after a check passed while another import had a conflicting pattern still to store |
| `ImportRuns.AmbiguousIff` | crates/embyr-server/src/admin/handlers/access_rules.rs:1965-2143 | and once every import has stored its file, it is ambiguous exactly then |
| `ImportRuns.OverlappingImportsCollide` | crates/embyr-server/src/admin/handlers/access_rules.rs:1965-2143 | any two patterns that may not be stored together are, when both imports check first |
| `ImportRuns.FailedStoresNothing` | crates/embyr-server/src/admin/handlers/access_rules.rs:2067-2135 | an import whose statement failed stores nothing more |
| `RuleStore.UnambiguousNeverClashes` | crates/embyr-server/src/grpc/handler.rs:833-892 | in an unambiguous store two rules of one kind and depth never claim the same document |
| `PathParsing.SplitJoined` | crates/embyr-core/src/access_control/rules_file.rs:693-699 | splitting a path undoes joining its segments |
| `PathParsing.SegmentReads` | crates/embyr-core/src/access_control/rules_file.rs:701-718 | exactly which texts are read as a capture, as a recursive wildcard, as themselves, or not at all |
| `PathParsing.StoredPatternsReparse` | crates/embyr-core/src/access_control/rules_file.rs:883-893 | every ancestor or prefix a rules file can store is read back from its stored text unchanged |
| `RequestRouting.RoutingAgreesIff` | crates/embyr-server/src/grpc/handler.rs:794-892 | with plain collection names, a request finds exactly the rules that claim its document if and only if every document id on its path is read as the literal it spells |
| `RequestRouting.RuleIsLost` | crates/embyr-core/src/access_control/rules_file.rs:701-718 | under an id that reads as a recursive wildcard, a rule that claims every document of the subcollection is not found |
| `RequestRouting.RulesCollide` | crates/embyr-core/src/access_control/rules_file.rs:701-718 | under an id that reads as a wildcard, two rules that share no document are both found |
| `RequestRouting.IdsReadAsWildcards` | crates/embyr-core/src/access_control/rules_file.rs:701-718 | `a**b` and `{x}` are such ids |
| `RequestRouting.WildcardCollectionFindsNone` | crates/embyr-server/src/grpc/handler.rs:794-806 | a request whose collection name reads as a wildcard finds no fixed-depth rule, because its index key is shorter |
| `RequestRouting.RoutingTable.Import` | crates/embyr-server/src/admin/handlers/access_rules.rs:1965-1971 | the new table, and that it stays unambiguous |
| `RequestRouting.RoutingTable.ResolveFixed` | crates/embyr-server/src/grpc/handler.rs:795-831 | the only fixed-depth rule the parsed path finds, none, or a violation exactly when it finds two |
| `RequestRouting.RoutingTable.ResolveRecursive` | crates/embyr-server/src/grpc/handler.rs:833-892 | the deepest recursive rule the document path finds, none, or a violation exactly when the scan meets one as deep as the deepest so far |
| `RequestRouting.RoutingTable.Resolve` | crates/embyr-server/src/grpc/handler.rs:782-892 | for every request: a bad path exactly when it does not parse, else fixed-depth rules win over recursive ones and no rule means none is found |
| `RequestRouting.FoundRuleClaims` | crates/embyr-server/src/grpc/handler.rs:782-892 | on an unambiguous table a literal path is given the rule that claims the document, and none only if none does |
| `RequestRouting.RoutingTable.RouteDocument` | crates/embyr-server/src/grpc/handler.rs:782-892 | on an unambiguous table a request whose path is read as it is spelled never meets a violation and is given the rule that claims its document |
| `PathRewrite.RewritePathVariable` | crates/embyr-core/src/access_control/rules_file.rs:1068-1088 | the scan replaces each whole-word occurrence |
| `PathRewrite.PassSubstitutes` | crates/embyr-core/src/access_control/rules_file.rs:1068-1088 | a pass changes exactly the words equal to the name and keeps every other word and separator |
| `PathRewrite.RewriteAllIsPassAll` | crates/embyr-core/src/access_control/rules_file.rs:985-1001 | the passes on text are the passes on words |
| `PathRewrite.PassesAreSimultaneousIff` | crates/embyr-core/src/access_control/rules_file.rs:985-1001 | passes in this order equal one simultaneous substitution on every text if and only if no later name repeats an earlier one or is `request` or `path` |
| `PathRewrite.OrderDoesNotMatter` | crates/embyr-core/src/access_control/rules_file.rs:985-1001 | under that condition the order of names is irrelevant |
| `RuleDecomposition.RewriteCondition` | crates/embyr-core/src/access_control/rules_file.rs:998-1001 | the loop over captured names |
| `RuleDecomposition.DecomposeClauses` | crates/embyr-core/src/access_control/rules_file.rs:994-1023 | a block decomposes exactly when every rewritten condition parses and no bucket gets two different ones; each bucket holds the condition of the clauses that grant it; otherwise the error is that of the first bad clause |
| `RuleDecomposition.VerbsOfBuckets` | crates/embyr-core/src/access_control/rules_file.rs:1006-1011 | which verbs belong to the read bucket and which to the write bucket |
| `RewrittenRules.RewrittenRuleIff` | crates/embyr-core/src/access_control/rules_file.rs:985-1001 | the lexemes of the rewritten condition are the original's with the captured names bound if and only if each name stands alone wherever it occurs: not in a dotted word, in quotes, as a literal path segment, or as the `exists`, `get` or `$(database)` of a cross-document call |
| `RewrittenRules.RewrittenRuleMeans` | crates/embyr-core/src/access_control/mod.rs:847-902 | the rewritten condition is then read as the original in which each captured name is the path variable |
| `RewrittenRules.WordsReadBack` | crates/embyr-core/src/access_control/mod.rs:847-902 | a word is read as a reference exactly when it is how that reference is written |
| `RewrittenRules.KeywordsRead` | crates/embyr-core/src/access_control/mod.rs:847-902 | the keywords are read as keywords |
| `RewrittenRules.FieldLikeVariableIsLost` | crates/embyr-core/src/access_control/rules_file.rs:1068-1088 | a captured name that is also a field name turns that field of the document into another one |
| `FieldTransforms.Incremented` | crates/embyr-core/src/domain/field_transform.rs:134-161 | the sum, with a missing field as zero; an integer exactly when no side is a double; it fails exactly on a value that is no number or beyond 64 bits |
| `FieldTransforms.Extremum` | crates/embyr-core/src/domain/field_transform.rs:185-216 | one of the two values, beaten by neither, the stored one on a tie; it fails exactly on a value that is no number |
| `FieldTransforms.AppendValues` | crates/embyr-core/src/domain/field_transform.rs:71-92 | the append loop |
| `FieldTransforms.AppendIsExact` | crates/embyr-core/src/domain/field_transform.rs:71-92 | existing elements keep their place; exactly the missing values follow, each once |
| `FieldTransforms.RemoveIsExact` | crates/embyr-core/src/domain/field_transform.rs:99-116 | all occurrences of the values go, all others stay with their multiplicity |
| `FieldTransforms.RemoveCancelsAppend` | crates/embyr-core/src/domain/field_transform.rs:71-116 | removing what was appended equals removing it from the original |
| `FieldTransforms.OthersUntouched` | crates/embyr-core/src/domain/field_transform.rs:27-61 | transforms change only the fields they name and drop none |
| `FieldTransforms.NumberTransform` | crates/embyr-core/src/domain/field_transform.rs:27-61 | increment, maximum and minimum apply exactly to numbers and missing fields within 64 bits, and set and report the sum, the larger or the smaller |
| `FieldTransforms.OtherTransform` | crates/embyr-core/src/domain/field_transform.rs:27-116 | the server's time is set and reported; the array transforms apply exactly to arrays and missing fields and report nothing |
| `FieldTransforms.UpdateTransformsReadStored` | crates/embyr-pg-storage/src/backend_adapter.rs:1503-1526 | transforms inside an update give each field what they would give on the stored document overlaid with the update's fields, and fail together with that |
| `Documents.BatchIsSequentialIff` | crates/embyr-pg-storage/src/backend_adapter.rs:1341-1614 | for a list of written paths, every batch over it is accepted, and leaves the table and results, as writing one at a time would, if and only if no path recurs or is a later path moved to the commit's project |
| `Documents.SeparatedBatchIsSequential` | crates/embyr-pg-storage/src/backend_adapter.rs:1341-1614 | the direction a client relies on |
| `Documents.ReadKeyRoundTripsIff` | crates/embyr-pg-storage/src/transactions/occ.rs:56-58 | a read-set key leads back to its document if and only if the id holds no slash |
| `Documents.CreationAgreesIff` | crates/embyr-pg-storage/src/backend_adapter.rs:802-837 | single creates and a commit's "must not exist" agree if and only if the document is not a deleted one |
| `Documents.DeletionAgreesIff` | crates/embyr-pg-storage/src/backend_adapter.rs:840-868 | for each precondition, exactly when a single delete and a commit's delete answer alike, and that they then leave the same table |
| `Documents.UpdateTimeAgreesIff` | crates/embyr-pg-storage/src/backend_adapter.rs:709-765 | an update-time precondition is accepted alike by a single update and a commit, on every table, if and only if it is a whole microsecond (or no valid time) |
| `Documents.LastWriteShows` | crates/embyr-pg-storage/src/backend_adapter.rs:1498-1614 | the last write of a batch to a document is what its row shows: its new fields and the time of the write, or nothing live after a delete; and it reports what its transforms computed |
| `WrittenContent.CreateIsRead` | crates/embyr-pg-storage/src/backend_adapter.rs:623-668 | a create succeeds exactly where there is no row; the document then reads as the given fields at version 1, and every other row is untouched |
| `WrittenContent.UpdateIsRead` | crates/embyr-pg-storage/src/backend_adapter.rs:670-838 | a single update succeeds exactly when its precondition is met; the document then reads as the given fields at the next version, and every other row is untouched |
| `WrittenContent.UpdateRefusals` | crates/embyr-pg-storage/src/backend_adapter.rs:709-838 | each refusal of a single update says which precondition failed and how |
| `WrittenContent.DeleteIsGone` | crates/embyr-pg-storage/src/backend_adapter.rs:840-868 | a single delete succeeds exactly on a live document; nothing is read there afterwards, every other row is untouched, and a second delete or a create is refused |
| `WrittenContent.BatchIsRead` | crates/embyr-pg-storage/src/backend_adapter.rs:1498-1614 | after a commit a document whose last write is a delete reads as absent; any other holds the given fields, or field by field what the transforms give on stored and given fields |
| `WrittenContent.BatchKeepsOthers` | crates/embyr-pg-storage/src/backend_adapter.rs:1498-1614 | documents the batch does not name are untouched |
| `WrittenContent.CommitAcceptsIff` | crates/embyr-pg-storage/src/backend_adapter.rs:1341-1448 | a batch is committed exactly when every precondition holds, every expected version is exactly the stored one under the commit's project, the recorded reads hold and every transform applies |
| `WrittenContent.VersionedWriteIff` | crates/embyr-pg-storage/src/transactions/occ.rs:19-52 | a single versioned write is committed exactly when the document is live with exactly that version |
| `WrittenContent.CommitRefusals` | crates/embyr-pg-storage/src/backend_adapter.rs:1341-1448 | which error a refused batch gets: the first failing update-time precondition decides, then aborts, then transforms |
| `ContentRuns.StepContent` | crates/embyr-pg-storage/src/backend_adapter.rs:545-868 | each event of the machine leaves in each document what it was accepted to write, nothing live if it was accepted to delete it, and else what was there |
| `ContentRuns.ReadsLastWrite` | crates/embyr-pg-storage/src/backend_adapter.rs:545-621 | over every run a document reads as the last event that touched it left it |
| `ContentRuns.NeverWrittenIsAbsent` | crates/embyr-pg-storage/src/backend_adapter.rs:545-621 | and a document nobody wrote is absent |
| `ContentRuns.SecondDeleteRefused` | crates/embyr-pg-storage/src/backend_adapter.rs:840-868 | over every run a deleted document that nobody wrote since cannot be deleted again |
| `ContentRuns.AnswerIsRead` | crates/embyr-pg-storage/src/backend_adapter.rs:545-621 | a transactional read answers what stood in the document when it looked |
| `ContentRuns.VersionCommitsOnce` | crates/embyr-pg-storage/src/transactions/occ.rs:19-52 | over every run, of the commits that write a document of their project expecting one version of it, at most one succeeds |
| `Documents.ReturnedTimeUsableIff` | crates/embyr-pg-storage/src/backend_adapter.rs:1498-1545 | the time a commit returns is accepted as the next single update's precondition, and as the next commit's if and only if it is a whole microsecond |
| `Transactions.StepEvolves` | crates/embyr-pg-storage/src/backend_adapter.rs:683-693 | every step keeps every row, raises the version of each row it changes, and changes nothing when it answers with an error |
| `Transactions.VersionsIdentifyRows` | crates/embyr-pg-storage/src/backend_adapter.rs:846-853 | over every run versions never fall, and equal versions of a document mean equal content, liveness and times |
| `Transactions.RunAligned` | migrations/customer/0001_documents.sql:1-11 | stored update times are whole microseconds in every run |
| `Transactions.RunKeepsInv` | crates/embyr-pg-storage/src/transactions/occ.rs:72-104 | in every run a transaction's read set is exactly what its answered reads recorded, and each row seen is the current one or an older version of it |
| `Transactions.CommittedReadsHold` | crates/embyr-pg-storage/src/transactions/occ.rs:117-156 | at every successful commit in every run, the transaction's latest read of each document would be answered the same |
| `Transactions.AllReadsHoldIff` | crates/embyr-pg-storage/src/backend_adapter.rs:1443-1448 | all its reads would, if and only if it never saw one document in two states |
| `TxnLifecycle.ReadsHoldIff` | crates/embyr-pg-storage/src/transactions/occ.rs:117-156 | in every run a commit finds its recorded reads to hold exactly when each latest read would be answered again as it was |
| `SerialHistory.SerialInCommitOrderIff` | crates/embyr-pg-storage/src/backend_adapter.rs:1297-1631 | every run is serial in commit order - the single operations and, at its commit, each transaction all at once, with every read, reply and table the same - if and only if no committed transaction saw one document in two states |
| `SerialHistory.AtomicSteps` | crates/embyr-pg-storage/src/backend_adapter.rs:1443-1631 | at its commit a transaction can be executed all at once, without a read set, exactly when its reads agree |
| `SerialHistory.InconsistentReadsCommit` | crates/embyr-pg-storage/src/transactions/occ.rs:72-104 | a run in which a transaction sees a document in two states and commits, and which is not serial |
| `Transactions.NoLostUpdate` | crates/embyr-pg-storage/src/backend_adapter.rs:1443-1560 | a transaction that read a document and writes it once commits the version right after the one it read |
| `TransactionRuns.CommittedNeverLoads` | crates/embyr-pg-storage/src/backend_adapter.rs:1305-1321 | after a successful commit every later attempt to commit that transaction is refused, in every run |
| `TxnLifecycle.StepStatus` | crates/embyr-pg-storage/src/backend_adapter.rs:1305-1340 | a step changes a transaction's status only by committing it, rolling it back or finding it expired, each to the status of that name, and never its project or starting time |
| `TxnLifecycle.BeginStarts` | crates/embyr-pg-storage/src/backend_adapter.rs:1280-1295 | a new transaction is active, has read nothing and starts in the current microsecond |
| `TxnLifecycle.UsedWhileActive` | crates/embyr-pg-storage/src/backend_adapter.rs:1305-1321 | a commit gets past its status check exactly while the transaction is active and at most a minute old, a rollback exactly while it is active |
| `TxnLifecycle.ReadsWhileYoung` | crates/embyr-pg-storage/src/transactions/occ.rs:72-104 | a read is recorded exactly while the transaction of the document's project is active and less than a minute old |
| `TxnLifecycle.CommitsWithinAMinute` | crates/embyr-pg-storage/src/backend_adapter.rs:1305-1321 | over every run a commit that passes its status check is within a minute of its transaction's beginning, for the project it was begun for |
| `TransactionRuns.DoubleCommitOverlaps` | crates/embyr-pg-storage/src/backend_adapter.rs:1305-1321 | two successful commits of one transaction overlap: the second's status check came before the first's writes |
| `TransactionRuns.OverlappingCommitsSucceed` | crates/embyr-pg-storage/src/backend_adapter.rs:1616-1624 | a run in which both succeed |
| `TransactionRuns.RolledBackCommitOverlaps` | crates/embyr-pg-storage/src/backend_adapter.rs:1633-1655 | a rolled-back transaction commits only if the commit had passed its status check before the rollback |
| `TransactionRuns.CommitAfterRollbackSucceeds` | crates/embyr-pg-storage/src/backend_adapter.rs:1633-1655 | a run in which one does, after the rollback was acknowledged |
| `TransactionRuns.SweepsInvisibleIff` | crates/embyr-agent/src/sweeper.rs:39-61 | sweeps inserted anywhere leave every document and every reply but rollbacks' unchanged, over all runs, if and only if the time-to-live is at least 60 seconds |
| `Transactions.SweepKeepsIff` | crates/embyr-agent/src/sweeper.rs:39-61 | a sweep keeps exactly the active rows within the time-to-live and the finished ones within the retention days, unchanged |
| `Backend.TransformFields` | crates/embyr-pg-storage/src/backend_adapter.rs:1509-1526 | the transform loop, with seeding from the locked fields |
| `Backend.PostgresBackend.GetDocument` | crates/embyr-pg-storage/src/backend_adapter.rs:545-621 | the live row, recorded in the transaction's read set when one is given, or a refusal |
| `Backend.PostgresBackend.CreateDocument` | crates/embyr-pg-storage/src/backend_adapter.rs:623-668 | the whole new table and the reply |
| `Backend.PostgresBackend.UpdateOne` | crates/embyr-pg-storage/src/backend_adapter.rs:670-838 | the whole new table and the reply, for each precondition |
| `Backend.PostgresBackend.DeleteOne` | crates/embyr-pg-storage/src/backend_adapter.rs:840-868 | the whole new table and the reply; the precondition has no effect |
| `Backend.PostgresBackend.BeginTransaction` | crates/embyr-pg-storage/src/backend_adapter.rs:1280-1295 | one new active transaction with no reads |
| `Backend.PostgresBackend.VerifyUpdateTimes` | crates/embyr-pg-storage/src/backend_adapter.rs:1341-1378 | the first failing update-time precondition, if any |
| `Backend.PostgresBackend.VerifyExistence` | crates/embyr-pg-storage/src/backend_adapter.rs:1380-1433 | the first failing existence precondition, if any |
| `Backend.PostgresBackend.VerifyVersions` | crates/embyr-pg-storage/src/transactions/occ.rs:19-52 | the first failing version check, under the commit's own project |
| `Backend.PostgresBackend.VerifyReads` | crates/embyr-pg-storage/src/transactions/occ.rs:117-156 | whether every recorded read still holds |
| `Backend.PostgresBackend.LockFields` | crates/embyr-pg-storage/src/backend_adapter.rs:1450-1496 | the stored fields of each write that transforms, read before any write |
| `Backend.PostgresBackend.ApplyOne` | crates/embyr-pg-storage/src/backend_adapter.rs:1502-1613 | one write of the batch |
| `Backend.PostgresBackend.ApplyBatch` | crates/embyr-pg-storage/src/backend_adapter.rs:1498-1614 | all writes in order, or an error and no change |
| `Backend.PostgresBackend.CommitTransaction` | crates/embyr-pg-storage/src/backend_adapter.rs:1297-1631 | both tables and the reply of a whole commit call |
| `Backend.CommitCallIsTwoEvents` | crates/embyr-pg-storage/src/backend_adapter.rs:1297-1631 | a commit call is two events of the transaction machine with time passing between them |
| `Backend.PostgresBackend.RollbackTransaction` | crates/embyr-pg-storage/src/backend_adapter.rs:1633-1655 | the new transactions table and the reply |
| `Backend.PostgresBackend.SweepOnce` | crates/embyr-agent/src/sweeper.rs:39-61 | the remaining transactions and how many were deleted |
| `NotifyBridge.RunKeepsInv` | crates/embyr-agent/src/notify_bridge.rs:61-91 | the invariants of the pipeline hold in every interleaving |
| `NotifyBridge.NoSilentGap` | crates/embyr-agent/src/notify_bridge.rs:61-91 | if a change was dropped and a newer one delivered, a RESET was delivered between what is older and what is newer |
| `NotifyBridge.DeliveryInOrder` | crates/embyr-agent/src/server.rs:800-812 | delivered changes keep notification order and no queue exceeds 64 |
| `Delivery.DeliveredIsWanted` | crates/embyr-agent/src/server.rs:803-812 | in every run the name of a delivered change has the subscribed path at some position |
| `Delivery.QuietDeliversWanted` | crates/embyr-agent/src/server.rs:803-812 | once everything is delivered, the subscriber has what the filter took, in order, without the changes whose name lacks the path and without anything else |
| `Delivery.DeliveredWasNotified` | crates/embyr-agent/src/notify_bridge.rs:61-91 | a delivered change names the document of its own notification |
| `Delivery.QuietDeliversAll` | crates/embyr-agent/src/notify_bridge.rs:61-91 | once everything is delivered, each notification that was not dropped was delivered exactly if its name has the path, and a malformed one as a RESET |
| `Delivery.ListenerErrorEnds` | crates/embyr-agent/src/notify_bridge.rs:84-88 | after the listener fails nothing more is taken or sent |
| `Delivery.LeavingEnds` | crates/embyr-agent/src/server.rs:808-811 | after the subscriber leaves nothing more is delivered |
| `NotifyBridge.QuietGapsSignalledIff` | crates/embyr-agent/src/notify_bridge.rs:61-91 | once everything is delivered, every dropped change has been signalled if and only if the overflow flag is down or the newest RESET came last |
| `NotifyBridge.SilentGapExists` | crates/embyr-agent/src/notify_bridge.rs:61-91 | for every subscribed path and every document name containing it, a run that ends with a dropped change and no RESET |
| `NotifyBridge.Subscription.OnNotification` | crates/embyr-agent/src/notify_bridge.rs:63-74 | one task step as the machine takes it: the flag is swapped down and decides whether a RESET goes first |
| `NotifyBridge.Subscription.TrySendReset` | crates/embyr-agent/src/notify_bridge.rs:66-74 | as above, for the blocking RESET |
| `NotifyBridge.Subscription.TrySendChange` | crates/embyr-agent/src/notify_bridge.rs:76-83 | as above, for the non-blocking change |
| `NotifyBridge.Subscription.Receive` | crates/embyr-agent/src/server.rs:803-807 | as above, for the filter's receive |
| `NotifyBridge.Subscription.Forward` | crates/embyr-agent/src/server.rs:808-811 | as above, for the filter's send |
| `Paging.TokenRoundTrips` | crates/embyr-agent/src/server.rs:54-66 | every 32-bit offset survives its eight-digit token |
| `Paging.ParseIsDenotation` | crates/embyr-core/src/pagination.rs:21-27 | a digit string is accepted exactly when it denotes a 32-bit number, and as that number |
| `Paging.TokenMeans` | crates/embyr-core/src/pagination.rs:21-27 | a token is nothing, which means 0, or hexadecimal digits after at most one plus sign, which mean the 32-bit number they denote |
| `Paging.DigitsInEitherCase` | crates/embyr-core/src/pagination.rs:21-27 | which characters are which digits |
| `Paging.ListCollectionIds` | crates/embyr-agent/src/server.rs:663-692 | one page: the ids at the offset and a token exactly when more remain |
| `Paging.PageSize` | crates/embyr-agent/src/server.rs:663-692 | the requested size from 1 to 100, and 100 for any other |
| `Paging.RefusedRequests` | crates/embyr-agent/src/server.rs:663-692 | a request fails exactly for a bad token or an offset the store takes as negative, and says which |
| `Paging.FollowCollectsIff` | crates/embyr-agent/src/server.rs:663-692 | following tokens from the empty one ends and returns every id once and in order, for all page sizes, if and only if there are at most 2^31 ids |

## Left out

- Characters of condition text: quote masking, call-site scanning and the
  unsupported-construct scan work on characters; the parser model starts from
  tokens whose words are already classified, and inlining from call sites already
  recognised.
- RewrittenRules.Lex: splits a condition into dotted words, quoted texts, call
  heads, path segments and single characters; it does not build numbers or
  two-character operators, and a run that starts with a digit is one lexeme.
- Error texts: errors are kinds, not messages.
- Floating point: doubles are reals, so NaN, infinities and rounding are not
  modelled, nor is the loss of precision when large integers are compared as
  doubles.
- Integer overflow: condition arithmetic wraps at 64 bits as a release build
  does; a row's version is unbounded.
- RuleDecomposition.DecomposeClauses: whether a rewritten text parses is a
  parameter, because the parser model starts from tokens.
- PathRewrite.PassesAreSimultaneousIff: names are ASCII identifiers; a captured
  name with other characters is outside the word-boundary rule the pass uses.
- QueryCompliance.CheckIsExactIff: the rule's own fields are compared by equality;
  what the other operators select is a parameter, so that they may be used on every
  other field.
- ListMembership.MembershipFixedIff: lists have at most 2^64 items, more than a
  machine holds; sums of integers wrap, so a longer list could name every value.
- Evaluator.TimeValue: a request time is a timestamp, which is what every caller
  passes, although the evaluator's own type would let it be any value.
- RuleStore.TargetOf: a rule for a single top-level collection goes to a table of
  its own, which is looked up by exact path before any pattern; that table and the
  lookup are not modelled.
- RequestRouting.RoutingAgreesIff: collection names are plain; a request whose
  collection name reads as a wildcard is routed by `RequestRouting.RoutingTable.Resolve`
  like any other, and nothing is claimed about the rules it should find.
- ImportRuns.Step: the overlap check of one import reads the store once; the code
  reads it pattern by pattern.
- Documents.ToInstant: the range of valid seconds is that of the calendar
  library; its lowest second is rounded to whole days.
- Documents.Stored: times before the year 2000 are rounded down like all others.
- Transactions.Load: the status check and the marking of an expired transaction
  are one step.
- Transactions.CommittedReadsHold: covers reads recorded before the commit call
  loaded its read set; a query's read set holds the documents it returned and not
  those it did not find, so phantoms are not covered, by the code or here.
- SerialHistory.SerialInCommitOrderIff: for runs whose transactional reads use
  document ids without a slash, as ids cut out of a resource name are; the reads of
  a transaction are those recorded before its commit call loaded its read set.
- Transactions.Begin: ids are never handed out twice; an id that is not sixteen
  bytes long is refused before any of this.
- Backend.PostgresBackend.BeginTransaction: the id is a parameter and new, as a
  random UUID is.
- Isolation: each statement and each database transaction is one step; row-lock
  scheduling and anomalies below that are not modelled, and application and
  database share one clock.
- Storage encodings: SQL text, JSON and wire encodings, LIKE matching, index
  maintenance, column lengths and connection failures.
- Queries: running structured queries, cursors and `list_documents` paging, whose
  query has no order.
- NotifyBridge.Step: the database lookup that turns a payload into a change is a
  parameter, and a malformed payload becomes a RESET.
- Paging.FollowCollectsIff: the listed ids do not change between calls.
- Administration pages, billing, roles, hosted identity, configuration, metrics,
  TLS and start-up: plumbing that would only add easy members.
- Password hashing, envelope encryption and token verification: thin wrappers over
  libraries.
