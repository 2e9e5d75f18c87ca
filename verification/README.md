# Verified models of the repository's tooling

Dafny models of the algorithms in `scripts/` and `scripts/api-compare/` that come with promises, and proofs
of those promises. Everything here is a model of the TypeScript sources: same branches, same constants, same
edge cases, with the surrounding I/O replaced by parameters. `dafny verify dfyconfig.toml` checks the project.

## What is modelled

**Batch-then-bisect codemod** (`Bisection.dfy`, `StripAsAny.dfy`). The divide-and-conquer search over an opaque
build oracle, the per-cast loop it replaced, the end-to-start splice and the outermost-span filter. The file
and its two result lists are mutable state. Results: the search ends at the argument of the last green build;
it partitions the candidates; a failing group always keeps something, hence at most `1 + 2k⌈log2 n⌉` builds; it
reaches the loop's verdict *if and only if* every prefix of what it accepted is green by itself, which a monotone
oracle always gives; under a monotone oracle no selection that holds the accepted list and more is green, and where
casts pass or fail one by one the search tells the two kinds apart. The spans come from a syntax tree, and that they
are nested or apart is proved of every tree.

**Timezone table** (`TzdataIsdst.dfy`). Printer, parser, three caches and the binary search, from the zones to the
answers of any run of queries. For every host lookup the reader answers the history of the zone whose row it finds
under the id, or under what the host resolves the id to. On a host resolving ids to themselves that is every zone's
own history exactly when the first row (in sorted order) does not start with white space, which the `trim` around
the table would take. Where it does, the reader is wrong about at most two zones, and exactly these: the first row's
own, and a zone without a row whose id is what is left of the first row's. The table's text is described down to its
digits.

**Call parity** (`CallClosure.dfy`, `MissingCalls.dfy`, `CallPairing.dfy`, `ArgDescriptors.dfy`, `MixinWalks.dfy`,
`IncludeGraph.dfy`). Bounded reachability is exactly the ends of bounded call paths. Flags are antitone in what a body
is credited with: a larger TS side offers every spelling a smaller one did under an exact condition, a deeper closure
only removes flags, and delegation is monotone exactly where the body stays a wrapper. The greedy pairing leaves out
only pairs that lose a site to a better one, and is the *unique* such matching. Printed descriptors split, parse and unescape back *if and only if* at no
depth a keyword's value shows a comma or its key holds an equals sign; the extractors print three such words and keys
as they stand: the comma operator (`{ a: (x, y) }` as `kwargs{a=binop:,}`), Ruby's global `$,` (`kwargs{a=id:$,}`) and
setter or operator symbols (`foo(:name= => x)` as `kwargs{name==id:x}`). The normal form of these is described too,
and no reordering of keywords changes a key. Memoised walks return the transitive closure of every root that reaches
no cycle, under every order of queries. The flattening of a host's mixins gives each module's methods to the instance
side or the class side exactly as chains of includes and extends say, a module reached both ways counting as included
only. Include-graph closures are least, and unions of per-entity closures.

**Receipts and ratchets** (`CallReceipts.dfy`, `CallBaseline.dfy`, `TagMigrator.dfy`, `CallRatchet.dfy`,
`ArmThrowMark.dfy`). The comparer, the migrator, the gate and the reseed over (flagged calls, tags, rows).
From any state a build edits nothing outside the package and file asked for, turns no row stale and leaves no stale
tag in its scope, and a second build edits nothing;
after a build from a green state the gate passes *if and only if* every flag keeps a receipt and every minted reason makes its
permanence claim. Three families of states show each part of the condition is needed:
two declarations of one file answering to the same Ruby name (they share a row),
two tags for one call (the comparer reads any of them, the migrator keeps the last),
and a curated reason without a permanence claim. On the last point the sources disagree: the comment on
`justifiesArgs` (`scripts/api-compare/build.ts`) says call tags need no claim, but `suppressedCallsIn` throws on
an argued call tag without one. The model follows the code.
Marks over dropped `throw`s are, after any history, the pointwise minimum of seed and measurements.

**Scanners and fixpoint** (`SourceStripper.dfy`, `RowWriteScope.dfy`, `ErrorManifest.dfy`). The stripper is tied to
a grammar of tokens that reads every source one way only, and what each token leaves in the output is stated: code
stands as it is. Its surviving parentheses are the code's,
its surviving backticks the outermost templates' delimiters. The comment that newlines survive every strip is not
true of the code: a quoted literal continued over a line end loses it; line numbers are kept exactly when no
quoted literal spans a line, and then every row write reported over the stripped source names a line of the
source it stands on. The scope scan reports exactly the writes that begin inside an unclosed test body, each once and
with its receiver. Its depth stacks are proved against a bracket stack
defined by balance alone, on balanced and unbalanced input. One thing its comment does not say: a
pending body call survives closing parentheses as well as blanks. The recognised-error loop computes
the least closed set.

`Ordering.dfy` and `Text.dfy` hold the host language's stable sort, code-unit order and string primitives.

## Reading the contracts

Host conventions are parameters: name mapping, alias tables, significance, argument similarity, the
`justifies` and permanence tests on reasons (`Policy`), the build oracle, the primary-zone lookup, the
classification of test-call columns (`Mark`). A theorem over a parameter holds for every value of it, subject
to the stated conditions. Loops that update variables are methods proved against specifications;
objects with caches or output lists are classes.

## Model

| member | source | states |
|---|---|---|
| Bisection.BisectPartitions | scripts/strip-asany.ts:189-208 | accepted plus kept is, as a multiset, the accepted before plus the group, for any test |
| Bisection.FailingGroupKeeps | scripts/strip-asany.ts:173-208 | a group keeps nothing exactly when it passed as one batch on top of what was accepted |
| Bisection.CeilLog2IsLeast | scripts/strip-asany.ts:180-181 | the logarithm of the build bound is the least exponent whose power of two reaches n |
| Bisection.TestBound | scripts/strip-asany.ts:173-208 | at most 1 + 2k⌈log2 n⌉ builds with k kept of n; nothing is kept exactly when there was one build and it accepted the whole group |
| Bisection.BisectEqualsGreedyIff | scripts/strip-asany.ts:184-188 | for any test, the search and the one-at-a-time loop give the same accepted and kept lists in order exactly when each prefix of the accepted list passes |
| Bisection.MonotoneBisectEqualsGreedy | scripts/strip-asany.ts:221-230 | under a test monotone on the candidates both lists equal the loop's, in order |
| Bisection.IndependentBisect | scripts/strip-asany.ts:173-183 | where each candidate passes or fails by itself the search accepts exactly those that pass and keeps exactly those that fail, both in their order |
| Bisection.KeptFailed | scripts/strip-asany.ts:195-204 | whatever the test, every kept candidate failed on top of some prefix of the final accepted list |
| Bisection.MonotoneAcceptsMaximal | scripts/strip-asany.ts:173-183 | under a test monotone on the candidates no selection of them that holds the accepted list and more passes |
| Bisection.NonMonotoneDiffers | scripts/strip-asany.ts:227-230 | without monotonicity the verdicts can differ |
| Bisection.BisectEndsPassing | scripts/strip-asany.ts:216-218 | a non-empty gain in the accepted list was itself a passing test |
| Bisection.AcceptedIsLastPassing | scripts/strip-asany.ts:216-217 | the accepted list is the argument of the last test that passed, for any test |
| Bisection.BisectSplitsCandidates | scripts/strip-asany.ts:218-219 | accepted and kept together are a permutation of the candidates and their counts add up |
| StripAsAny.ApplyCasts | scripts/strip-asany.ts:134-140 | the loop applies the removals in descending order of start |
| StripAsAny.AppliedIsSimultaneous | scripts/strip-asany.ts:129-140 | on disjoint spans, in whatever order given, the result is the simultaneous left-to-right substitution |
| StripAsAny.LeftmostApplied | scripts/strip-asany.ts:124-140 | the leftmost cast gives way to its replacement between the text left of it and what the other casts leave right of it; no cast leaves the text alone |
| StripAsAny.OutermostSelects | scripts/strip-asany.ts:106-122 | on laminar non-empty spans the filter leaves distinct, pairwise disjoint spans, and every span dropped is strictly enclosed by one kept |
| StripAsAny.OutermostPicks | scripts/strip-asany.ts:112-121 | the filter keeps, in their order, exactly the spans no other reaches around, on one side at least |
| StripAsAny.TreeIsLaminar | scripts/strip-asany.ts:71-104 | the spans a parsed file offers, whole parentheses or the text behind an operand, lie in the file and are nested or apart |
| StripAsAny.StripRun.Verify | scripts/strip-asany.ts:166-171 | the file becomes the attempted text, whatever the verdict |
| StripAsAny.StripRun.BisectAccept | scripts/strip-asany.ts:189-208 | the imperative search extends its two lists and its attempts exactly as the specified search does, on top of what was already accepted |
| StripAsAny.StripRun.StripFile | scripts/strip-asany.ts:232-245 | the file ends as the text of the last passing attempt, accepted plus kept is the filtered candidates, and the reported counts add up |
| StripAsAny.StripFileResult | scripts/strip-asany.ts:210-245 | for syntax-tree spans and any oracle: the final text is the simultaneous removal, it builds unless nothing was removed, within the build bound |
| StripAsAny.ParsedFileStrips | scripts/strip-asany.ts:60-245 | the same for every syntax tree, with no assumption on its spans |
| StripAsAny.AppliedNothing | scripts/strip-asany.ts:216-218 | accepting nothing restores the original text |
| TzdataIsdst.ParsePrinted | scripts/generate-tzdata-isdst.ts:85-86 | base-36 text of any integer, negative included, parses back to it |
| TzdataIsdst.ParseReads | scripts/generate-tzdata-isdst.ts:140-152 | a plus sign is no sign, capitals are digits too, and a text that begins with no digit is no number |
| TzdataIsdst.Base36Numerals | scripts/generate-tzdata-isdst.ts:85-86 | a numeral is its sign, its leading digits and its last digit, `0` to `9` and then `a` to `z` |
| TzdataIsdst.EncodeZone | scripts/generate-tzdata-isdst.ts:81-89 | the loop prints the initial bit and the deltas of the flips |
| TzdataIsdst.EncodedPush | scripts/generate-tzdata-isdst.ts:81-89 | a row is `1` or `0` and, behind a comma each, the distance of every flip from the one before it |
| TzdataIsdst.SerializeTable | scripts/generate-tzdata-isdst.ts:92-102 | one row for each zone that ever observes DST, in sorted order, between newlines |
| TzdataIsdst.TableIs | scripts/generate-tzdata-isdst.ts:92-102 | its lines are the ids ever on DST, in ascending order and as often as given, each with a blank and its row; a newline stands around the whole |
| TzdataIsdst.RowRoundTrip | scripts/generate-tzdata-isdst.ts:81-89 | a row decodes to exactly the flips it was encoded from, and its first character tells the initial bit |
| TzdataIsdst.RowParts | scripts/generate-tzdata-isdst.ts:125-135 | a line splits at its first blank; without one its key lacks the last character and its value is the line |
| TzdataIsdst.RowsReadBack | scripts/generate-tzdata-isdst.ts:125-135 | the split rows map exactly the kept zones, each to its own row |
| TzdataIsdst.TableLines | scripts/generate-tzdata-isdst.ts:125-135 | the trimmed and split table is the printed rows, the first without its leading white space |
| TzdataIsdst.ReadsHolder | scripts/generate-tzdata-isdst.ts:122-135 | under every key the reader finds the row of the zone that holds it: the first row's zone is lost from its id when `trim` shortens it, and holds the shortened key where no other kept zone does |
| TzdataIsdst.TzdataReader.Rows | scripts/generate-tzdata-isdst.ts:122-135 | the cached map is the parse of the table, before and after the first read |
| TzdataIsdst.TzdataReader.ZoneFlipInstants | scripts/generate-tzdata-isdst.ts:137-152 | the cached instants are the decoded row |
| TzdataIsdst.TzdataReader.ZoneRow | scripts/generate-tzdata-isdst.ts:154-175 | the cached lookup is the zone's row, else its primary zone's |
| TzdataIsdst.TzdataReader.TzdataIsdst | scripts/generate-tzdata-isdst.ts:185-199 | after any reads the binary search answers the parity of the initial bit and the count of instants passed |
| TzdataIsdst.AnswerOfEncoded | scripts/generate-tzdata-isdst.ts:185-199 | on an encoded row that answer is the transition list's |
| TzdataIsdst.HistoryCounts | scripts/generate-tzdata-isdst.ts:185-199 | that bit is the initial one, turned where an odd number of flips is not later than the instant |
| TzdataIsdst.ReaderAnswers | scripts/generate-tzdata-isdst.ts:92-199 | for every id, every host lookup and every table of ids without blank or newline: the history of the zone holding the id, or failing one of the zone holding what the host resolves it to |
| TzdataIsdst.ReaderAnswersHistory | scripts/generate-tzdata-isdst.ts:92-199 | where the first row does not begin with white space and the host resolves omitted zones alike, the reader gives each generated zone's own history |
| TzdataIsdst.RowsAscend | scripts/generate-tzdata-isdst.ts:140-199 | every row the reader can find, under any host lookup, decodes to ascending instants, which its binary search needs |
| TzdataIsdst.ZoneCorrectIff | scripts/generate-tzdata-isdst.ts:92-199 | on a host resolving every id to itself the reader is right about a zone at all instants exactly when the zone is not one of the at most two that `trim` harms |
| TzdataIsdst.ReaderCorrectIff | scripts/generate-tzdata-isdst.ts:92-199 | on such a host the reader is right about all zones at all instants exactly when the first row does not begin with white space |
| TzdataIsdst.SolidIff | scripts/generate-tzdata-isdst.ts:92-135 | the first row begins with white space exactly when the least id ever on DST does |
| TzdataIsdst.TabbedIdIsLost | scripts/generate-tzdata-isdst.ts:92-199 | with an id that begins with a tab beside the id without it, the reader is wrong about both zones at every instant |
| TzdataIsdst.GenerateAndRead | scripts/generate-tzdata-isdst.ts:92-199 | serialize, build a reader over the table, put any run of queries to it through its caches: every answer is the holder's history; where the first row is solid it is the history of the id if that is ever on DST, else that of the zone the host resolves it to, else false |
| CallClosure.ReachedSameFileMethods | scripts/api-compare/compare.ts:1004-1038 | the frontier loop returns exactly the ends of the call paths of at most that many edges, none for a negative depth |
| CallClosure.PathIff | scripts/api-compare/compare.ts:981-1035 | on a path every name is defined in the file and is neither `constructor` nor the body's own, the first is called by the body and each other by the one before, and no caller only reads the name off another object |
| CallClosure.ReachIsPaths | scripts/api-compare/compare.ts:1004-1038 | a name is in the closure at a depth exactly when a call path of at most that many edges ends at it |
| CallClosure.ReachMonotone | scripts/api-compare/compare.ts:983-1009 | deeper closures only add names |
| CallClosure.ExhaustedIsFull | scripts/api-compare/compare.ts:1023 | once the frontier is empty no greater depth adds a name |
| CallClosure.DeepEnoughIsFullClosure | scripts/api-compare/compare.ts:1004-1038 | at a depth of the file's number of methods the closure is the ends of all call paths |
| MissingCalls.SuppressedCallClaims | scripts/api-compare/compare.ts:496-519 | claimed are exactly the names the TS side carries that some significant, mapped call none of whose candidates is ported with arguments may be spelled as |
| MissingCalls.SignificantMissingCalls | scripts/api-compare/compare.ts:542-601 | flagged, in the order of the calls, are exactly those that pass the gates and that no unclaimed candidate, alias or negated alias on the TS side discharges, `super` by its own rule; each with its candidates |
| MissingCalls.NarrowedMeans | scripts/api-compare/compare.ts:444-456 | a call keeps every candidate, save a predicate beside its plain sibling: that keeps those the sibling does not map to, in order, unless none is left |
| MissingCalls.LargerViewOffersMoreIff | scripts/api-compare/compare.ts:553-565 | a larger TS view offers every spelling a smaller one did, claims subtracted, exactly when no ownable name was negated without the plain call |
| MissingCalls.FlagsAreAntitone | scripts/api-compare/compare.ts:542-601 | growing calls and negated calls, negated within calls, leaves the old flags filtered, nothing added |
| MissingCalls.NegatedOutsideCallsCanFlag | scripts/api-compare/compare.ts:594-597 | with a negated call outside the plain set, crediting a body with a call raises a flag |
| MissingCalls.EffectiveTsCalls | scripts/api-compare/compare.ts:1069-1085 | the merged set is the body's calls, its reached helpers' and, for a body of at most three calls that calls its own name, its delegates' |
| MissingCalls.TransparencyOnlySilences | scripts/api-compare/compare.ts:4083-4128 | helper closure, delegation and include graph with their negated calls only filter the flags of the body's own calls |
| MissingCalls.EffectStaysIff | scripts/api-compare/compare.ts:918-919 | when a body's own calls grow, every name effectively called stays so, for all delegates, files and helpers, exactly when the growth does not cost the body its wrapper status |
| MissingCalls.WrapperStatusCanBeLost | scripts/api-compare/compare.ts:894-919 | a wrapper of one call that makes three more is such a growth |
| MissingCalls.DeeperOnlySilences | scripts/api-compare/compare.ts:931-938 | a comparison whose closure follows more hops, with the negated calls of the helpers it adds, leaves the flags filtered in place and no more of them |
| MissingCalls.SeenSomething | scripts/api-compare/compare.ts:4083-4128 | at every depth there is what the comparison holds a body to: calls and negated calls of the body, its helpers, its delegate and the include graph |
| CallPairing.Enumerate | scripts/api-compare/call-args.ts:994-1007 | the candidates are exactly the name-compatible index pairs, each once, a TS `call` excluded |
| CallPairing.TakeGreedily | scripts/api-compare/call-args.ts:1011-1019 | the pass records exactly the greedily chosen candidates |
| CallPairing.PairCallSites | scripts/api-compare/call-args.ts:990-1024 | the output lists, in Ruby source order, a matching of compatible sites in which every compatible pair left out loses a site to one ahead of it: by similarity, then block affinity, then Ruby and TS position; it is the greedy matching of the sorted candidates |
| CallPairing.BestGoFirst | scripts/api-compare/call-args.ts:1008-1019 | a candidate left out loses a site to a chosen one with a greater similarity, or at a tie a greater affinity, or then an earlier place |
| CallPairing.ChosenIsStable | scripts/api-compare/call-args.ts:986-1019 | no chosen candidates share a site, and every unchosen one loses a site to one sorting before it |
| CallPairing.StableIsUnique | scripts/api-compare/call-args.ts:986-988 | a sorted candidate list has one such matching only |
| CallPairing.MatchingIgnoresEnumeration | scripts/api-compare/call-args.ts:986-988 | the matching does not depend on the order candidates were enumerated in |
| CallPairing.MatchedIsSound | scripts/api-compare/call-args.ts:990-1024 | the matching is injective and pairs compatible sites only |
| CallPairing.PairsTheScarcerSide | scripts/api-compare/call-args.ts:982-985 | a name whose spellings no other name shares pairs min(Ruby, TS) sites |
| CallPairing.OutputPairsTheScarcerSide | scripts/api-compare/call-args.ts:1020-1024 | the emitted list holds that many pairs of the name |
| ArgDescriptors.EscapeRoundTrip | scripts/api-compare/extract-ts-api.ts:4616-4623 | unescaping inverts escaping on every text |
| ArgDescriptors.UnescapeReads | scripts/api-compare/call-args.ts:312-316 | exactly the five escapes give way to their characters, left to right; every other character stands |
| ArgDescriptors.EscapeHidesDelimiters | scripts/api-compare/extract-ts-api.ts:4616-4623 | escaped text carries none of the grammar's delimiters |
| ArgDescriptors.SplitPairs | scripts/api-compare/call-args.ts:280-295 | the loop cuts the body at its commas of depth zero |
| ArgDescriptors.PiecesRejoin | scripts/api-compare/call-args.ts:280-295 | the pieces of any body, joined with commas, are the body |
| ArgDescriptors.SplitsIntoEntries | scripts/api-compare/call-args.ts:275-295 | a body printed from entries splits into exactly their texts |
| ArgDescriptors.ParsePrinted | scripts/api-compare/call-args.ts:297-336 | a printed descriptor tree, unary nesting included, comes back by splitting, parsing and unescaping where no keyword's value shows a comma and no key holds an equals sign |
| ArgDescriptors.ParsePrintedIff | scripts/api-compare/call-args.ts:275-336 | of the trees the extractors print exactly those come back |
| ArgDescriptors.CommaOperatorIsLost | scripts/api-compare/extract-ts-api.ts:4441-4446 | the print of a keyword whose value is a comma expression does not come back |
| ArgDescriptors.SeparatorGlobalIsLost | scripts/api-compare/extract-ruby-api.rb:3640 | the print of a keyword whose value is the global `$,` does not come back |
| ArgDescriptors.SetterKeyIsLost | scripts/api-compare/extract-ruby-api.rb:3740-3746 | the print of a keyword whose key is a setter's symbol does not come back |
| ArgDescriptors.NormalizeArgOrFailure | scripts/api-compare/call-args.ts:359-375 | the dispatch and its recursion return the one normal form or failure the next rows describe for every descriptor |
| ArgDescriptors.ScalarForms | scripts/api-compare/call-args.ts:359-375 | `id:` and `call:` are compared by one reference form, a constant and a literal of the four kinds by theirs, the literal unescaped; no other kind has a form |
| ArgDescriptors.WordForms | scripts/api-compare/call-args.ts:360-366 | of the words without a colon `nil` alone has a form |
| ArgDescriptors.KwargsKeyShows | scripts/api-compare/call-args.ts:326-337 | where every piece names a keyword whose value has a form, the key shows these pairs, each once, in ascending order between its braces |
| ArgDescriptors.KwargsFail | scripts/api-compare/call-args.ts:330-334 | otherwise the first piece that does not decides the failure: opaque without an equals sign, else its value's |
| ArgDescriptors.NormalizeKwargs | scripts/api-compare/call-args.ts:326-337 | keys mapped, values normalised, pairs sorted and joined, the first failure returned |
| ArgDescriptors.NormalizePairs | scripts/api-compare/call-args.ts:328-335 | the loop stops at the first pair without `=` or with a failing value |
| ArgDescriptors.FormOfKwargs | scripts/api-compare/call-args.ts:326-337 | the normal form of any printed kwargs is built from what its entries are read as, each by its own pieces, or is the first failure among them |
| ArgDescriptors.FormOfEntriesIff | scripts/api-compare/call-args.ts:326-337 | it is built from the entries' own forms exactly when every entry prints as one piece cut at its key, or an earlier entry has no form, or the entries fail by themselves for the same reason; key and no key agree exactly when every entry does or some entry has no form |
| ArgDescriptors.UncleanFormsAreLost | scripts/api-compare/call-args.ts:326-337 | the prints of the global `$,` and of a setter key have no form although their entries have |
| ArgDescriptors.ShuffleKeepsForm | scripts/api-compare/call-args.ts:322-324 | permuting kwargs at any depth of any printed tree leaves a normal form unchanged, and a descriptor without one stays without one |
| ArgDescriptors.ReorderKeepsForm | scripts/api-compare/call-args.ts:322-324 | kwargs written with the same entries in two orders, at the top or below a keyword, have one key or none both |
| MixinWalks.MemoWalk.Visit | scripts/api-compare/compare.ts:3596-3625 | one call of the memoised walk: a visited node is cached or on the stack, the answer is sound, and exact for a node that reaches no cycle |
| MixinWalks.MemoWalk.Query | scripts/api-compare/compare.ts:3627-3629 | a root query on a shared cache answers the transitive closure of a root that reaches no cycle, whatever was queried before |
| MixinWalks.MemoWalk.QueryAll | scripts/api-compare/compare.ts:3712-3714 | every root queried in turn ends cached, all answers as required |
| MixinWalks.AcyclicIff | scripts/api-compare/compare.ts:3596-3625 | a node reaches no cycle exactly when no path from it comes to one node twice |
| MixinWalks.InheritedExactly | scripts/api-compare/compare.ts:3597-3625 | where no cycle lies above an entity its inherited surface is exactly its own methods and its ancestors' |
| MixinWalks.BuildModuleIncluderFqns | scripts/api-compare/compare.ts:2523-2537 | the includer graph joins a module to exactly the entities whose includes or extends resolve to it |
| MixinWalks.MixedInByIff | scripts/api-compare/compare.ts:2523-2537 | an edge joins a module to an entity exactly when a name the entity includes or extends resolves to the module in its context |
| MixinWalks.Flattening.Walk | scripts/api-compare/compare.ts:2579-2594 | the walk marks the resolved module, keeps the visited set closed under live includes, and pushes only onto the sink it was called for |
| MixinWalks.Flattening.FlattenIncludedMethodInfos | scripts/api-compare/compare.ts:2541-2600 | the instance list holds exactly the host's instance methods, without a file, and those of the ported modules on chains from its includes, with theirs; the class list its class methods and the instance methods of the ported modules on chains from its extends and on no include chain; each module once; no extended module is lost exactly when none is also included |
| MixinWalks.SinkLayout | scripts/api-compare/compare.ts:2590-2593 | a list is the host's methods and then, module after module, each module's methods together in the module's order, and nothing else |
| MixinWalks.SinkHolds | scripts/api-compare/compare.ts:2590-2593 | exactly the methods such a list holds |
| MixinWalks.IncludedByIff | scripts/api-compare/compare.ts:2583-2594 | a module contributes where the package knows it and does not decline its file, and goes on to what its include names resolve to in its own context |
| MixinWalks.ClosedHoldsMixed | scripts/api-compare/compare.ts:2579-2597 | a visited set closed under live includes holds every module a chain of includes mixes in |
| MixinWalks.ChainRunsBackwards | scripts/api-compare/compare.ts:3685-3710 | a chain of includes from a host runs backwards in the includer graph |
| MixinWalks.SurfaceWithinSearchSet | scripts/api-compare/compare.ts:3689-3710 | where no cycle of the includer graph is reached from the module, the host's file is among the includer files of every module its includes or extends mix in |
| MixinWalks.IncluderFilesExactly | scripts/api-compare/compare.ts:3685-3710 | where no include cycle lies above it, a module's includer files are exactly those of the entities that mix it in at any remove |
| MixinWalks.SearchSurface | scripts/api-compare/compare.ts:3676-3714 | building the includer graph, flattening the host and resolving every module's includer files on one cache: each module in the two sinks has the host's file among its includer files, where no include cycle lies above it |
| IncludeGraph.ChaseOrigin | scripts/api-compare/include-graph.ts:71-80 | the loop returns the specified origin, on cyclic re-exports too |
| IncludeGraph.OriginPath | scripts/api-compare/include-graph.ts:71-80 | the chase follows recorded re-exports, each key once, and ends at a declaration, at an unknown key or at a key it has followed |
| IncludeGraph.BarrelsShareOrigin | scripts/api-compare/include-graph.ts:59-62 | every barrel along a chain of re-exports collapses onto the declaration at its end |
| IncludeGraph.BuildIncludeGraph | scripts/api-compare/include-graph.ts:64-98 | the loop builds the specified indexes, and each name lists the origins of its entities, one to a key; the next rows read both off the input |
| IncludeGraph.FileLists | scripts/api-compare/include-graph.ts:83-86 | a file lists exactly its entities, in the order given; entities without a file stand nowhere |
| IncludeGraph.NameLists | scripts/api-compare/include-graph.ts:82-98 | a name lists the origins of its entities that have a file, each where its key first comes up |
| IncludeGraph.KeyHeld | scripts/api-compare/include-graph.ts:68-70 | the keys re-exports are chased by are exactly those of the entities that have a file |
| IncludeGraph.LastHeld | scripts/api-compare/include-graph.ts:68-70 | a key stands for the last such entity that has it |
| IncludeGraph.TargetsAreOrigins | scripts/api-compare/include-graph.ts:82-98 | the targets a name lists are exactly the origins of its entities, one to a key |
| IncludeGraph.UniqueIffOneOrigin | scripts/api-compare/include-graph.ts:59-62 | a name resolves uniquely exactly when all its declarations share one origin |
| IncludeGraph.IncludeGraphEntities | scripts/api-compare/include-graph.ts:121-148 | on every index, cyclic or not, the worklist ends with exactly the entities outside the file that chains of uniquely resolving names reach |
| IncludeGraph.ChainIff | scripts/api-compare/include-graph.ts:125-143 | a chain starts at a name an entity of the file includes, extends or, where asked, delegates to, and goes on from the one entity each name stands for |
| IncludeGraph.NamedIsLeast | scripts/api-compare/include-graph.ts:106-148 | the seen names are the least set holding the roots' edges and closed under resolution |
| IncludeGraph.IncludeGraphHosts | scripts/api-compare/include-graph.ts:159-180 | the hosts are the file's entities whose own closure names the module, resolvable or not |
| IncludeGraph.ClosureNames | scripts/api-compare/include-graph.ts:166-177 | one entity's walk tells whether its closure names the module |
| IncludeGraph.ClosureIsUnion | scripts/api-compare/include-graph.ts:155-158 | the file-wide closure is the union of its entities' closures |
| IncludeGraph.DelegationOnlyAdds | scripts/api-compare/include-graph.ts:117-119 | following delegation only adds names |
| CallReceipts.ApplyCallTags | scripts/api-compare/compare.ts:1878-1915 | one pair's flags split, in order and with repetitions, into those no visible tag names and one receipt for each of the others |
| CallReceipts.SurvivingPicks | scripts/api-compare/compare.ts:1878-1915 | what survives of a pair's calls is, in order and with repetitions, those without an arguing tag |
| CallReceipts.StaleCallTags | scripts/api-compare/compare.ts:1952-1983 | stale are the visible tags on recorded declarations that suppressed nothing |
| CallReceipts.MismatchesSurvive | scripts/api-compare/compare.ts:4175-4215 | the mismatches hold exactly the flagged calls no visible tag names, and no empty entry |
| CallReceipts.SuppressionsBuy | scripts/api-compare/compare.ts:4175-4215 | the receipts hold exactly the flagged calls a visible tag names |
| CallReceipts.Compare | scripts/api-compare/compare.ts:4175-4215 | every flagged call ends, in order, in exactly one of mismatches and suppressions, stale tags are those on compared declarations no pair flags, and an unclaimed argued tag fails the comparison |
| CallReceipts.ComparesMeans | scripts/api-compare/compare.ts:4175-4215 | call by call: a flagged call is a mismatch or suppressed by whether some tag on its declaration argues for it, and such a tag is stale exactly where the declaration is compared and no Ruby name flags the call |
| CallReceipts.MismatchesPick | scripts/api-compare/compare.ts:4175-4215 | each pair with a surviving call is one mismatch, in the order of the pairs |
| CallReceipts.SuppressionsInOrder | scripts/api-compare/compare.ts:1890-1905 | a suppressed call is a receipt of its own, in the order pairs and calls stand |
| CallBaseline.FlattenArtifact | scripts/api-compare/call-mismatch-baseline.ts:182-195 | the keys of the surviving flags, in order, repetitions kept |
| CallBaseline.FlattenedKeys | scripts/api-compare/call-mismatch-baseline.ts:182-195 | a key is listed exactly when some surviving flag reads as it |
| CallBaseline.FlattenedInOrder | scripts/api-compare/call-mismatch-baseline.ts:182-195 | keys stand in the order of the flags and their calls, each with package, file, Ruby name and call |
| CallBaseline.DiffAgainstBaseline | scripts/api-compare/call-mismatch-baseline.ts:204-214 | added are, in order, the keys without a row, stale the rows without a key |
| CallBaseline.DiffPicks | scripts/api-compare/call-mismatch-baseline.ts:204-214 | added and stale are exactly the keys no row has and the rows whose key is not there, both in their order |
| CallBaseline.FindDuplicateKeys | scripts/api-compare/call-mismatch-baseline.ts:265-274 | reported are exactly the keys of two rows |
| CallBaseline.Gate | scripts/api-compare/lint-call-mismatches.ts:736-824 | the gate passes exactly when rows are a one-to-one record of the surviving flags and no tag is stale |
| CallBaseline.GreenMeans | scripts/api-compare/lint-call-mismatches.ts:736-824 | green is: no stale tag, no key in two rows, a row for every surviving call of every flag and such a call behind every row |
| CallBaseline.KeyOfInjective | scripts/api-compare/call-mismatch-baseline.ts:171-173 | without blanks in package, file and Ruby name the key text determines the key |
| CallBaseline.Reseed | scripts/api-compare/call-mismatch-baseline.ts:243-260 | one row for each key, sorted, its reason the last one the old rows gave it or the seed |
| CallBaseline.LastReasonIs | scripts/api-compare/call-mismatch-baseline.ts:243-260 | the reason a key keeps is that of its last row |
| CallBaseline.SortedByText | scripts/api-compare/call-mismatch-baseline.ts:171-173 | rows stand in code-unit order of package, file, Ruby name and call with blanks between |
| CallBaseline.ReseedTurnsGreen | scripts/api-compare/call-mismatch-baseline.ts:236-260 | a reseed leaves nothing to report, keeps every surviving row's reason, and keeps the rows of a green baseline |
| TagMigrator.BuildExpectations | scripts/api-compare/build.ts:656-689 | an in-scope declaration is expected to carry every call flagged or suppressed there, under every Ruby name matched onto it, the names in the artifact's order |
| TagMigrator.RubyNamesAre | scripts/api-compare/build.ts:656-689 | the names gathered for a declaration are exactly those of its flags |
| TagMigrator.FirstCurated | scripts/api-compare/build.ts:370-382 | a reason justifies exactly when some Ruby name has a curated row for the call, and is then that row's |
| TagMigrator.Reconcile | scripts/api-compare/build.ts:206-229 | kept is the last tag of each expected call, minted the curated ones inside the cluster, skipped the rest; dropped what is not expected |
| TagMigrator.RenderedAscending | scripts/api-compare/build.ts:273 | kept and minted tags stand together in call order, each call once |
| TagMigrator.Retag | scripts/api-compare/build.ts:541-632 | a declaration keeps or mints what the artifact expects of it, or where it expects nothing, keeps what is not stale |
| TagMigrator.Tagged | scripts/api-compare/build.ts:605-610 | migrated are the keys of each Ruby name whose declaration now carries an argued tag for the call |
| TagMigrator.Build | scripts/api-compare/build.ts:935-1045 | every opened declaration is retagged and exactly the rows of migrated keys are dropped; tags change only in the package and, with a file asked for, in that file, rows go only there, and with calls named no other call gains a tag |
| TagMigrator.WithoutPicks | scripts/api-compare/build.ts:1045 | the rows left are exactly those of keys not migrated, in their order |
| TagMigrator.FlaggedRowMints | scripts/api-compare/build.ts:206-229 | a flagged call in the package and file asked for, allowed, untagged and argued by its one row, comes out tagged and the row goes |
| TagMigrator.FlaggedTagsStay | scripts/api-compare/build.ts:206-229 | on a declaration flagged in scope the last tag of each flagged call stays and no tag of another call does |
| TagMigrator.UnflaggedTagsStay | scripts/api-compare/build.ts:541-632 | on one that nothing is flagged on the last tag of a call stays unless it is reported stale, and nothing is added |
| CallRatchet.GateChecksGreen | scripts/api-compare/lint-call-mismatches.ts:736-824 | on the comparer's artifact the gate passes exactly at a green state |
| CallRatchet.ExpectationsOfPairs | scripts/api-compare/build.ts:649-689 | expectations depend on the flagged pairs alone, not on which flags tags suppress |
| CallRatchet.FlaggedArgues | scripts/api-compare/build.ts:587-611 | after a build a flagged call stands under an arguing tag exactly when its last tag argued or it could be minted |
| CallRatchet.MigratedAreRetired | scripts/api-compare/build.ts:605-610 | the migrated keys are exactly those some declaration will argue for |
| CallRatchet.RowsStayLive | scripts/api-compare/build.ts:1045 | from any state, a row a build leaves still stands for an outstanding flag if it did before |
| CallRatchet.NoStaleTagSurvives | scripts/api-compare/build.ts:587-593 | no stale tag survives a build in its scope, from any state |
| CallRatchet.ReceiptsIff | scripts/api-compare/build.ts:587-611 | no surviving flag lacks a row after a build exactly when every flag will argue or keep a row nothing retires |
| CallRatchet.ExtractableIff | scripts/api-compare/missing-rails-call-tags.ts:238-254 | the next comparison can read the tags exactly when every minted reason makes a permanence claim |
| CallRatchet.GreenAfterBuildIff | scripts/api-compare/build.ts:541-1045 | from a green state the gate passes after a build exactly when every flag keeps a receipt and every mint is classified |
| CallRatchet.OrderlyKeepsReceipts | scripts/api-compare/build.ts:605-610 | where Ruby names are not shared within a file and tags come one to a call, no flag loses its receipt, however many Ruby names a declaration has |
| CallRatchet.OrderlyIff | scripts/api-compare/build.ts:605-610 | these conditions, read off the flags, tags and rows |
| CallRatchet.RunsStayGreen | scripts/api-compare/build.ts:206-229 | where Ruby names are not shared within a file, tags come one to a call and curated reasons make their claim, green stays green through any run of builds at any scopes |
| CallRatchet.BuildAndGate | scripts/api-compare/build.ts:888-1045 | comparing, building, comparing and gating reports green exactly when the built state is green, always so from an orderly green state; outside the package, or the one file asked for, no tag changes and no row goes |
| CallRatchet.SettledAgain | scripts/api-compare/build.ts:206-229 | a second reconciliation mints nothing the first declined to |
| CallRatchet.SecondBuildEditsNothing | scripts/api-compare/build.ts:649-655 | a second comparison and build change no tag and no row, from any state |
| CallRatchet.SharedRowTurnsRed | scripts/api-compare/build.ts:1045 | two declarations sharing a row: a tag minted on one reds the other |
| CallRatchet.DuplicateTagTurnsRed | scripts/api-compare/build.ts:212 | a seed tag after an argued one for the same call reds a green state |
| CallRatchet.UnclaimedReasonTurnsRed | scripts/api-compare/missing-rails-call-tags.ts:238-254 | minting an argued reason without a permanence claim makes the next comparison throw |
| ArmThrowMark.Measure | scripts/api-compare/arm-throw-mark.ts:92-103 | each gated package's total and its files' counts are the numbers of its rows that drop a `throw`, in all and by file |
| ArmThrowMark.Dimensions | scripts/api-compare/arm-throw-mark.ts:113-121 | the total first, then the files of mark and measurement, each once, in code-unit order |
| ArmThrowMark.DifferingAreCompared | scripts/api-compare/arm-throw-mark.ts:113-121 | every dimension on which mark and measurement differ is listed |
| ArmThrowMark.Exceedances | scripts/api-compare/arm-throw-mark.ts:124-135 | reported are exactly the dimensions of packages gated, marked and measured whose measurement is above the mark, with both values |
| ArmThrowMark.StaleMarks | scripts/api-compare/arm-throw-mark.ts:140-151 | reported are exactly those whose measurement is below the mark, with both values |
| ArmThrowMark.ViolationsReport | scripts/api-compare/arm-throw-mark.ts:124-151 | the ordered report holds exactly the compared dimensions wanted, under any test that wants none without a change |
| ArmThrowMark.ViolationsInOrder | scripts/api-compare/arm-throw-mark.ts:113-151 | reports go package by package as gated, in each the total before the files, those in ascending order |
| ArmThrowMark.NarrowFiles | scripts/api-compare/arm-throw-mark.ts:179-183 | a file's mark becomes the minimum, and no zero is written |
| ArmThrowMark.Tightened | scripts/api-compare/arm-throw-mark.ts:173-187 | packages gated, marked and measured get the smaller of mark and measurement, in total and file by file, no zero written; all others keep their mark |
| ArmThrowMark.TighteningKeepsExceedances | scripts/api-compare/arm-throw-mark.ts:170-187 | tightening reports the same exceedances as before and leaves no slack |
| ArmThrowMark.GreenTighteningEmptiesReports | scripts/api-compare/arm-throw-mark.ts:124-187 | tightening at a green state empties both reports |
| ArmThrowMark.RunGoesOn | scripts/api-compare/arm-throw-mark.ts:124-187 | any history goes on with a merge that measured nothing above its mark, and with any tightening |
| ArmThrowMark.MarkIsMinimum | scripts/api-compare/arm-throw-mark.ts:170-187 | after any history a mark is the minimum of its seed and the measurements tightened to |
| ArmThrowMark.MergesNeverExceedHistory | scripts/api-compare/arm-throw-mark.ts:124-187 | no green merge measured more than the seed or any earlier tightening |
| SourceStripper.StripCommentsAndStrings | scripts/non-transactional-row-writes.ts:123-188 | the output shows, token by token, the one reading the grammar gives the whole source |
| SourceStripper.TokenShown | scripts/non-transactional-row-writes.ts:109-188 | where a token stands in the output: code as it is, template text as it is but for parentheses, a comment as blanks with its newlines, a quoted literal as its two quotes, and what escapes, `${`, `}` and backticks leave |
| SourceStripper.InterpolationReads | scripts/non-transactional-row-writes.ts:123-188 | wherever a template's text is read, an interpolation of plain code whose braces pair up ends at the first brace that is unpaired, and leaves the nesting as it found it |
| SourceStripper.TemplateReads | scripts/non-transactional-row-writes.ts:123-188 | wherever code is read, in another template's interpolation too, a template of plain text is its two backticks and the text between, and leaves the nesting as it found it |
| SourceStripper.PlainCodeStands | scripts/non-transactional-row-writes.ts:123-188 | a source without a slash, quote or backtick comes out unchanged |
| SourceStripper.NextToken | scripts/non-transactional-row-writes.ts:131-185 | the branch taken at a position yields a token the grammar allows there |
| SourceStripper.BlockEnd | scripts/non-transactional-row-writes.ts:149-155 | a block comment ends at its first end, or with the source |
| SourceStripper.QuoteEnd | scripts/non-transactional-row-writes.ts:163-169 | a quoted literal ends at its first unescaped quote, or with the source |
| SourceStripper.FramesAlternate | scripts/non-transactional-row-writes.ts:124-185 | the stack alternates templates and interpolations, a template at the bottom |
| SourceStripper.ParensAreCode | scripts/non-transactional-row-writes.ts:113-117 | the parentheses left are those of the code, in order |
| SourceStripper.TicksDelimit | scripts/non-transactional-row-writes.ts:118-121 | the backticks left are the outermost delimiters, so an odd number stands before a place exactly inside a template |
| SourceStripper.LinesLost | scripts/non-transactional-row-writes.ts:108-111 | the newlines lost are exactly those inside quoted literals |
| SourceStripper.LineNumbersKeptIff | scripts/non-transactional-row-writes.ts:108-111 | every place keeps its line number exactly when no quoted literal spans a line |
| SourceStripper.PlaceInSource | scripts/non-transactional-row-writes.ts:108-111 | where no quoted literal spans a line, every character of code or template text left stands on the source line its output line names |
| SourceStripper.OneReading | scripts/non-transactional-row-writes.ts:123-188 | two token lists the grammar allows for one source are equal |
| SourceStripper.ContinuedLiteralLosesALine | scripts/non-transactional-row-writes.ts:163-169 | a literal continued over a line end is a line shorter in the output |
| RowWriteScope.OpenDepths | scripts/non-transactional-row-writes.ts:263-265 | open parentheses stand one depth apart, the innermost at the current depth |
| RowWriteScope.DepthsIncrease | scripts/non-transactional-row-writes.ts:259-324 | on every input both depth stacks strictly increase up to at most the current depth, and reach it exactly when the innermost parenthesis has the role |
| RowWriteScope.AwaitedStep | scripts/non-transactional-row-writes.ts:291-313 | a body call stays pending over blanks and closing parentheses and nothing else |
| RowWriteScope.StepOpen | scripts/non-transactional-row-writes.ts:298-304 | an opening parenthesis is pushed by its role, a table's rows before a body |
| RowWriteScope.StepClose | scripts/non-transactional-row-writes.ts:305-313 | a closing parenthesis pops the innermost open one, or nothing when none is open |
| RowWriteScope.StepTick | scripts/non-transactional-row-writes.ts:286-297 | the template flags are the parity of the backticks and whether the open one began a table |
| RowWriteScope.OpenIffUnclosed | scripts/non-transactional-row-writes.ts:298-313 | a parenthesis is open exactly when the balance after it never returns to zero |
| RowWriteScope.InBodyIffUnclosed | scripts/non-transactional-row-writes.ts:240-258 | a place is at test scope exactly when a body's parenthesis before it is unclosed there |
| RowWriteScope.Advance | scripts/non-transactional-row-writes.ts:284-315 | one column keeps the scan's variables equal to what the columns before it determine |
| RowWriteScope.ReceiverAt | scripts/non-transactional-row-writes.ts:252-257 | the receiver is the longest run of identifier characters before a dotted pattern, and nothing before another |
| RowWriteScope.RowWritesAtItScope | scripts/non-transactional-row-writes.ts:259-324 | for every line, column and pattern: a write is reported exactly when the pattern begins there while a test body's parenthesis is open, once, in that order, with its line and the longest word before a dotted pattern as its receiver |
| RowWriteScope.WriteStands | scripts/non-transactional-row-writes.ts:315-321 | every reported write begins as its pattern does, at a place inside an unclosed test body on the line reported |
| RowWriteScope.EveryWriteIsReported | scripts/non-transactional-row-writes.ts:315-321 | no such place is passed over: there is one reported write for each |
| RowWriteScope.ReportRowWrites | scripts/non-transactional-row-writes.ts:108-324 | stripping a source, splitting it into lines and scanning these with their marks: the report is over the one reading of the source, and where no quoted literal spans a line every write's line is a source line holding the first character of its pattern |
| ErrorManifest.GrowKnown | scripts/build-rails-error-manifest.ts:125-145 | the loop ends with the least set that holds the roots and the names of errors files and, with a parent, every class under it, a qualified parent counting only if it is a root |
| ErrorManifest.OrderIrrelevant | scripts/build-rails-error-manifest.ts:134-145 | the set does not depend on the order or repetition of declarations |
| ErrorManifest.RecognisedIffDerived | scripts/build-rails-error-manifest.ts:128-145 | a class is recognised exactly when a line of unambiguous parents joins it to a seed |
| ErrorManifest.Emit | scripts/build-rails-error-manifest.ts:147-156 | each recognised name in the namespace is held once, as its last `errors.rb` declaration or else its first |
| ErrorManifest.ReportedOnce | scripts/build-rails-error-manifest.ts:147-155 | a name has at most one declaration it is reported from |
| ErrorManifest.ScanEmitted | scripts/build-rails-error-manifest.ts:147-156 | the package's entries are one for each recognised name in the namespace, sorted under the collation: its last declaration in an errors file or, where it has none, its first |
| Ordering.SortBySorted | scripts/strip-asany.ts:136 | the host's sort orders its input under any total preorder |
| Ordering.SortIgnoresOrder | scripts/api-compare/call-args.ts:1008-1010 | without ties the sort forgets the order its input came in |
| Ordering.StringLeIff | scripts/api-compare/arm-throw-mark.ts:120 | strings compare as prefixes or by the code unit where they first differ |
| Text.SplitJoin | scripts/generate-tzdata-isdst.ts:126-128 | splitting joined separator-free parts gives the parts back |

## Left out

- Directory walks, `tsc`, `ruby`, `git`, ESLint and JSON files: only the data passed through them is modelled.
- Parsing and regular-expression scraping: syntax trees with their removable casts, declarations, call sets, edges, flags and the columns `IT_CALL` matches are inputs.
- SerializeTable: the module text around the table and the template literal's own cooking (backslash, backtick, `${`, carriage return) are not modelled.
- TzdataReader.TzdataIsdst: numbers are unbounded integers and instants reals; double precision and UTF-16 code units are not modelled.
- The host's primary-zone lookup is a function; its exception path returns the id itself, which is one of its possible values.
- PairCallSites: argument similarity and block affinity are given scores, their computation is not modelled.
- `comparableRubySites`, `reorderedCalls`, `selectMisplacedFile`, arity ranges and the argument-equality rules.
- EffectiveTsCalls: whether a delegate's calls are those of the right same-named method is the caller's lookup.
- ReachedSameFileMethods: the memo of foreign-read sets is a pure function here.
- NormalizeArgOrFailure: reference, constant and literal normalisation are tables; injectivity of the normal form is not claimed, which of several failures is returned does depend on the order of kwargs, and a kind spelled like a property every object has, such as `constructor`, counts as no literal kind.
- MemoWalk.Query: for a root that reaches a cycle the answer is proved sound only; the code can cache partial sets there.
- InheritedExactly: entities sharing a cache key and ambiguous parents are not modelled, an entity is its key.
- ApplyCallTags: a receipt's reason, which only the report prints, is dropped.
- StaleCallTags: a declaration is one key; the unresolved-owner, top-level and file-module fallbacks of the lookup, and declarations living in another file than their row's, are not modelled, and stale tags are a set without its sorted order.
- Compare: the comparison of CallReceipts looks declarations up by the same one key.
- Build: comment rendering and line wrapping, so a tag is its call and reason; duplicates among one file's declarations of one name; the unreviewed high-water marks; the call-argument variant.
- Reseed: splitting rows into shard files and the rows of other kinds, which it writes back untouched.
- Gate: an artifact of partial scope, files not in canonical form and unreviewed counts above or below their marks also fail the gate; these arms are not modelled.
- Measure: the committed list of gated packages is a parameter; packages missing from the measurement or the marks are not reported here.
- RowWritesAtItScope: the write patterns are a parameter, required only not to begin with a parenthesis or a backtick.
- StripCommentsAndStrings: regular-expression literals are read as code, as the source reads them.
- Report printing, exclude-file validators, manifests' diffs, the website and package configuration.
