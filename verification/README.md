# Verified model of rio-build's CI planner, Rust pruner, model policy and tokens

The project models the parts of rio-build that decide things: how CI work is sharded, how Rust source is lexed and
stripped of test code, which files and which model definitions count, and how tokens are signed and checked. Each part
is written in Dafny in the form the source has, a loop where the source loops and a function where it computes, and its
promises are proved for every input, every run or every reachable state.

`dafny verify dfyconfig.toml` checks all of it.

## The CI planner (`nix/gen_matrix.py`)

Evaluation yields uncached entries, each with the drvs it needs. Entries are grouped into clusters per kind. A drv that
two clusters need is *trunk*. The trunk falls into components (`Trunk`, `Components`), components are packed into at most
four warm shards (`Packing`, over `Makespan`), and the clusters become matrix jobs that either wait for the warm stage or
do not (`Clusters`, `FormalShards`, `Matrix`; `JoinedMatrix` is their space-joined text form). `WarmStage` is the CI run
as a state machine in which shards and jobs build drvs in any interleaving and a gated job substitutes only what the
shards have uploaded. `Pipeline` shows that what the planner emits is a plan of that machine. `ClusterFacts`,
`ClusterOrder`, `PlanFacts` and `WarmFacts` say what is emitted in terms of the results alone, with the kinds, prefixes,
budgets and limits written out.

Main results: the union-find yields exactly the classes of "some cluster needs both"; the packer is within
(4m-1)/(3m) of any other assignment, and for every m it attains that (`Sharpness`); no entry is dropped or scheduled
twice; a check or proof waits exactly if it needs a drv that entries of two clusters need, and every entry is in the
matrix, the job and under the name that the results give it (`PlanPlaces`); no interleaving builds a drv twice across
clusters or gets stuck.

Two of these have limits, and the code is followed. The last one stops at distinct clusters: the two halves of one split
cluster can build the same drv. `RaceExactly` says when, and `SplitRace` gives the clusters on which it happens and an
evaluation of three entries as an instance. Conservation holds of the lists. Of the text that the matrices carry it
holds if and only if every name and drv is non-empty and free of whitespace (`DeliveredExactly`); an attribute without a
dot has an empty name and is lost (`NamelessEntryIsDropped`).

## The Rust lexer and the test pruner (`nix/rust_strip.py`, `nix/string_interior_spaces.py`)

`Lexer` is the token walk, `LexerRun` its loop over a character buffer. `Delimiters` matches brackets, `Extent` finds
where the item under an attribute ends, `CfgPredicate` evaluates `cfg` predicates, `Prune` blanks what is gated to tests,
and `ExtentRun` holds the loops. `EscapeParity` is the backslash scan of the string checker. `LexedKinds`, `Constructs`,
`Attributes`, `GatedItems` and `TableTrees` state the answers on the text itself, by token kind, keyword and spelling.

Main results: rendering tokens and lexing them gives the tokens back; blanking between visited positions commutes with
lexing, so pruning commutes with lexing; every pruned region is well nested and so is what remains; the first deciding
character at its own level ends an item or a field; past any qualifiers the keyword decides what is opened, and a test
gate before `mod name {` cuts exactly to the partner of that brace (`GatedModuleText`); the cfg evaluator finds exactly a `test` under `any` and `all`; the
backward escape test agrees with the forward walk.

Two promises are narrower than the documentation suggests, and the code is followed. Pruning commutes with lexing if and
only if the pass is cut short by a refusal or a file-wide gate, or every region starts where the token walk stands or
inside an earlier region (`PruneCommutes`). `PruneWitness` gives a text on which it does not: the attribute's `#` is the
mark that closes a raw string. The spelling table agrees with the evaluator on every single predicate. On comma lists
`TableExact` says exactly when it does, for every text the table has a verdict on: behind a plain name or `not(...)` it
misses every later gate, and behind `all(...)` or `any(...)` it takes items of later groups for items of the first.
`SpellingLists` has one list for each case; the last is over-reported, the others are missed.

## Test scope (`nix/fixture_provenance.py`, `nix/rust_strip.py`)

`ModuleFiles` resolves module declarations to files, `ScopeGraph` and `ScopeWalk` are the walk from the crate roots whose
production verdicts can be upgraded to test, `ModuleGraph` is the fixpoint loop of the census resolver, and `ModulePaths`
says what the file-name rules mean on paths. Both results are characterised by paths of declarations and as least sets
closed under the rules, so neither depends on any iteration order. The resolver's documentation says
"only" through gated declarations; the code counts a file as test code when one such way in exists, and so does the model.

## The model corpus (`nix/quint_policy.py`)

`ModelNames` resolves names across imports and says which names an expression mentions, `Corpora` is the class with its two memo tables, `ReadSets` holds what the
memoised search keeps true, `ConjLeaves` is the expansion of invariants into leaves. From any sound cache, the read set
is exactly what uncached names own and the first cached names met hold. So it is never too large, and it is exact if and
only if the cached names met suffice. They do when the cache is exact, cyclic definitions included, and the cache stays
exact when definitions are acyclic. `QueryOrderMatters` shows two definitions in a circle on which a later query misses a
variable.

## Tokens (`rio-auth/src/hmac.rs`)

`Base64Url` is the encoding of section 5 of RFC 4648 without padding, `Token` the claims, the signer and the verifier,
`TokenVerdicts` the verifier's answer to any text.
The MAC and the JSON text codec are parameters; of the codec only "parsing undoes rendering" is used, and of the MAC
nothing. The clock is a parameter that may fail.

## Model

| member | source | states |
|---|---|---|
| Trunk.GlobalTrunk | nix/gen_matrix.py:230-250 | the trunk is exactly the set of drvs that at least two clusters need |
| Trunk.TrunkClosed | nix/gen_matrix.py:230-250 | when every cluster's needs are closed under dependency, so is the trunk |
| Trunk.ComponentsUnique | nix/gen_matrix.py:253-309 | the list of components is determined by the clusters: set and dictionary order cannot change it |
| Trunk.ComponentClosed | nix/gen_matrix.py:253-262 | no component depends on a drv of another one |
| Trunk.InKeyOrder | nix/gen_matrix.py:304-309 | components come largest first, and of two equally large ones first the one that holds the first drv name |
| Components.DisjointSets.Find | nix/gen_matrix.py:270-276 | returns the representative, re-parents the start to it, changes no class |
| Components.DisjointSets.Union | nix/gen_matrix.py:286-287 | merges exactly the two classes |
| Components.MergeCluster | nix/gen_matrix.py:281-287 | after a cluster's trunk drvs are united in any order they share one root and every root still joins only connected drvs |
| Components.RootsAreClasses | nix/gen_matrix.py:253-309 | once all clusters are merged, two drvs share a root if and only if a chain of shared clusters connects them |
| Components.ClassKinds | nix/gen_matrix.py:296-303 | a class's kinds are found although its recorded roots were re-parented later |
| Components.GroupByRoot | nix/gen_matrix.py:290-292 | groups partition the trunk by root |
| Components.AssembledClass | nix/gen_matrix.py:290-306 | a group with its recorded kinds is a class with exactly the kinds of the clusters that touch it |
| Components.TrunkComponents | nix/gen_matrix.py:253-309 | returns the connectedness classes of the trunk with their kinds, disjoint, covering it, largest first |
| Makespan.LargestFirstBound | nix/gen_matrix.py:312-342 | greedy on descending sizes: 3m times any bin is at most (4m-1) times the largest bin of any other assignment |
| Packing.PackShards | nix/gen_matrix.py:312-342 | the packing loop yields the shards of the specification |
| Packing.ChoicesGreedy | nix/gen_matrix.py:329-334 | each component goes to a bin that is lightest by total drvs, so the packer is the greedy schedule |
| Packing.ShardsAreChoices | nix/gen_matrix.py:312-342 | exactly min(components, m) shards come out, none empty, each holding exactly its whole components, sorted |
| Packing.PackedWithinFourThirds | nix/gen_matrix.py:312-342 | every shard is within (4m-1)/(3m), hence 4/3, of the largest shard of any assignment of whole components |
| Sharpness.PackerAttainsBound | nix/gen_matrix.py:312-342 | for every m there are components of which the packer puts 4m-1 drvs on a shard although 3m per shard is possible, so the bound is sharp |
| Words.SplitJoin | nix/gen_matrix.py:345-355 | splitting the space-joined names gives them back if and only if each is non-empty and free of whitespace |
| Clusters.GroupChecks | nix/gen_matrix.py:384-401 | the grouping dictionary yields one cluster per member in name order and the misc cluster |
| Clusters.ChecksConserve | nix/gen_matrix.py:384-401 | grouping checks keeps every name exactly once and makes no empty cluster |
| Clusters.CoverageConserves | nix/gen_matrix.py:404-419 | so does clustering coverage |
| Clusters.SingletonsConserve | nix/gen_matrix.py:500-504 | so do singletons |
| ClusterFacts.CheckGroupExactly | nix/gen_matrix.py:107 | a check is about crate m exactly if it is called clippy-test-m, doc-m, nextest-m, or clippy-m and not clippy-test-something; any other check is misc |
| ClusterFacts.ChecksNamed | nix/gen_matrix.py:384-401 | the cluster called n holds a check exactly if the check was given and n is its crate, or misc |
| ClusterFacts.ChecksTogether | nix/gen_matrix.py:384-401 | two checks share a cluster if and only if they are about one crate or both misc |
| ClusterFacts.CoverageNamed | nix/gen_matrix.py:404-419 | coverage called unit-something is in the cluster `unit`, any other in a cluster of its own name |
| ClusterFacts.CoverageTogether | nix/gen_matrix.py:404-419 | two coverage entries share a cluster if and only if both are unit coverage, or they are the same |
| ClusterOrder.ChecksOrder | nix/gen_matrix.py:384-401 | clusters are in strict name order and so are the targets in each |
| ClusterOrder.CoverageOrder | nix/gen_matrix.py:404-419 | the unit cluster is first and the others follow in name order |
| ClusterOrder.AloneOrder | nix/gen_matrix.py:500-504 | singletons are in name order |
| Ordering.StrExactly | nix/gen_matrix.py:397-400 | name order: one name is the front of the other, or has the smaller code point where they first differ |
| FormalShards.FormalShardSize | nix/gen_matrix.py:422-443 | the size knob fails exactly on a non-integer or a value below one, and is else its value, or the default when unset |
| FormalShards.DealConserves | nix/gen_matrix.py:487-496 | round-robin dealing keeps every light name once and leaves no shard empty |
| FormalShards.DealBalanced | nix/gen_matrix.py:487-496 | ceil(n/size) shards, none above the limit, sizes within one of each other |
| FormalShards.DealSpreads | nix/gen_matrix.py:459-496 | any `count` adjacent names land in pairwise different shards |
| FormalShards.FormalConserves | nix/gen_matrix.py:446-497 | kani, heavy and light names together are kept exactly once |
| FormalShards.HeavyAlone | nix/gen_matrix.py:469-486 | a kani or heavy check is the only target of its cluster |
| ClusterFacts.FormalNamed | nix/gen_matrix.py:446-497 | a kani proof, or one that asks for more than 4096 MB, is in a cluster of its own name; of the others in name order, the p-th is in shard p mod count, where count is the least number of shards of the given size |
| ClusterFacts.FormalTogether | nix/gen_matrix.py:446-497 | two different proofs share a cluster if and only if both can share and their places are equal mod count |
| ClusterFacts.FormalBalanced | nix/gen_matrix.py:446-497 | in the clustering of all proofs, the shards are within the size and within one of each other |
| ClusterFacts.LabelExactly | nix/gen_matrix.py:487-496 | shard i is called quint-AofB, A the decimal i+1 padded to the width of B, the decimal count |
| PlanFacts.DealtExists | nix/gen_matrix.py:446-497 | every evaluation and size has such an ordered list of sharing proofs and such a count |
| ClusterOrder.FormalOrder | nix/gen_matrix.py:446-497 | kani proofs come first, then those that need a runner alone, each in name order, then the shards |
| ClusterOrder.FormalTargetsSorted | nix/gen_matrix.py:446-497 | the targets of every proof cluster are in name order |
| ClusterOrder.ShardsNumbered | nix/gen_matrix.py:487-496 | the shards are listed in the order of their numbers |
| Matrix.SplitAttr | nix/gen_matrix.py:182-189 | kind and name are what stands around the first dot |
| Matrix.CollectPending | nix/gen_matrix.py:192-219 | the loop over results yields the pending table |
| Matrix.PendingExact | nix/gen_matrix.py:192-219 | an entry is pending if and only if some result for it is uncached, with the metadata of the last such result |
| PlanFacts.PendingLatest | nix/gen_matrix.py:192-219 | the same on attribute text: an entry of a kind is pending exactly if a result whose attribute is `kind.name`, or `kind` for no name, is not cached, and its drv, heap and needs are those of the last such result |
| Matrix.ClusterNeeded | nix/gen_matrix.py:222-227 | a cluster needs exactly what its targets need |
| Matrix.ClustersConserve | nix/gen_matrix.py:541-554 | every kind's clustering keeps each pending name exactly once |
| Matrix.CollectNeeds | nix/gen_matrix.py:541-558 | the loops list every cluster's needs, kind by kind |
| Matrix.PartitionGated | nix/gen_matrix.py:358-381 | the loop splits each cluster by which targets meet the trunk |
| Matrix.PartitionTargets | nix/gen_matrix.py:358-381 | the gated targets are those that meet the trunk and the others are the rest, in order |
| Matrix.PartitionNonEmpty | nix/gen_matrix.py:358-381 | neither half ever holds an empty cluster |
| Matrix.Conservation | nix/gen_matrix.py:522-575 | each pending entry is scheduled exactly once across its two matrices, with its own drv at its position, and nothing else is |
| JoinedMatrix.TextIsExact | nix/gen_matrix.py:345-381 | with words throughout, splitting and looking up the joined text gives the entries of the lists |
| JoinedMatrix.DeliveredExactly | nix/gen_matrix.py:345-381 | every pending entry can be read back from the text if and only if all names and drvs of its kind are words |
| JoinedMatrix.TextConservation | nix/gen_matrix.py:345-381 | with words throughout, each pending entry is read from the text exactly once, with its drv, and nothing else is |
| JoinedMatrix.NamelessEntryIsDropped | nix/gen_matrix.py:182-189 | an uncached attribute without a dot is pending, yet both matrices of its kind come out empty |
| Matrix.NowaitExactly | nix/gen_matrix.py:358-381 | of the entries that the split applies to, those that need no trunk drv start at once and the others wait; `PlanPlaces` says which kinds these are |
| Matrix.WarmSharesTrunk | nix/gen_matrix.py:555-559 | at most four shards share out the trunk, each drv on one shard, connected drvs on the same one |
| Matrix.BuildOutputs | nix/gen_matrix.py:522-575 | outputs are produced exactly when the size knob is valid, and then trunk, components, warm shards and matrices are the specified ones, which `TrunkExactly`, `PlanPlaces`, `PlanJobs`, `WarmExactly` and `WarmNamed` read off the results |
| PlanFacts.TrunkExactly | nix/gen_matrix.py:230-250 | a drv is trunk if and only if pending entries of two clusters, of one kind or of two, cannot be built without it, with clusters told from names, heaps and the shard size alone |
| PlanFacts.PlanPlaces | nix/gen_matrix.py:522-575 | on the outputs, for the literal kinds: job n of `checks-nowait` or `formal-nowait` builds t from drv v exactly if t is pending with v, belongs to cluster n and needs no drv that two clusters need; of `checks` or `formal` exactly if it needs one; fuzz, vm-test and coverage entries are all in their one matrix |
| PlanFacts.PlanJobs | nix/gen_matrix.py:522-575 | two entries are in one job exactly if one cluster holds both and both wait or neither does; with one entry, which matrix holds it |
| WarmFacts.WarmExactly | nix/gen_matrix.py:555-559 | there are as many warm shards as components up to four, and they list exactly the drvs that entries of two clusters need |
| WarmFacts.WarmNamed | nix/gen_matrix.py:335-342 | split at the plus signs, the name of a shard is the sorted list of the kinds that have an entry needing one of its drvs |
| WarmStage.WarmUploadsTrunk | nix/gen_matrix.py:253-262 | when all shards are done, the whole trunk has been uploaded |
| WarmStage.NoDoubleBuild | nix/gen_matrix.py:253-262 | jobs build what is missing from what they see; still, in every interleaving no drv is built by two shards, none outside its list, no job rebuilds trunk, jobs of distinct clusters never build the same drv |
| WarmStage.ShardNeverStuck | nix/gen_matrix.py:253-262 | an unfinished shard can always build, whatever the others did |
| WarmStage.JobNeverStuck | nix/gen_matrix.py:358-381 | an unfinished job can build, a gated one once the warm stage is done |
| WarmStage.RunsEndFinished | nix/gen_matrix.py:253-262 | no run is longer than the work there is and an unfinished run can go on |
| WarmStage.CanFinish | nix/gen_matrix.py:253-262 | every run is the beginning of a finished one |
| WarmStage.RaceExactly | nix/gen_matrix.py:358-381 | two jobs build the same drv in some run if and only if it is in the closure of what each realises and not trunk |
| SplitRace.MixedClusterRaces | nix/gen_matrix.py:358-381 | when a cluster has a target that meets the trunk and one that does not, and both depend on a drv outside it, the emitted plan has a run in which both halves build that drv |
| SplitRace.OneGroupNotTrunk | nix/gen_matrix.py:230-250 | a drv that only checks of one group need is not trunk |
| SplitRace.TwoKindsTrunk | nix/gen_matrix.py:230-250 | a drv that targets of two kinds need is trunk |
| SplitRace.MixedEvaluationRaces | nix/gen_matrix.py:358-381 | on an evaluation of two misc checks and a fuzz target the two jobs of the misc cluster both build the drv only they share |
| Pipeline.JobsAreEntries | nix/gen_matrix.py:522-575 | the state machine's jobs are, in order, the emitted matrix entries |
| Pipeline.OutputsAreWellPlanned | nix/gen_matrix.py:522-575 | whatever was evaluated, the emitted shards and jobs meet all assumptions of the run's safety and progress |
| LexerRun.RawPrefixLength | nix/rust_strip.py:108-121 | the prefix scan measures a raw-string opener |
| LexerRun.ScanBlock | nix/rust_strip.py:148-157 | the depth-counting loop ends a nested block comment where the specification does |
| LexerRun.ScanString | nix/rust_strip.py:173-180 | the pair-stepping loop finds the closing quote, or runs off the end |
| LexerRun.ScanChar | nix/rust_strip.py:194-199 | the loop finds the closing quote of an escaped char literal |
| LexerRun.LexFull | nix/rust_strip.py:124-212 | the walk over the buffer yields the lexed text and the spans of the token list, which `LexedExactly`, `StringSpansExact` and `CommentSpansExact` read by token kind |
| Lexer.WalkTiles | nix/rust_strip.py:124-212 | on every text the walk ends and its tokens cover the text without gap or overlap |
| Lexer.LexedSpansApart | nix/rust_strip.py:124-212 | string and comment spans are ordered, disjoint and apart from each other |
| Lexer.LexedAt | nix/rust_strip.py:124-212 | a character is blanked exactly if it lies in the interior of a blanked token and is no newline; `LexedExactly` says which tokens these are |
| LexedKinds.LexedExactly | nix/rust_strip.py:124-212 | every position lies in a token; there the lexed text has a blank in comments and char bodies, in string bodies if and only if the flag is on, newlines kept, and everywhere else the source character |
| LexedKinds.StringSpansExact | nix/rust_strip.py:124-212 | the string spans are exactly the bodies of string tokens, raw exactly for raw ones |
| LexedKinds.CommentSpansExact | nix/rust_strip.py:124-212 | the comment spans are exactly the comment tokens |
| LexerRoundTrip.RoundTrip | nix/rust_strip.py:124-212 | rendering a well-separated token list and lexing it gives back exactly its tokens, strings and comments |
| LexerBlanking.VisitsKept | nix/rust_strip.py:670-729 | blanking between two visited positions loses no visited position |
| LexerBlanking.LexCommutes | nix/rust_strip.py:670-729 | blanking between two visited positions and lexing commute |
| LexedShape.SolidIsCode | nix/rust_strip.py:124-212 | a character of lexed text that is neither space nor a literal mark is one code step of the walk |
| LexedShape.QuotedSkip | nix/rust_strip.py:171-184 | from a visited quote of lexed text the next quote closes that string |
| Delimiters.MatchDelim | nix/rust_strip.py:1175-1191 | the lenient loop counts one kind of bracket and falls back to the end |
| Delimiters.MatchDelimStrict | nix/rust_strip.py:246-268 | the strict loop counts the same way and refuses instead |
| Delimiters.StrictVsLenient | nix/rust_strip.py:246-268 | the strict one returns the first position where openers and closers of that kind are level, and refuses if and only if every non-empty prefix has more openers; the lenient one then returns the end |
| Delimiters.MatchIsPartner | nix/rust_strip.py:1175-1191 | on well-nested text counting one kind finds the partner a three-kind stack finds, and the group is balanced |
| ExtentRun.SkipSpaces | nix/rust_strip.py:402-406 | the loop stops at the first character that is not whitespace |
| ExtentRun.ScanPath | nix/rust_strip.py:465-475 | the loop finds where a `::` path of words ends |
| ExtentRun.SkipStacked | nix/rust_strip.py:719-726 | the loop passes stacked attributes, or refuses an unmatched one |
| ExtentRun.ItemExtent | nix/rust_strip.py:534-560 | the item scan loop finds the specified end |
| ExtentRun.CommaExtent | nix/rust_strip.py:562-667 | the comma-position scan loop finds the end that `CommaEndExact` characterises |
| ExtentRun.FindExtent | nix/rust_strip.py:497-667 | the whole extent search yields the specified extent or refusal: the mode that `ConstructExactly` gives and the end that `ItemEndExact`, `CommaEndExact` or `MacroExactly` gives |
| Constructs.ConstructExactly | nix/rust_strip.py:409-494 | past any run of pub, pub(...), default, unsafe, async, auto, extern with an ABI and const before fn: fn, mod, impl, trait, enum, struct and union open a body at the word's end; static, type, use, extern crate and any other const an item up to `;`; macro_rules and a path before `!` a macro; any other word a comma-ended construct; what symbol may stand there, and every refusal |
| Constructs.RunExists | nix/rust_strip.py:409-494 | every position has such a run, so the classification covers every text |
| GatedItems.MacroExactly | nix/rust_strip.py:508-532 | a macro item ends past its group and a following `;`; a group in parentheses or brackets without `;` is refused |
| GatedItems.MacroUnclosed | nix/rust_strip.py:508-532 | an unclosed macro group is refused at its opener |
| ExtentProps.ExtentNested | nix/rust_strip.py:497-667 | on well-nested lexed text every extent is balanced, so it never passes the closer of the group that holds it |
| ExtentProps.ExtentAnchored | nix/rust_strip.py:497-667 | on every lexed text, nested or not, an extent ends just past a terminator or right before a closer |
| ExtentProps.AnchoredIsVisited | nix/rust_strip.py:497-667 | such an end is a position where the token walk stands |
| ExtentProps.ItemEndExact | nix/rust_strip.py:534-560 | an item ends at the first deciding character of its own level and is refused exactly at the enclosing closer |
| ExtentProps.ItemEndNone | nix/rust_strip.py:534-560 | an item with no deciding character is refused |
| CommaExtents.CommaEndExact | nix/rust_strip.py:562-667 | a field, variant, arm or statement ends at the first deciding character of its own level, with commas in argument lists passed over, arrows told from closers and `else` blocks kept; inside an argument list or without such a character it is refused |
| CfgPredicate.SplitTopCommas | nix/rust_strip.py:304-315 | the splitting loop yields the top-level parts |
| CfgTrees.GatesIffTestOnPath | nix/rust_strip.py:318-337 | however a predicate tree is spelled, it gates if and only if a leaf headed `test` lies under `any` and `all` only |
| SpellingTable.TableAgrees | nix/rust_strip.py:340-363 | on a single predicate a verdict of the spelling table is the evaluator's |
| TableTrees.TableOnTrees | nix/rust_strip.py:340-363 | however a predicate tree is spelled, the table has a verdict exactly if the tree is a leaf with a word of its own, a `not`, or an `all` or `any` of leaves only, and that verdict is read off the tree |
| SpellingTable.TableExact | nix/rust_strip.py:340-363 | on any text with a verdict, single or list, it is the evaluator's if and only if: behind a plain name or `not`, no later part gates; behind `all` or `any`, if an item of the first part is headed `test`, that part ends in a parenthesis or a later part gates, and if none is, a later part gates exactly when `test` follows a comma one bracket deep behind the first part |
| SpellingLists.PlainThenTest | nix/rust_strip.py:340-363 | `unix,test` gates and the table says it does not |
| SpellingLists.NotThenTest | nix/rust_strip.py:340-363 | `not(a),test` gates and the table says it does not |
| SpellingLists.AllThenNot | nix/rust_strip.py:340-363 | `all(a),not(b,test)` does not gate and the table says it does |
| ExtentRun.StripPass | nix/rust_strip.py:670-729 | the pruning loop yields the specified text or the first refusal |
| Attributes.AttrExactly | nix/rust_strip.py:369-383 | a cfg attribute is found at `a` with this predicate and end exactly if the text there is `#`, perhaps `!`, a bracket, the word cfg, a parenthesised predicate and the closing bracket, whitespace between |
| Attributes.InnerGate | nix/rust_strip.py:704-713 | an inner test gate takes the whole file if as many braces were closed as opened before it, and is refused otherwise |
| Attributes.OuterGate | nix/rust_strip.py:714-728 | an outer test gate cuts to the end of the construct behind its stacked attributes, or refuses as the extent search does |
| Attributes.OtherGate | nix/rust_strip.py:702-703 | a cfg attribute that does not gate test code is left alone |
| Attributes.StackPassed | nix/rust_strip.py:719-726 | every closed attribute behind the gate is passed over and an unclosed one is refused |
| Attributes.PassStops | nix/rust_strip.py:701-729 | the first refusal or file-wide gate decides the answer |
| Attributes.PruneExactly | nix/rust_strip.py:670-729 | without one, a source character is blanked exactly if it lies in the region of some attribute of the lexed text |
| GatedItems.GatedModule | nix/rust_strip.py:670-729 | a test gate before a module, with stacked attributes and qualifiers between, cuts exactly to the partner of the module's brace, and refuses at the brace if it has none |
| GatedItems.GatedModuleText | nix/rust_strip.py:670-729 | so on the literal text `#[cfg(test)]`, `mod`, a name and a brace, wherever it stands |
| GatedItems.GatedModuleIsBlank | nix/rust_strip.py:670-729 | then every character from the `#` to that partner is blank in the pruned source |
| Prune.ApplyKeepsLines | nix/rust_strip.py:670-729 | pruning keeps length and newlines and introduces nothing but blanks |
| PruneProps.BlankKeepsBalanced | nix/rust_strip.py:690-729 | blanking one balanced stretch keeps every other balanced, nested, apart or overlapping |
| PruneProps.RegionsNested | nix/rust_strip.py:670-729 | every region cut from well-nested lexed text is well nested |
| PruneProps.LexedRemainderNested | nix/rust_strip.py:670-729 | after all regions are blanked, overlapping ones included, well-nested lexed text is still well nested |
| PruneCommutes.PruneCommutesExactly | nix/census_corpora.py:281-295 | on every text, pruning then lexing equals lexing then pruning, refusals included, if and only if the pass is cut short or every region starts where the walk stands or inside an earlier region |
| PruneCommutes.ClearAttrIsVisited | nix/rust_strip.py:369-383 | a local check that an attribute starts where the walk stands |
| PruneCommutes.PruneCommutesWithLex | nix/census_corpora.py:281-295 | so the two orders agree whenever each attribute that cuts starts where the walk stands |
| PruneCommutes.PrunedStaysNested | nix/census_corpora.py:281-295 | pruned source then still lexes to well-nested text, if the source did |
| PruneWitness.StrayHashDoesNotCommute | nix/census_corpora.py:281-295 | the two orders differ on an empty raw string directly followed by `[cfg(test)]` and an item |
| EscapeParity.FindRunStart | nix/string_interior_spaces.py:61-65 | the backward loop finds where the backslash run starts |
| EscapeParity.ParityIsPairing | nix/string_interior_spaces.py:47-58 | a newline after an odd run is exactly a newline that forward pair-stepping reads as escaped |
| EscapeParity.ContinuationAgreesWithLexer | nix/string_interior_spaces.py:47-58 | in every plain string of every text the continuation test agrees with the lexer's own reading |
| EscapeParity.MixedContinuation | nix/string_interior_spaces.py:89-105 | a body is reported exactly if it has a mid-string continuation and a bare newline |
| ModuleFiles.Resolve | nix/fixture_provenance.py:238-240 | the first candidate that exists, none exactly when no candidate does |
| ModuleFiles.ResolversAgree | nix/rust_strip.py:983-991 | the two resolvers look in the same places if and only if the declaring file is not at the top |
| ModulePaths.CandidatesExactly | nix/fixture_provenance.py:204-213 | lib.rs, main.rs and mod.rs declare beside themselves, any other file into the directory of its own name: name.rs, then name/mod.rs |
| ModulePaths.DeclCandidatesExactly | nix/rust_strip.py:983-991 | the census resolver looks in the same places, and at the top leaves out the empty directory |
| ModulePaths.TestFileExactly | nix/fixture_provenance.py:147-154 | test files are those with `/tests/` in their path, and those called tests.rs, test_helpers.rs or something_tests.rs |
| ModulePaths.CrateRootExactly | nix/fixture_provenance.py:157-161 | crate roots are exactly src/lib.rs, src/main.rs and the files directly in src/bin, of any directory |
| ScopeGraph.WalkScope | nix/fixture_provenance.py:216-264 | the walk ends; in scope are exactly the files a crate root reaches, test exactly those with a gate on some path; each edge is a true reason; unresolved is the rest, sorted |
| ScopeGraph.PathsHeld | nix/fixture_provenance.py:229-262 | a scope that holds the roots and serves every declaration holds every path with its gates |
| ScopeGraph.RecordWorks | nix/fixture_provenance.py:253-261 | every new or upgraded verdict lowers twice the unseen plus the production files, although upgraded files are walked again |
| ScopeGraph.VerdictsUnique | nix/fixture_provenance.py:216-264 | verdicts do not depend on the order of the walk |
| ScopeWalk.WalkTree | nix/fixture_provenance.py:216-264 | the walk on scanned files, declarations resolved, is that walk |
| ScopeWalk.VerdictsAreLeast | nix/fixture_provenance.py:229-262 | the verdicts are the least sets closed under the root, inner-attribute, gated-declaration, file-name and parent rules |
| ModuleGraph.TestFiles | nix/rust_strip.py:1052-1063 | the fixpoint loop yields exactly the files behind a gated declaration, in any order of parents, in at most files + 1 passes |
| ModuleGraph.TestReachableFiles | nix/rust_strip.py:997-1063 | the answer is the least set that holds every file a declaration names that does not survive pruning, and every file declared from a member; found in at most files + 1 passes in any order |
| ModuleGraph.EdgesExactly | nix/rust_strip.py:1039-1051 | there is an edge to a file with a gate exactly if a declared name resolves to it and the gate says whether the name is missing from the pruned text |
| ModelNames.LookupAtOwner | nix/quint_policy.py:695-719 | the owner of a name resolves it to the same declaration |
| ModelNames.NamesExactly | nix/quint_policy.py:722-737 | a name is found in an expression exactly if some subexpression on a path through operands, let definitions and bodies and lambda bodies is that name or applies it as an operator |
| ModelNames.TargetsExactly | nix/quint_policy.py:739-761 | a definition leads exactly to the other names its body mentions, at the module that owns it |
| ModelNames.ReadsExactly | nix/quint_policy.py:739-761 | a variable is read exactly if a chain of such mentions leads to a name that owns it |
| Corpora.Explore | nix/quint_policy.py:681-693 | the worklist yields exactly the modules that imports reach, unknown ones included |
| Corpora.Corpus.ReachableModules | nix/quint_policy.py:681-693 | the memoised answer is that set |
| Corpora.Corpus.VisibleDecl | nix/quint_policy.py:695-719 | own declaration first, else the only owner in reach, else none; two owners are fatal |
| Corpora.Corpus.VarReadset | nix/quint_policy.py:739-761 | terminates on every corpus and cache, never reports a variable that is not read in the sense of `ReadsExactly`, fails only where an ambiguous name is reached |
| ReadSets.AnswerIsFound | nix/quint_policy.py:739-761 | from any sound cache the answer is exactly the variables that uncached names own, and first cached names hold, on the walks from the name |
| ReadSets.ExactExactly | nix/quint_policy.py:739-761 | a query is exact if and only if the cached names it meets reach no ambiguous name and read nothing the search does not find |
| ReadSets.OutermostIsExact | nix/quint_policy.py:739-761 | from an exact cache the answer is exact, cyclic definitions included |
| Corpora.Corpus.ReadSet | nix/quint_policy.py:739-761 | from an exact cache: exactly the variables that chains of mentions lead to, missing exactly when an ambiguous name is reached; on acyclic definitions the cache stays exact, so query order does not matter |
| Corpora.QueryOrderMatters | nix/quint_policy.py:739-761 | on a circle of two definitions the answer misses a reached variable exactly if the other one was asked first |
| ConjLeaves.RefusedExactly | nix/quint_policy.py:763-803 | refused are exactly conjunctions under lets or with anonymous operands, and the counts say which |
| ConjLeaves.ExpansionExactly | nix/quint_policy.py:763-803 | under n lets: no `and` or `actionAll` with operands is an atom; a bare one of names only expands to those names in order; any other is refused with the number of operands that are no names, of the rest, and n |
| ConjLeaves.Expand | nix/quint_policy.py:763-803 | the unwrapping loop yields the specified verdict |
| ConjLeaves.ExpandLeaves | nix/quint_policy.py:805-820 | the recursive expansion yields the specified leaves, or nothing at an ambiguous name |
| ConjLeaves.LeavesPreserveMeaning | nix/quint_policy.py:805-820 | under every interpretation of definitions and conjunctions, an invariant holds if and only if all its leaves do |
| ConjLeaves.LeavesPreserveReads | nix/quint_policy.py:805-820 | an invariant reads exactly what its leaves and the declared operator names on the way read; with `and` and `actionAll` undeclared, exactly what its leaves read |
| ConjLeaves.LeavesDoNotExpand | nix/quint_policy.py:805-820 | no returned leaf can be expanded further |
| ConjLeaves.BundlesAreRefused | nix/quint_policy.py:1010-1039 | the leaves that the bundle rule reports are exactly the conjunction-shaped ones |
| Base64Url.DecodeEncode | rio-auth/src/hmac.rs:630-635 | decoding undoes encoding and the separator never occurs in encoded text |
| Base64Url.EncodeDecode | rio-auth/src/hmac.rs:654-656 | only the canonical encoding of a byte string decodes |
| Base64Url.BitsInOrder | rio-auth/src/hmac.rs:630-635 | every group of four digits is the same number as its three bytes |
| Base64Url.BitsAtEnd | rio-auth/src/hmac.rs:630-635 | one leftover byte fills two digits and two fill three from the top bit down, with zero bits behind |
| Base64Url.EncodedAre | rio-auth/src/hmac.rs:630-635 | every digit is written as its character in the alphabet of table 2 of RFC 4648 |
| Token.WireIsolation | rio-auth/src/hmac.rs:70-372 | a claims object decodes as the type that wrote it, to the same value, and as no other type |
| Token.WireFields | rio-auth/src/hmac.rs:70-372 | which field is written with which value, name by name and type by type, and no other field is |
| Token.WireReads | rio-auth/src/hmac.rs:70-372 | an object is read as claims exactly if it has their fields with these values, optional ones absent or null for none, and no unknown field |
| Token.ForwardSkew | rio-auth/src/hmac.rs:121-262 | a decoder that predates the optional fields accepts what is written today exactly when they all have their defaults, and reads the same claims |
| Token.SignedTokenVerdict | rio-auth/src/hmac.rs:611-690 | the verifier's answer to any signed token, in every case of key, type and clocks |
| TokenVerdicts.EnvelopeVerdict | rio-auth/src/hmac.rs:645-690 | of any text: the number of dots decides first, then whether both parts are canonical encodings, then the tag; only under the right tag are the claims read |
| TokenVerdicts.ClaimsVerdict | rio-auth/src/hmac.rs:645-690 | of any bytes: no claims of the type is a shape error, then a failed clock, then a passed deadline; otherwise the claims held are the answer |
| Token.LifetimeLaw | rio-auth/src/hmac.rs:611-690 | a signed token is accepted at a clock reading if and only if it is within the requested expiry and seven days of the signer's clock, a failed signer clock counting as 0 |
| Token.AcceptedIsCanonical | rio-auth/src/hmac.rs:645-690 | every accepted token is the signer's own envelope of the bytes it carries |
| Token.FreshNonceFreshToken | rio-auth/src/hmac.rs:286-342 | two mints of the same executor claims are the same token if and only if their nonces are |

## Left out

- File walking, arguments, JSON input and output, `nix-eval-jobs`, coverage paths, push paths and the self-tests: input and output only.
- The regular expressions that find module declarations, inner attributes and gated attribute runs: their matches are inputs, as lines, gates and names.
- The single-line arm of the string checker: one regular expression over one literal.
- The joined text of warm shards: their drvs stay lists.
- Line breaks in check names: the source's pattern for crate names stops at one, the model's prefix test does not.
- Unicode letters and digits in the extent walk: two classes of characters given as a parameter.
- Refusals carry a position, not the message text.
- A `cfg` setting keyed `test`: the evaluator looks at the head word only, so such a leaf counts as `test` in the tree reading too.
- ConjLeaves.ExpandLeaves: asks for a rank that falls along expanded conjunctions, because the source recurses without end on a conjunction that contains itself.
- Corpora.Corpus.VarReadset: takes the finite set of names in play and a rank as ghost arguments; the outside query `ReadSet` takes neither.
- Token.SignedTokenVerdict: nothing is said about which keys give different tags, because the MAC is a parameter.
- The other policy rules, assignment reachability and mirror lookups of `nix/quint_policy.py`: shallow next to the rest.
- Function and macro extents, constant arrays and the parity scan of `nix/rust_strip.py`: they reuse the matcher and the lexer.
- Request interceptors, caller allow-lists, key loading and JWTs of `rio-auth`: glue around the verifier.
- The census registries and the lint arms: tables and text search.
