# ModelSurgeon: verified core algorithms

This project models, in Dafny, the parts of ModelSurgeon whose correctness rests on an argument rather than
on reading one function, and proves what those parts are for.

- **Configuration** (`ConfigTree`, `ConfigKeys`, `ConfigOrder`, `DottedKeys`, `DottedOverrides`, `ReportedKeys`,
  `Environment`, `EnvironmentNames`, `EnvironmentSpelling`, `SortedEnvironment`, `ConfigIo`, `SettingsHeap`).
  Settings are trees of mappings. `Merge` is the deep merge, `InsertAt` the conflict-detecting insertion,
  `Flatten` and `Expand` the dotted-key functions. The algebra of merging, the verdict of the environment
  builder for values of any kind, what order and letter case change about it, the round trip of dotted keys, and
  which keys are reported in which order are proved about these; `ConfigIo` holds the loops, and `SettingsHeap`
  the walk of a cursor through mutable nested dictionaries, proved to leave the same tree.
- **Dependency graphs and the roadmap** (`DependencyGraph`, `Roadmap`). The two depth-first searches with their
  shared `visiting` and `visited` sets, the two catalog validators with their reports, the inverse relation, and
  the Ready/Blocked/Done rules run over whole histories of closing issues.
- **Generated text** (`Text`, `ReadmeSplice`, `ProgressDocs`, `IssueBody`, `LegacyBlocks`, `IssueTracker`). The
  README marker splice with the generate and check commands over a repository of files, the dependency sections
  of issue bodies and the audit that parses them back, and the rewrite of legacy `Blocks:` sections, with the
  regular expression's match defined by what it must satisfy and proved to be what the search finds.
- **Progress scores and histories** (`RealArithmetic`, `Scoring`, `History`). The two-level weighted means over
  `real`, and the append-only assessment history with its calendar dates.
- **Search bookkeeping** (`Deduplication`, `ChannelRemoval`, `StudySelection`, `HuggingFaceStudy`,
  `NativeStudy`, `Vocabulary`). Candidate deduplication, the channel renumbering and the selections of the
  two-generation pruning study for both backends, the native one over a directory of files that are never
  overwritten, and the vocabulary inversion of the GGUF exporter.

`Ordering` holds Python's `sorted`, the orders it is used with, and filtering.

## What the proofs found

- The deep merge is not associative. It is exactly when every mapping that the middle layer replaces by a
  scalar, and the last layer makes a mapping again, is fully covered by the last layer
  (`ConfigTree.MergeAssociative`); `ConfigTree.MergeNotAssociative` gives the mapping/scalar/mapping case.
- `docs/design/configuration.md:49` calls the reported source keys sorted dotted paths. They are sorted segment
  by segment. As strings they are sorted exactly when comparing names key by key agrees with that order, a key
  that another extends counting as going on with a dot (`ReportedKeys.NamesInStringOrder`); with dot-free keys,
  exactly when among siblings with leaves no sub-mapping's key is extended by another's with a character before
  the dot (`ReportedKeys.PlainNamesInStringOrder`). Once validation has refused every key that is not the name
  of a field, only a mapping that a higher layer replaces by a scalar can be out of order
  (`ReportedKeys.DiscoveredKeysInOrder`): a file with `run: {seed: ..}` and `run-id` under `log_level`, below a
  command line that sets `log_level`, is reported with `log_level.run.seed` before `log_level.run-id`
  (`ReportedKeys.ReportedKeysOutOfOrder`). The model follows the code.
- Whether an environment is accepted can depend on the letter case of its names, because case decides the order
  in which the loop takes them: `MODELSURGEON_HARDWARE={..}` beside `MODELSURGEON_HARDWARE__CPU_OFFLOAD=..` is
  accepted, with `MODELSURGEON_hARDWARE` it is refused (`EnvironmentSpelling.CaseDecidesVerdict`). The verdict
  is the same for every spelling exactly when a name is not well formed, no path extends another, or two
  variables are in the way of each other, with one path or with the longer path running into the value of the
  shorter (`EnvironmentSpelling.VerdictOfEverySpelling`); the same condition decides independence of the order
  (`Environment.VerdictOfEveryOrder`). Where two orders are both accepted they build the same tree
  (`Environment.EnvironmentOrdersAgree`).
- A variable named after a setting path sets that path exactly when its keys are in lower case, none is empty,
  no key but the last ends in an underscore, and none holds two in a row (`EnvironmentNames.VariableRoundTrip`);
  otherwise the underscore moves to the next key (`EnvironmentNames.TrailingUnderscoreMoves`).
- An accepted history may lower effectiveness without any reassessment (`History.EffectivenessMayFall`):
  acceptance does not depend on effectiveness beyond known statuses (`History.EffectivenessIsFree`). It may also
  flip a concluded outcome on a reason without evidence (`History.OutcomeMayFlipWithoutEvidence`).
- `check` passes after `generate` exactly when the rendered body holds no marker
  (`ProgressDocs.CheckAfterGenerate`). With a marker, carried by a title for instance, generation succeeds once,
  and from then on `check` and `generate` fail whatever the data (`ProgressDocs.MarkerStopsLaterRuns`, with
  `ProgressDocs.MarkerInTitle` for a rendering that does it).
- After the legacy rewrite the audit reads every child, unless an earlier `Dependency keys:` paragraph cuts the
  section off from the first `Blocks:` and the children were not listed above it either
  (`LegacyBlocks.AuditAfterUpdate`); `LegacyBlocks.AuditMissesChildren` gives such a body for every roadmap key.
- In the Hugging Face study the pair missing from generation two is one repeated channel, and is refused as not
  canonical; a repeat that gets past that is refused by its repeated identifier (`HuggingFaceStudy.Study`). In
  the native study a repeated channel stops at its existing file, so the branch for a missing pair is never
  taken. It can be done only on models stored value by value: no codec with larger blocks can represent both
  widths that two removals lead to (`NativeStudy.Artifacts.Study`).

## Model

| member | source | states |
|---|---|---|
| `ConfigTree.MergeIdentity` | src/modelsurgeon/config_io.py:153-161 | the empty mapping is a two-sided identity of the merge |
| `ConfigTree.MergeIdempotent` | src/modelsurgeon/config_io.py:153-161 | merging a tree over itself changes nothing |
| `ConfigTree.MergeLookup` | src/modelsurgeon/config_io.py:153-161 | what a merge holds at every path, in terms of what the two sides hold there |
| `ConfigTree.MergeAssociative` | src/modelsurgeon/config_io.py:153-161 | regrouping three layers gives the same tree if and only if every broken mapping is mended in full |
| `ConfigTree.MergeAssociativeWithoutScalarGaps` | src/modelsurgeon/config_io.py:153-161 | no scalar between two mappings at any path is enough for associativity |
| `ConfigTree.MergeNotAssociative` | src/modelsurgeon/config_io.py:153-161 | the mapping, scalar, mapping counterexample |
| `ConfigTree.CoversMeansAbsorbs` | src/modelsurgeon/config_io.py:153-161 | an overriding tree wipes out the base exactly when it settles every path of the base |
| `ConfigTree.LayeredLeaf` | src/modelsurgeon/config_io.py:237-242 | over any number of layers a leaf is there if and only if some layer supplies it and no later one has a say about its path |
| `ConfigTree.ThreeLayerPrecedence` | src/modelsurgeon/config_io.py:237-242 | command line over environment over file: a lower leaf survives if and only if no higher layer defines its path or has a scalar above it, and no leaf appears that no layer supplied |
| `ConfigKeys.InsertIsMerge` | src/modelsurgeon/config_io.py:181-192 | cursor insertion refuses exactly defined paths (duplicate) and paths under a scalar (scalar parent), and otherwise equals a merge |
| `ConfigOrder.Verdict` | src/modelsurgeon/config_io.py:171-193 | settings with values of any kind are accepted if and only if none settles the path of a later one |
| `ConfigOrder.BlocksMeans` | src/modelsurgeon/config_io.py:181-192 | a setting settles every prefix of its path, and beyond its path what its value does |
| `ConfigOrder.BuiltFrom` | src/modelsurgeon/config_io.py:171-193 | an accepted build has a mapping or a leaf at a path if and only if some setting has it there |
| `ConfigOrder.ScalarsBlock` | src/modelsurgeon/config_io.py:171-193 | for scalars none is in the way of a later one if and only if no path extends another |
| `ConfigOrder.AcceptedOrdersAgree` | src/modelsurgeon/config_io.py:171-193 | all accepted orders of the same settings build the same tree |
| `ConfigOrder.MutualMeans` | src/modelsurgeon/config_io.py:181-192 | two settings are in the way of each other if and only if their paths are equal or the value of the shorter settles the rest of the longer |
| `ConfigOrder.VerdictIgnoresOrder` | src/modelsurgeon/config_io.py:171-193 | the verdict is the same for every order if and only if no path extends another or two settings are in the way of each other |
| `ConfigKeys.LeavesDetermineTree` | src/modelsurgeon/config_io.py:153-161 | trees without empty sub-mappings and with the same leaves are equal |
| `Environment.SettleIsInsertAll` | src/modelsurgeon/config_io.py:174-192 | the loop succeeds if and only if all names are well formed and the insertions succeed, and builds what they build |
| `Environment.EnvironmentVerdict` | src/modelsurgeon/config_io.py:171-193 | for values of any kind: success if and only if no part is empty and no variable is in the way of a later one, and then exactly the leaves of each value under its path |
| `Environment.ScalarEnvironmentVerdict` | src/modelsurgeon/config_io.py:171-193 | when the values present are scalars: success if and only if no part is empty and the lower-cased paths are prefix-free, and then exactly the given leaves |
| `Environment.EnvironmentAgreesWithDotted` | src/modelsurgeon/config_io.py:171-213 | the two independently written builders make the same tree of the same settings |
| `Environment.EnvironmentOrdersAgree` | src/modelsurgeon/config_io.py:171-193 | orders of the same variables that are both accepted give the same tree, for values of any kind |
| `Environment.VerdictOfEveryOrder` | src/modelsurgeon/config_io.py:171-193 | acceptance is the same for every order if and only if a name is not well formed, no path extends another, or two variables are in the way of each other |
| `Environment.ScalarOrderIrrelevant` | src/modelsurgeon/config_io.py:171-193 | when the values present are scalars neither acceptance nor the tree depends on the order |
| `EnvironmentNames.NamesIgnoreCase` | src/modelsurgeon/config_io.py:175-178 | names that differ only in letter case are selected alike and name the same setting |
| `EnvironmentNames.SamePathSameLetters` | src/modelsurgeon/config_io.py:177-178 | two selected names stand for one path if and only if they differ at most in letter case |
| `SortedEnvironment.SortedItemsAre` | src/modelsurgeon/config_io.py:174 | the items visited have strictly increasing names, and are exactly the names of the environment with their own values |
| `SortedEnvironment.EnvironmentMeaning` | src/modelsurgeon/config_io.py:171-193 | an environment is accepted if and only if no part of a selected name is empty and no name is in the way of a later one; the tree then holds a leaf or a mapping exactly where the value of some selected variable has it under that variable's path |
| `SortedEnvironment.EnvironmentRefusal` | src/modelsurgeon/config_io.py:179-191 | a refusal names a variable whose name has an empty part, or whose path is defined by the names before it, or lies below one of their scalars; the names before it are accepted |
| `EnvironmentSpelling.VerdictOfEverySpelling` | src/modelsurgeon/config_io.py:174-192 | the verdict on an environment, taken in sorted order, is the same for every letter case of its names if and only if a name is not well formed, no path extends another, or two variables are in the way of each other |
| `EnvironmentSpelling.CaseDecidesVerdict` | src/modelsurgeon/config_io.py:174-192 | an environment accepted as spelled and refused with one letter in lower case, each taken in sorted order |
| `EnvironmentNames.TwoSpellingsAreRefused` | src/modelsurgeon/config_io.py:175-191 | an environment with two spellings of one selected name is refused |
| `EnvironmentNames.VariableRoundTrip` | src/modelsurgeon/config_io.py:174-193 | the variable named after a path alone builds that setting if and only if its keys are in lower case, not empty and separable by the delimiter |
| `EnvironmentNames.DelimiterEndsPart` | src/modelsurgeon/config_io.py:178 | a key keeps its delimiter if and only if it neither holds the delimiter nor ends in an underscore |
| `EnvironmentNames.TrailingUnderscoreMoves` | src/modelsurgeon/config_io.py:177-178 | a trailing underscore of a key is read as the start of the next key |
| `SettingsHeap.SetDefault` | src/modelsurgeon/config_io.py:183 | one step of the cursor on mutable dictionaries: the child is there afterwards and everything else stands for the same tree |
| `SettingsHeap.InsertVariable` | src/modelsurgeon/config_io.py:181-192 | walking the cursor and assigning leaves dictionaries that stand for the inserted tree, or reports the conflict the insertion reports |
| `SettingsHeap.EnvironmentOverrides` | src/modelsurgeon/config_io.py:171-193 | succeeds exactly on accepted environments, leaving nested unshared dictionaries that stand for a tree with exactly what each variable's value holds under its path; the error otherwise is that of the first refused name |
| `SettingsHeap.OneTree` | src/modelsurgeon/config_io.py:171-193 | a family of dictionaries stands for one tree only |
| `ConfigIo.MergeMappings` | src/modelsurgeon/config_io.py:153-161 | the copy-and-update loop computes the merge, whatever order the keys come in |
| `ConfigIo.CollectDottedKeys` | src/modelsurgeon/config_io.py:114-123 | the recursive list building emits the flattened names |
| `ConfigIo.ExpandDottedOverrides` | src/modelsurgeon/config_io.py:196-213 | chaining a mapping per part and merging each chain is the expansion, with the same refusals |
| `DottedOverrides.ExpandExactly` | src/modelsurgeon/config_io.py:196-213 | accepted if and only if no key is empty or has an empty part, the refusal naming the first that is or has; a leaf is there if and only if some override gives it and no later one settles its path |
| `DottedKeys.FlattenIsPaths` | src/modelsurgeon/config_io.py:114-123 | whatever the keys, the names are those of the leaf paths, each with its leaf |
| `DottedKeys.NameIsDotted` | src/modelsurgeon/config_io.py:117 | the name of a path is its keys joined by dots, without leading empty ones |
| `DottedKeys.PathsAreLeaves` | src/modelsurgeon/config_io.py:114-123 | the paths listed are exactly those of the leaves |
| `DottedKeys.PathsIncrease` | src/modelsurgeon/config_io.py:114-123 | the names come strictly increasing as segment paths |
| `ReportedKeys.NamesDistinct` | src/modelsurgeon/config_io.py:114-123 | whatever the keys, no name is emitted twice if and only if no two leaf paths spell the same once their keys are broken at their dots |
| `ReportedKeys.NamesMayRepeat` | src/modelsurgeon/config_io.py:117 | with a dot inside a key one name can stand for two leaves |
| `DottedKeys.RoundTrip` | src/modelsurgeon/config_io.py:114-213 | expanding a tree's flattened names and leaves in any order gives back the tree if and only if its keys are non-empty and dot-free and it has no empty sub-mapping |
| `DottedKeys.ExpansionIsPlain` | src/modelsurgeon/config_io.py:196-213 | every accepted expansion of scalars is such a tree |
| `ReportedKeys.NamesInStringOrder` | src/modelsurgeon/config_io.py:114-123 | whatever the keys, the names are sorted as strings if and only if comparing what they spell key by key agrees with segment order on every two leaf paths |
| `ReportedKeys.ReportedKeysInOrder` | src/modelsurgeon/config_io.py:242-260 | over any number of layers whose merge has only identifiers for keys, the keys reported of a layer are sorted if and only if those below each mapping replaced by a later scalar are |
| `ReportedKeys.DiscoveredKeysInOrder` | docs/design/configuration.md:49 | the keys reported of the command line are sorted, and those of the environment and the file are unless a mapping that a higher layer replaces by a scalar has them out of order |
| `ReportedKeys.ReportedKeysOutOfOrder` | docs/design/configuration.md:49 | a file whose keys are reported out of order although the merged settings are those of the command line alone |
| `ReportedKeys.ReplacedMappingOutOfOrder` | src/modelsurgeon/config_io.py:242-260 | the same for every such mapping below every setting that the command line replaces |
| `DependencyGraph.CycleSearch.Visit` | tools/audit_post_v1.py:46-56 | terminates on every graph; the stack of visited nodes is as before, the key is finished or reported, and only nodes on real cycles are reported |
| `DependencyGraph.CycleNodes` | tools/audit_post_v1.py:40-60 | reported nodes lie on cycles, every cycle has a reported node, nothing is reported if and only if the graph is acyclic, and the reported nodes are exactly those that some node depends on without their finishing before it |
| `DependencyGraph.MilestoneSearch.Visit` | tools/progress.py:997-1008 | the same for the validator's search, whose edges go to known milestones only |
| `DependencyGraph.ValidateDependencyGraph` | tools/progress.py:993-1011 | cycle errors name only nodes of cycles, one for every cycle, none if and only if the inventory is acyclic; there is one error for each listed dependency on a milestone that does not finish before its dependant |
| `DependencyGraph.KnownKeepsCycles` | tools/progress.py:1005-1006 | skipping unknown dependencies loses no cycle |
| `DependencyGraph.TopologicalIsAcyclic` | tools/roadmap_catalog.py:716-732 | an order of all nodes with every dependency earlier excludes cycles |
| `Roadmap.ValidateLegacy` | tools/roadmap_catalog.py:716-732 | accepts if and only if keys are distinct, dependencies earlier and fields valid; a refusal is the first fault of the first faulty issue |
| `Roadmap.ValidatePost` | tools/bootstrap_post_v1.py:66-106 | fails with the exact list of faults in order, empty if and only if the catalog is valid, and then counts the issues of every milestone |
| `Roadmap.PostReportIsFaults` | tools/bootstrap_post_v1.py:66-106 | that list holds exactly the faults of the catalog |
| `Roadmap.AcceptedCatalogsAreOrdered` | tools/bootstrap_post_v1.py:66-106 | when both validators accept, keys are globally unique, every dependency is defined earlier and the combined graph is acyclic |
| `Roadmap.GraphNodes` | tools/audit_post_v1.py:41 | the nodes of the combined graph are the keys of the catalogs |
| `Roadmap.GraphEdges` | tools/audit_post_v1.py:41 | each with the dependencies of the last issue that has the key |
| `Roadmap.AuditCycles` | tools/audit_post_v1.py:40-60 | so `cycle_nodes` then returns the empty list |
| `Roadmap.BlocksByKey` | tools/bootstrap_post_v1.py:58-63 | collects the dependants of every key in catalog order, one entry per edge |
| `Roadmap.BlocksInvertDependencies` | tools/bootstrap_post_v1.py:58-63 | blocks is the exact inverse of the dependency relation, with multiplicity, and the number of edges is conserved |
| `Roadmap.StatusMeans` | tools/audit_github.py:125-129 | Done means closed, Blocked means open with an open dependency, and Ready means open with none |
| `Roadmap.NoDeadlock` | tools/audit_github.py:125-129 | while an issue of an ordered catalog is open some issue is Ready |
| `Roadmap.ReadyPersists` | tools/audit_github.py:125-129 | Ready never goes back to Blocked as other issues close |
| `Roadmap.RunKeepsClosure` | tools/audit_github.py:125-129 | along every run the closed set stays closed under dependencies |
| `Roadmap.RunCloses` | tools/audit_github.py:125-129 | every step of a run closes one issue that was open |
| `Roadmap.MaximalRuns` | tools/audit_github.py:125-129 | a run cannot go on if and only if it has closed all n open issues, in exactly n steps |
| `ReadmeSplice.CountOneMeansOnly` | tools/progress.py:1460-1463 | a count of one means one occurrence and that `index` finds it |
| `ReadmeSplice.SpliceExactly` | tools/progress.py:1460-1468 | a README is accepted if and only if each marker occurs once and the pair is in order, and then the block stands between the text before and the text after; which of the two refusals is raised otherwise |
| `ReadmeSplice.SpliceReplaces` | tools/progress.py:1466-1468 | around any marker-free text, whatever stood between the markers is replaced by the block |
| `ReadmeSplice.OccurrencesInMarked` | tools/progress.py:1466-1468 | no marker occurrence straddles a seam of the spliced text |
| `ReadmeSplice.SpliceAgain` | tools/progress.py:1460-1468 | the result can be spliced again if and only if the body has no marker, and a later splice replaces this block and nothing else |
| `ReadmeSplice.SpliceIsFixedPoint` | tools/progress.py:1460-1468 | splicing the same block again changes nothing, and the text before and after is that of the original |
| `ProgressDocs.Repository.Check` | tools/progress.py:1527-1549 | succeeds if and only if the README has its one pair of markers, every link leads to a file, and every generated file has its content, the README's being its own text around the new block |
| `ProgressDocs.Repository.Generate` | tools/progress.py:1527-1556 | under the same condition on the README and the links writes those files and leaves all others, and otherwise does nothing |
| `ProgressDocs.CheckAfterGenerate` | tools/progress.py:1527-1556 | `check` finds the result current if and only if the body has no marker, and generating again changes no file |
| `ProgressDocs.LaterRunsNeedMarkerFree` | tools/progress.py:1458-1469 | after a generation, any later rendering can be spliced if and only if the generated body has no marker |
| `ProgressDocs.MarkerStopsLaterRuns` | tools/progress.py:1527-1556 | after generating a body with a marker neither `check` nor `generate` succeeds again, whatever is rendered |
| `ProgressDocs.LastGenerationWins` | tools/progress.py:1527-1556 | generating from other data afterwards leaves no trace of the first generation |
| `IssueBody.AuditReadsRendering` | tools/audit_post_v1.py:83-91 | parsing a rendered body gives exactly its Blocks numbers, and its Blocked-by numbers up to link lines in the free text above, `- None` included |
| `LegacyBlocks.RenderedSection` | tools/bootstrap_post_v1.py:139-212 | a rendered body has an editable section with one line for each issue it blocks, in order, and keeps the text above and below |
| `LegacyBlocks.RewriteOfRendering` | tools/bootstrap_post_v1.py:287-293 | rewriting a rendered body with new children gives the rendering with the old and new ones together, sorted |
| `IssueTracker.BlockersAreRead` | tools/audit_post_v1.py:83-86 | the audit reads in a published body exactly the keys the issue depends on, legacy keys included |
| `IssueTracker.DependantsAreRead` | tools/audit_post_v1.py:87-91 | and exactly the issues that depend on it |
| `IssueTracker.PublishedLinksAreReciprocal` | tools/bootstrap_post_v1.py:139-140 | between issues of the catalog both bodies say the same, which is the dependency relation |
| `IssueTracker.LegacyAuditAfterRun` | tools/audit_post_v1.py:100-108 | after the update of all legacy bodies the audit passes a body if and only if it can see its section or its children above it |
| `IssueTracker.LegacyDependantsAreRead` | tools/audit_post_v1.py:100-108 | a new issue that depends on such a legacy issue is then found in that issue's body |
| `LegacyBlocks.Search` | tools/bootstrap_post_v1.py:287 | finds the leftmost match with the longest heading and the shortest section, or there is no match |
| `LegacyBlocks.UpdateIsExact` | tools/bootstrap_post_v1.py:287-293 | text outside the section is unchanged, and the section lists exactly the old numbers and the new children, sorted, each once |
| `LegacyBlocks.UpdateAgain` | tools/bootstrap_post_v1.py:287-293 | rewriting twice is rewriting once with all children, so the same children change nothing |
| `LegacyBlocks.AuditReadsToStop` | tools/audit_post_v1.py:104-105 | the audit reads the numbers between the first `Blocks:` and the next stop |
| `LegacyBlocks.AuditReadsToTheEnd` | tools/audit_post_v1.py:104-105 | and to the end of the body when there is no stop |
| `LegacyBlocks.AuditAfterUpdate` | tools/audit_post_v1.py:104-107 | the audit then finds every child if and only if no stop cuts the section off or the children were listed above it |
| `LegacyBlocks.HeadIsLeftAlone` | tools/bootstrap_post_v1.py:287-293 | lines above that hold no `Blocks:` change neither the rewrite nor what the audit reads |
| `LegacyBlocks.AuditMissesChildren` | tools/audit_post_v1.py:104-107 | for every roadmap key a body with its comment in which the audit misses every child after the rewrite |
| `IssueTracker.Tracker.UpdateLegacyBlocks` | tools/bootstrap_post_v1.py:277-300 | every section reached lists its old numbers and those of exactly the issues that depend on its key, sorted, with the text around it unchanged; a body no issue depends on is left alone and never stops the run; the count is of the bodies really changed; the run stops at the first body without a section |
| `IssueTracker.SecondRunChangesNothing` | tools/bootstrap_post_v1.py:277-300 | a second run changes no body and counts no change |
| `Scoring.CalculateProgress` | tools/progress.py:159-211 | every number the loops accumulate is the weighted mean it stands for |
| `Scoring.ScoresInRange` | tools/progress.py:138-211 | every local, workstream, dimension and overall score lies between 0 and 100 |
| `Scoring.ScoresAreMonotone` | tools/progress.py:138-211 | moving statuses up their tables lowers no score at any level |
| `Scoring.SameWorthEverywhere` | tools/progress.py:138-211 | when every scored status is worth the same, so is every local, workstream, dimension and overall score that something stands behind, and every other score is 0 |
| `Scoring.LocalScoresAreLocal` | tools/progress.py:159-200 | the scores of a workstream depend on its own milestones only |
| `Scoring.WeightPulls` | tools/progress.py:170-179 | as a milestone grows heavier its local score moves strictly toward what its status is worth, and never past it |
| `Scoring.OverallIsMeanOfDimensions` | tools/progress.py:185-211 | with shared dimension weights and full scoring the overall score is the dimension-weighted mean of the global dimension scores |
| `History.ValidateHistory` | tools/progress.py:665-762 | reports the exact list of faults in order, empty if and only if the history and its current record are accepted |
| `History.ReportIsFaults` | tools/progress.py:665-762 | that list holds exactly the faults of the events, the steps and the current record |
| `History.EventFaultsReported` | tools/progress.py:687-710 | which faults of single events are reported: an unknown status, a bad outcome, an outcome without a conclusion or the reverse, a bad date |
| `History.StepFaultsReported` | tools/progress.py:675-739 | a date is reported if and only if it goes back, and a changed outcome if and only if reassessment or reason is missing |
| `History.FallsReported` | tools/progress.py:713-731 | a fall of research, implementation or readiness is reported if and only if reassessment, reason or evidence is missing |
| `History.CurrentFaultsReported` | tools/progress.py:743-762 | which differences from the last event, and which unfounded claim of main readiness, are reported of the current record |
| `History.AcceptedSpelledOut` | tools/progress.py:665-762 | acceptance in terms of the records: known statuses, outcomes paired with conclusions, calendar dates that never go back, reassessments for falls and changed outcomes, and a matching current record |
| `History.MainReadiness` | tools/progress.py:755-762 | in an accepted history main readiness stands on an integrated, regression-tested or production-validated implementation |
| `History.MainReadinessVerdict` | tools/progress.py:755-762 | and each of these three is accepted, while no other status is |
| `History.ReassessmentVerdict` | tools/progress.py:712-739 | on any accepted history, a fall passes if and only if reassessment, reason and evidence are all there, and a changed outcome if and only if reassessment and reason are |
| `History.FallVerdict` | tools/progress.py:713-731 | a history with a fall, accepted with all three and refused without any one of them |
| `History.OutcomeVerdict` | tools/progress.py:732-739 | a history with a changed outcome, accepted with reassessment and reason and refused without either |
| `History.DateVerdict` | tools/progress.py:701-710 | a written date is accepted if and only if the year is not zero and the month has the day |
| `History.DatesAreWritten` | tools/progress.py:701-702 | and no text of another shape is |
| `History.DateOrder` | tools/progress.py:675 | comparing two dates as strings compares them as dates |
| `History.FallNeedsReassessment` | tools/progress.py:713-731 | a score is lower later only if an evidence-backed reassessment in between lowered it |
| `History.OutcomeChangeNeedsReason` | tools/progress.py:732-739 | a concluded outcome changes only at a reasoned reassessment |
| `History.HistoryNeverFalls` | tools/progress.py:671-742 | without reassessment nothing falls, and a conclusion stands with its outcome |
| `History.CurrentDominates` | tools/progress.py:743-754 | the current record is at least as good as every event since the last reassessment |
| `History.DatesNeverGoBack` | tools/progress.py:675-677 | along an accepted history calendar dates never decrease |
| `History.EffectivenessIsFree` | tools/progress.py:671-754 | histories that differ only in effectiveness, all statuses known, are accepted alike |
| `History.EffectivenessMayFall` | tools/progress.py:714-718 | an accepted history in which effectiveness falls without reassessment |
| `History.OutcomeMayFlipWithoutEvidence` | tools/progress.py:732-739 | an accepted history whose outcome flips without evidence |
| `Deduplication.SameClass` | src/modelsurgeon/active_learning/candidate_deduplication.py:64-90 | when two candidates have the same key: declared alike, or both undeclared with equal kind, parameters and components in any order |
| `Deduplication.DeduplicateCandidates` | src/modelsurgeon/active_learning/candidate_deduplication.py:93-126 | refuses if and only if a class is both completed and in flight; otherwise the accepted, the excluded with their reasons, and the keys, in order |
| `Deduplication.ReportSplitsInput` | src/modelsurgeon/active_learning/candidate_deduplication.py:112-126 | every input stands at its place among the accepted or among the excluded, with the reason that its key is completed, or else in flight, or else seen before; nothing else is listed |
| `Deduplication.AcceptedExactly` | src/modelsurgeon/active_learning/candidate_deduplication.py:112-126 | accepted keys are distinct and are the input's keys without completed and in-flight ones |
| `Deduplication.AcceptedClassesIgnoreOrder` | src/modelsurgeon/active_learning/candidate_deduplication.py:112-126 | the accepted classes do not depend on the input order |
| `Deduplication.AcceptedIsFirst` | src/modelsurgeon/active_learning/candidate_deduplication.py:112-126 | a candidate is accepted if and only if it is the first of a new class |
| `Deduplication.OneBatchOrTwo` | src/modelsurgeon/active_learning/candidate_deduplication.py:93-126 | one batch or two in turn accept the same candidates, and no new conflict arises |
| `StudySelection.BestIsBest` | tools/run_v09_iterative_study.py:429 | the selected measurement of generation one is of least quality value and, among those, of the least id as a string |
| `StudySelection.RankingOrder` | tools/run_v09_iterative_study.py:459 | the ranking goes by quality value and then by id |
| `StudySelection.BestPairIsBest` | tools/run_v09_iterative_study.py:457 | the pair kept without repair is of least quality value and, among those, of the least id as a string |
| `StudySelection.Select` | tools/run_v09_iterative_study.py:457-461 | the selections from two generations: the one-shot pair is missing if and only if one channel takes both first places, and otherwise the pair kept is never of worse quality than it |
| `HuggingFaceStudy.Study` | tools/run_v09_iterative_study.py:150-253 | succeeds if and only if there are two or more distinct channels in a wide enough model; the missing pair is reached if and only if one channel takes both first places, and is refused |
| `NativeStudy.Artifacts.Mutate` | tools/run_v09_iterative_study.py:275-291 | refuses channels that cannot be removed, then a width that is not whole blocks, then an existing destination, and otherwise writes the rows that are left |
| `NativeStudy.Artifacts.Study` | tools/run_v09_iterative_study.py:413-461 | succeeds if and only if there are two or more distinct channels in a wide enough model stored value by value and no artifact exists yet; no file is overwritten, the files written are those of the two generations, each the baseline without its channels, and the missing-pair branch is never taken |
| `StudySelection.DistinctChannelsSuffice` | tools/run_v09_iterative_study.py:459-462 | with two or more distinct channels the one-shot pair is always among the measured pairs |
| `ChannelRemoval.CanRemoveMeans` | src/modelsurgeon/surgery/native_mlp_plan.py:118-130 | the lists accepted for removal are those of some, but not all, channels in increasing order |
| `ChannelRemoval.RemoveInTurnIsOneShot` | tools/run_v09_iterative_study.py:440 | removing any number of channels in turn with renumbering leaves the channels outside the set, in order, whatever the order of removal |
| `ChannelRemoval.TwoStepsAreOneShot` | tools/run_v09_iterative_study.py:433-444 | the study's two steps leave what the one-shot removal leaves, whichever channel goes first |
| `ChannelRemoval.ChannelTargets` | src/modelsurgeon/surgery/native_mlp_plan.py:202-219 | the running count of removed channels gives every channel its target |
| `ChannelRemoval.KeptChannelMoves` | src/modelsurgeon/surgery/native_mlp_plan.py:202-219 | the target of a kept channel is the place where the removal puts it |
| `Vocabulary.NoHoleMeansBijective` | tools/export_smollm2_f16_gguf.py:29-35 | with all ids in range, no hole already means that no id is used twice |
| `Vocabulary.RepeatedIdLeavesHole` | tools/export_smollm2_f16_gguf.py:29-35 | a repeated id always leaves a hole |
| `Vocabulary.FillTokens` | tools/export_smollm2_f16_gguf.py:29-33 | the fill loop ends if and only if every entry is valid, with each stored id holding one of its tokens, whatever the order of entries |
| `Vocabulary.ExportVocabulary` | tools/export_smollm2_f16_gguf.py:26-79 | succeeds if and only if the vocabulary has the configured size and is a bijection onto 0 to n-1; then every token stands at its id, the filter drops none and types stay aligned |

## Left out

- Reading and writing files, GitHub and `gh` calls, subprocesses, argument parsing and printing: only the data they carry is modelled.
- YAML, TOML and JSON parsing: what an environment value parses to is a parameter; a JSON vocabulary value is an integer or not.
- Non-string keys of nested mappings, which make `_merge` and `_dotted_keys` raise: keys are strings.
- Unicode: letter case is ASCII case, and the digits of `\d` and `int` are ASCII digits.
- Validation of the merged mapping by `Settings`, except that it refuses keys that are not names of fields, which is a hypothesis where it matters; redaction of secrets, and digests of the configuration.
- Line-ending translation when files are read and written: texts are taken after translation.
- ConfigIo.ExpandDottedOverrides: builds each chain of mappings on values; the aliasing cursor is modelled for the environment builder only, where dictionaries persist between steps.
- The iteration order of Python dicts and sets: loops over them take elements in an arbitrary order, so what is proved holds for every order.
- The fixed text of issue bodies: what stands above and below the dependency sections is arbitrary; above, `Blocks:` must not occur.
- The regular expression that finds link targets in generated documents, and path resolution: a document's targets are a parameter.
- The Markdown renderers of `progress.py`: every rendered body is an arbitrary string.
- Labels, titles and milestones in the audits, required body sections, and native dependency links: the status rule takes the catalog's dependencies, which the audit requires the native links to equal.
- Floating-point rounding: scores and qualities are reals. A dimension weight missing from a workstream, which the validator refuses beforehand, counts as zero.
- Missing or non-object fields of history events, evidence references, and the other checks of `validate` on milestones. A current record that claims main readiness with an unknown implementation status is an error in the model and a `KeyError` in the code.
- SHA-256 and canonical JSON: an equivalence key is the payload that is hashed, as if the hash had no collisions.
- Loading and measuring models: a measurement's quality is a parameter. A model or GGUF file is its list of channels, with one block size along them (the least common multiple where the codecs of the layers differ); disk space, resumed writes and the repair and comparison of arms after the selections are not modelled.
- Tensors, merges and the GGUF writer of the exporter.
- Release audit scripts, catalog data, compatibility scores and performance tools: field-by-field comparisons of constants, or plain data.
