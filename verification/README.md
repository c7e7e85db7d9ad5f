# Verified models of the release, CI and CLI tooling

This project models nine algorithms of the repository in Dafny and proves what they promise. Each
group of modules follows one source file and takes its form: code that updates state is a class or a
loop over variables, proved against a specification; code made of expressions is functions and
lemmas. Exceptions and error returns are `Option` or datatype results. What a definition shared by a
program and its rule means is stated once more, in the source's own terms, beside it. `Options`,
`Texts`, `TextLines` and `Utf8` hold what several groups share. `dafny verify dfyconfig.toml` checks
everything.

**Dependency pins** (`LockRecords`, `DependencyGraph`, `DependencyWalk`, `MarkerText`, `Orders`,
`MarkerForms`, `DependencyPins`, `PinsMeaning`, `PinsEscape`, `PinsText`;
runner/export_dependency_pins.py). The exporter walks the lock's dependency graph, which may be
cyclic, and prunes a state as soon as a recorded one has no more markers and no fewer extras, even
while that one is still being expanded. Chains of dependencies from `curie-runner`, read from the
records field by field, are the reference. Proved: the walk ends on every lock, refuses exactly when
some reachable state is malformed, keeps exactly the inclusion-minimal marker sets, and each
exported line, its marker read by the PEP 508 grammar, applies under an environment exactly when all
markers of some chain to its package hold. Findings: a marker is checked only for blanks, line
breaks and `;`, so the text `p) or (q` is accepted, and on an accepted lock installs a package no
chain to which holds (`UnbalancedMarkerInstalls`); a package's rendered paths mean what its chains
mean exactly when each marker of its minimal sets is a marker by itself (`PathsReadExactly`). A
version is checked only for being there, so that `1 ; q` puts a marker on its line
(`VersionAddsMarker`); the printed text reads back as the exported records exactly when no field
holds what separates fields or lines (`TextReadsBack`).

**The `timeout` signal protocol** (`SignalProtocol`; cli/scripts/gnu-process.py). A step system that
interleaves the main program, nested Python handlers, signal delivery, outside signals and the
command's exit. Proved over every run: a handler sends the signal to the child and, unless in the
foreground, to the group, with SIGCONT to both, in order and each once; no handler signals a reaped
or unrecorded pid, the group is only signalled with a signal already ignored, no wake-up is lost,
the wrapper ends within a computed number of its own steps after the command exits, nine more for
each signal that still arrives, a signal held during a start that fails ends the wrapper, and the
final status is the documented one. Finding: a signal held during a start that succeeds is passed on
exactly when some poll finds the command still running (`HeldSignalPassedIffWaited`); when the
command has exited by the first poll, the signal is never handled (`HeldSignalCanBeLost`).

**Test shards** (`GreedyLoads`, `LptBound`, `LptTight`, `TieredBound`, `TieredTight`, `Shards`,
`ShardBounds`, `ShardCollection`; conftest.py). Proved for any number of groups and shards: the
plain split satisfies 3m·load ≤ (4m−1)·L against every other assignment with largest load L, and for
every m some sizes attain the bound. Against every assignment that respects the tiers, the tiered
split satisfies m·load ≤ (2m−1)·L, which is attained when a restricted tier is booted on every shard
and so comes before larger unrestricted groups; when none is, the split is within 5/4 for two shards
and within 2−1/(m−1) for more. The shards partition the suite.

**Chart digests** (`ChartLines`, `ChartPatterns`, `ChartDigests`, `ChartPin`, `ValuesText`,
`ChartFile`, `ChartArgs`; release/pin_chart_digests.py). Proved: lines are read as the patterns
prefer to match them; a pin rewrites one distinct digest line per image and nothing else, keeps the
block structure, so that locating finds the same places and the read-back check never refuses, and a
second pin refuses. Finding: `splitlines` also ends lines at characters the patterns do not treat as
a line ending; the pinned text splits into the pinned lines exactly when every rewritten line keeps
its separator, which newline and CRLF files do. A values file whose digest lines end in vertical
tabs is pinned and does not (`SeparatorDecides`).

**Migration scanner** (`MigrationTree`, `MigrationScope`, `MigrationEscapes`, `MigrationModule`,
`MigrationForms`, `MigrationReach`, `MigrationScan`, `MigrationMissed`;
scripts/check-contract-migration-timing.py). The reference is resolution of names as in section
4.2.2 of the Python Language Reference, and runs of the module. Which calls are drops is the
scanner's own test of the receiver's name, on both sides. Proved for tidy modules: every argument
the scanner resolves is what the name means there after every run, every reported object is named by
a recognised drop of a reached function, and with no non-literal report all of those are reported;
the worklists compute exactly what is reachable. Findings, each with its code: an assignment
expression in a nested header, `global` in a class body, `global` in a scope inside a batch block,
and a plain target bound again by a later target of the same assignment each make the scanner take a
local or lost name for the module's constant. A function under an `except` handler or a `case`, a
method, a lambda and a generator at module level are not scanned (`DeferredCodeIsMissed`); the
scanner collects all code a module defines for later exactly when there is none of these
(`CollectsEveryDefinition`). A function that module code stores, as by `steps.append(helper)`, is
collected and not reached (`StoredFunctionIsMissed`): reached means by the names that the statements
binding a name read.

**Release authorization** (`CheckRuns`, `CheckRunPages`, `Authorize`; release/authorize.py,
release/atlas.py). Proved: the gate authorizes exactly when the rule allows it, with the one proof
the rule names, and fetches no other commit's checks; another commit's checks count only when every
required check here is satisfied or undecided.

**Bundles** (`FileTree`, `Bundle`, `IgnoreRules`, `BundlePack`; cli/src/bundle.rs) and **skills**
(`TreeDigest`, `SkillInstall`, `Sets`; cli/src/agent_skills.rs). Proved: the pruned walk archives
exactly the files with no excluded prefix; state under `.curie` never changes an archive; a clean
status means the committed tree packs alike; the hashed bytes determine the tree; whichever
file-system call fails, each destination holds the old tree, the new tree, or nothing with the old
tree retained in a backup. Finding: a destination counts as current when it holds every file of the
skill, extra files or not, and a failed read makes it look like an upgrade (`FailedReadReplaces`).
Whatever an interrupted run left, a rerun leaves what one run without failures would have left
exactly when no destination was both current with extra entries and an earlier release
(`RerunConverges`).

## Model

| member | source | states |
|---|---|---|
| DependencyGraph.ClosedCoverReaches | runner/export_dependency_pins.py:99-112 | a family of states that covers its own successors covers everything reachable, however much was pruned to build it |
| DependencyGraph.SoundSubsumed | runner/export_dependency_pins.py:99-112 | pruning hides no error: a state passes its checks when a state subsuming it does |
| DependencyGraph.SubsumesFollow | runner/export_dependency_pins.py:99-105 | fewer markers and more extras keep every dependency edge, and stay fewer and more along it |
| DependencyGraph.EndConditions | runner/export_dependency_pins.py:172-178 | the conditions at the end of a chain are the markers along it |
| DependencyGraph.UniverseClosed | runner/export_dependency_pins.py:127-178 | the walk stays in a finite set of states fixed by the lock |
| LockRecords.EntryReads | runner/export_dependency_pins.py:135-178 | a dependency entry is read exactly when it is a table with a name, a valid marker or none, and a list of names as extras or none, and as exactly that |
| LockRecords.SourceReads | runner/export_dependency_pins.py:38-63 | a record passes exactly when it declares its source and, from a registry, a version, a list of wheels or none, and at least one artifact, each with a sha256; the hashes are those of the wheels and the sdist |
| LockRecords.PartsNormalize | runner/export_dependency_pins.py:24-25 | a name is normalized part by part: runs of separators to one dash (`SeparatorsNormalize`), the rest letter by letter (`WordNormalizes`) |
| DependencyGraph.DeclaresReads | runner/export_dependency_pins.py:180-199 | a record declares what the entries of its `dependencies` say, and those of `optional-dependencies` under the extras asked for |
| DependencyGraph.SoundReads | runner/export_dependency_pins.py:114-199 | the checks of a state in terms of the record's fields |
| DependencyWalk.KeepMinimal | runner/export_dependency_pins.py:91-97 | the kept condition sets are known ones, lie below every known one, and stay an antichain |
| DependencyWalk.Walk.Note | runner/export_dependency_pins.py:91-97 | recording a path's markers keeps the walk's invariant and puts a subset of them among the package's condition sets |
| DependencyWalk.Walk.Enter | runner/export_dependency_pins.py:99-112 | a state is expanded exactly when no recorded state covers it, and what was covered stays covered |
| DependencyWalk.Walk.Pin | runner/export_dependency_pins.py:114-125 | a source is refused exactly when invalid, and exactly the traversed registry packages are pinned, each to its own version and hashes |
| DependencyWalk.Walk.Visit | runner/export_dependency_pins.py:86-199 | a successful visit covers its state and settles every state it recorded; a refusal means some reachable state is unsound; it ends because every expansion shrinks the uncovered states |
| DependencyWalk.Walk.VisitDependencies | runner/export_dependency_pins.py:127-178 | a list is accepted only when every entry is valid, resolved and listed once, and then every entry's state is covered |
| DependencyWalk.EnterShrinks | runner/export_dependency_pins.py:99-112 | entering an uncovered state strictly shrinks the set of uncovered states |
| DependencyPins.IndexOfRecords | runner/export_dependency_pins.py:68-73 | an index exists exactly when every record names a package and none is named twice, and maps each name to its record |
| DependencyPins.BuildIndex | runner/export_dependency_pins.py:66-73 | the loop builds that index or refuses |
| DependencyPins.WalkComplete | runner/export_dependency_pins.py:86-199 | after the walk every reachable state is sound and covered, and the kept condition sets are exactly the inclusion-minimal ones over all chains |
| DependencyPins.RenderConditions | runner/export_dependency_pins.py:210-227 | the marker is built from the sorted paths of sorted markers, and is absent when a path has none |
| DependencyPins.ExportPins | runner/export_dependency_pins.py:206-231 | one line for each needed package, in name order, with its version, sorted hashes and minimal condition sets |
| DependencyPins.RunnerDependencyPins | runner/export_dependency_pins.py:66-231 | a lock is accepted exactly when it is well formed and every reachable state is sound, and the lines are its export, without the runner |
| DependencyPins.LockReads | runner/export_dependency_pins.py:28-36 | a lock is accepted when every package record has a name, no two the same, `curie-runner` lists dependencies, and every reachable state passes its checks |
| MarkerText.PathMarkerMeaning | runner/export_dependency_pins.py:214-221 | a path's marker is a PEP 508 marker that holds exactly when all its markers hold |
| MarkerText.PathMarkerExact | runner/export_dependency_pins.py:214-221 | a path's text is a marker that holds exactly when all its markers hold, if and only if each of them is a marker by itself |
| MarkerText.CombinedMarkerMeaning | runner/export_dependency_pins.py:222-226 | the combined marker holds exactly when some path's marker holds, no path's `or` escaping its parentheses |
| MarkerText.MarkersWritten | runner/export_dependency_pins.py:214-226 | one marker or path is written as it is, more stand in parentheses with ` and ` or ` or ` between them |
| MarkerForms.OperandsRead | runner/export_dependency_pins.py:149-158 | of the words only PEP 508's variables make a comparison, of the strings only those of its characters |
| MarkerForms.OperatorsRead | runner/export_dependency_pins.py:149-158 | of the runs of operator characters only PEP 508's eight compare |
| PinsMeaning.MinimalBelow | runner/export_dependency_pins.py:91-97 | below the markers of every chain lies a minimal set |
| PinsMeaning.RenderedMeaning | runner/export_dependency_pins.py:210-227 | a rendered marker holds exactly when all markers of some condition set hold |
| PinsMeaning.ExportMeaning | runner/export_dependency_pins.py:86-229 | under every assignment of truth values, a package whose minimal sets hold markers only has a line that applies exactly when it comes from a registry, is not the runner, and some chain to it has all markers true |
| PinsMeaning.LineMeaning | runner/export_dependency_pins.py:206-229 | the line of such a package applies exactly when the markers of some chain to it hold |
| PinsMeaning.ExportUnique | runner/export_dependency_pins.py:206-231 | a lock has one export |
| PinsMeaning.OrderOfRecordsIrrelevant | runner/export_dependency_pins.py:91-112 | locks that differ in the order of dependency records are accepted alike and export the same lines |
| PinsEscape.UnbalancedMarkerEscapes | runner/export_dependency_pins.py:149-158 | the text `p) or (q` passes the checks and is no marker, and a path of it and `r` holds exactly when `p` holds, or `q` and `r` do |
| PinsEscape.PathsReadExactly | runner/export_dependency_pins.py:214-221 | every rendered path of a package is a marker that means all its markers, exactly when each marker of the package's minimal sets is a marker by itself |
| PinsEscape.UnbalancedMarkerInstalls | runner/export_dependency_pins.py:149-229 | a lock with that marker is accepted, and the exported line of its second package applies when `p` holds although no chain to it holds |
| PinsText.LineReadsBack | runner/export_dependency_pins.py:209-229 | an emitted line, taken apart at its first option, `;`, `=` and comment, gives back its record exactly when no field holds one of these |
| PinsText.TextReadsBack | runner/export_dependency_pins.py:206-237 | the printed text gives back the exported records exactly when, further, no field holds a line break |
| PinsText.PrintedMeaning | runner/export_dependency_pins.py:66-237 | in an accepted lock whose reachable markers are markers, with such fields, the printed text has a line that applies to a package exactly when it comes from a registry, is not the runner, and some chain to it holds |
| PinsText.VersionAddsMarker | runner/export_dependency_pins.py:117-124 | a record whose version is `v ; q` is accepted, and its line reads as version `v` with the marker `q` |
| PinsText.LineWritten | runner/export_dependency_pins.py:209-229 | a line as it is written |
| Orders.TextLeIs | runner/export_dependency_pins.py:206-213 | texts are ordered by the code of their first differing character, a beginning before the whole |
| SignalProtocol.StepInv | cli/scripts/gnu-process.py:96-157 | every step keeps the invariant on mask, handlers, child, pipe and dispositions |
| SignalProtocol.RunInv | cli/scripts/gnu-process.py:96-157 | the invariant holds along every run until the wrapper ends |
| SignalProtocol.SignalsAreSafe | cli/scripts/gnu-process.py:96-110 | a handler signals the child's pid only while it is recorded and not reaped, and the own group only with a signal already ignored |
| SignalProtocol.SignalIsPassedOn | cli/scripts/gnu-process.py:96-110 | over every run, between a signal's handling and the return of its handler, that handler sends it to the child and, unless in the foreground, ignores it, sends it to the group and sends SIGCONT to both, in this order and each once |
| SignalProtocol.HandlerMakesItsCalls | cli/scripts/gnu-process.py:96-110 | at any point of a handler the calls made and the calls to come are all of its calls, whatever handlers run above it |
| SignalProtocol.HandlerHasSent | cli/scripts/gnu-process.py:97-107 | when it returns, the signal, SIGTERM for an expiry, has been sent to the child, and ignored unless in the foreground |
| SignalProtocol.HandlerStarts | cli/scripts/gnu-process.py:104-106 | a handler starts only for a signal that is not ignored, so not for the one sent to the own group |
| SignalProtocol.NoLostWakeUp | cli/scripts/gnu-process.py:114-156 | at the pipe read with the command exited, a byte is in the pipe or a deliverable signal writes one |
| SignalProtocol.SomeStepEnabled | cli/scripts/gnu-process.py:149-157 | once the command has exited, some step of the wrapper or kernel is always possible |
| SignalProtocol.StepLeavesLess | cli/scripts/gnu-process.py:149-165 | every such step leaves strictly less to do |
| SignalProtocol.EndsAfterExit | cli/scripts/gnu-process.py:149-165 | in any run after the exit the steps that are no arriving signal number at most the work left plus nine for each arrival, so the wait never blocks for good |
| SignalProtocol.NoHandlerWhileStarting | cli/scripts/gnu-process.py:125-138 | while the command is being started no signal is delivered or handled |
| SignalProtocol.HeldSignalReachesCommand | cli/scripts/gnu-process.py:125-143 | once a wait has begun, a signal held during the start has been passed to the recorded child |
| SignalProtocol.HeldSignalPassedIffWaited | cli/scripts/gnu-process.py:125-157 | over every ended run whose start succeeded, a signal held during the start was passed on exactly when a wait began, which is when some poll found the command running |
| SignalProtocol.HeldSignalCanBeLost | cli/scripts/gnu-process.py:125-157 | a run in which a signal arrives during the start, the command exits before the first poll, and the wrapper ends with the command's status having passed nothing on |
| SignalProtocol.HeldSignalEndsFailedStart | cli/scripts/gnu-process.py:139-143 | if the start fails instead, a handler ends the wrapper with 129, 130, 131 or 143 by the signal, an expiry counting as SIGTERM |
| SignalProtocol.FailedStartStatus | cli/scripts/gnu-process.py:139-143 | unless a handler ends it, the wrapper ends with the status of the start that failed |
| SignalProtocol.History | cli/scripts/gnu-process.py:94-99 | the wrapper's record of expiry and of the child's status is what happened in the run |
| SignalProtocol.FinalStatus | cli/scripts/gnu-process.py:157-165 | the final status is the documented function of the command's status and of whether the alarm handler ran |
| GreedyLoads.LeastLoaded | conftest.py:226-228 | the chosen shard has the least load, and every shard before it more |
| GreedyLoads.LastGroupBound | conftest.py:223-247 | where the last group lands, limit·load is at most limit·L plus (limit−1) times its size |
| LptBound.FirstGroups | conftest.py:223-230 | while shards are empty, groups go to them in order |
| LptBound.SharedShard | conftest.py:223-230 | with more than m groups larger than a third of L, any assignment within L puts a large one together with another |
| LptBound.LightShard | conftest.py:223-230 | before the last group some shard holds a single group no larger than group 2m−n |
| LptBound.LargeLastGroup | conftest.py:223-230 | when the last group is larger than a third of L, its shard stays within L |
| LptBound.FourThirds | conftest.py:223-230 | longest-first greedy satisfies 3m·load ≤ (4m−1)·L on every shard, for every other assignment |
| LptTight.FourThirdsTight | conftest.py:223-230 | for every number m of shards, sizes 2m−1, 2m−1, …, m+1, m+1, m, m, m make greedy put 4m−1 on a shard where another assignment stays within 3m |
| TieredBound.FreeTotal | conftest.py:231-247 | when the last unrestricted group is larger than the least load, earlier ones lie on shards of their own, so that all sizes add up to u of its size and the least load on every other shard |
| TieredBound.SeparateBound | conftest.py:231-247 | greedy by widening limits, the unrestricted groups by falling size, is within 5/4 of every admissible assignment to two shards and within 2−1/(m−1) for more |
| TieredTight.TwiceTight | conftest.py:231-247 | for every m, m(m−1) groups of one test placed before one of m tests make greedy put 2m−1 on a shard where m would do |
| Shards.FirstLeast | conftest.py:226-228 | the loop finds the first least load among the admissible shards |
| Shards.Place | conftest.py:221-247 | placing the sorted groups yields the greedy owner map, and is refused exactly when some group has no shard |
| Shards.AssignShards | conftest.py:209-247 | both splits place the groups in their documented order, greedily, and refuse exactly when some group of tier 1 meets STORAGE 0 or some group of tier 2 meets FULL 0 |
| Shards.TieredOrder | conftest.py:231-236 | higher tiers come first, then larger groups, then by name; an unlisted group has tier 0 |
| Shards.PlainOrder | conftest.py:223-226 | larger groups come first, equally large ones by name |
| ShardBounds.PlainSplitBound | conftest.py:223-230 | the plain split's every shard is within (4m−1)/(3m) of any assignment of the same groups |
| ShardBounds.TieredSplitBound | conftest.py:231-247 | with nested limits the tiered split is within 2−1/m of every assignment that respects the tiers; when no restricted tier is booted on every shard, within 5/4 for two shards and 2−1/(m−1) for more |
| ShardBounds.GroupsOnTheirTier | conftest.py:231-247 | every group of tier 1 lands on the first STORAGE shards, every group of tier 2 on the first FULL ones |
| ShardBounds.UnrestrictedIsPlain | conftest.py:231-247 | when no group needs a tier, the tiered split is the plain split |
| ShardCollection.CountGroups | conftest.py:161-170 | the loop counts the tests of each group |
| ShardCollection.SplitGroups | conftest.py:172-194 | the split asked for is made exactly when the limits are nested and every needed tier has a shard |
| ShardCollection.KeepOwned | conftest.py:195-198 | exactly the tests whose group the shard owns are kept, in order |
| ShardCollection.KeptIs | conftest.py:161-170 | a shard keeps exactly the tests whose group it owns: the first group they name themselves, else one for all protected files, one for all shared files, the test's own if independent, and the file's |
| ShardCollection.ModifyItems | conftest.py:160-198 | collection keeps this shard's tests under an owner map of the split, or refuses for the stated reasons |
| ShardCollection.ShardsPartition | conftest.py:195-198 | the tests kept by all shards together are the suite, each once |
| ShardCollection.LoadIsTestCount | conftest.py:179-198 | the load a split balances, plus the tests that stray into the shard by a group of their own, is what the shard runs plus the tests that stray out of it; without such groups it is the number of tests the shard runs |
| ChartLines.DigestLineShape | release/pin_chart_digests.py:42-45 | what the digest pattern captures: an indent, a comment of spaces and `#`, and a known line ending |
| ChartLines.PinnedReadsBack | release/pin_chart_digests.py:208-211 | a rewritten line is matched again with the same indent, comment and ending and the quoted digest as value |
| ChartLines.QuotedScalar | release/pin_chart_digests.py:88-92 | the scalar of a quoted digest is the digest |
| ChartLines.PinnedKeepsShape | release/pin_chart_digests.py:79-86 | a rewritten line is content at the same indent under the key `digest`, as it was |
| ChartPatterns.DigestLineMatches | release/pin_chart_digests.py:42-45 | what is read of a digest line covers it in the order of the pattern's groups |
| ChartPatterns.DigestLineIsPreferred | release/pin_chart_digests.py:42-45 | a line the pattern matches in any way is read, and any other way has fewer spaces or a longer value |
| ChartPatterns.KeyLineMatches | release/pin_chart_digests.py:41-41 | what is read of a key line covers it, the whole line ending apart |
| ChartPatterns.KeyLineIsPreferred | release/pin_chart_digests.py:41-41 | a line the key pattern matches in any way is read with that indent and key and no longer a rest |
| ChartPatterns.ScalarIs | release/pin_chart_digests.py:88-92 | the scalar is the value without blanks, comment and quotes around it |
| ChartPatterns.ContentIs | release/pin_chart_digests.py:79-81 | a line is content when its first character that is no blank starts no comment |
| ChartDigests.ChildKeys | release/pin_chart_digests.py:95-114 | the loop maps each direct child key of a block to its line, and refuses exactly when a key appears twice |
| ChartDigests.BlockEnd | release/pin_chart_digests.py:117-122 | the loop finds the first later content line indented no deeper than the header |
| ChartDigests.Locate | release/pin_chart_digests.py:125-142 | the digest line and repository found are those of the nested block, or nothing |
| ChartDigests.FieldsDiffer | release/pin_chart_digests.py:125-142 | images under different top keys have different field lines, because their blocks do not overlap |
| ChartDigests.CollectEdits | release/pin_chart_digests.py:186-213 | edits are collected exactly when every image can be pinned, one per image, each on its digest line |
| ChartPin.ShapesKept | release/pin_chart_digests.py:215-215 | every line of the pinned file keeps its indent, content and key |
| ChartPin.LocatedKept | release/pin_chart_digests.py:217-218 | locating finds the same index and repository after the pin |
| ChartPin.ReadsBack | release/pin_chart_digests.py:217-221 | each image's digest line reads back its own digest with indent, comment and ending unchanged |
| ChartPin.ChangesExactlyDigestLines | release/pin_chart_digests.py:196-215 | a line changes exactly when it is some image's digest line, and no two images share one |
| ChartPin.SecondPinRefuses | release/pin_chart_digests.py:203-207 | no image of a pinned file can be pinned again |
| ChartPin.PinLines | release/pin_chart_digests.py:186-222 | the pin succeeds exactly when every image can be pinned; its read-back loop refuses nothing |
| TextLines.SplitJoins | release/pin_chart_digests.py:187-222 | joined lines split into themselves exactly when they are lines of a split |
| ValuesText.Pin | release/pin_chart_digests.py:186-222 | the pinned text is the join of the pinned lines of the split text |
| ValuesText.PinnedTextSplits | release/pin_chart_digests.py:187-222 | the pinned text splits into the pinned lines exactly when every rewritten line keeps its separator |
| ValuesText.PinnedTextReadsBack | release/pin_chart_digests.py:186-222 | on newline and CRLF files the pinned text locates every image where it was and refuses a second pin |
| ChartFile.SeparatorDecides | release/pin_chart_digests.py:186-222 | a values file with all chart images can be pinned with its digest lines ended by newlines or by vertical tabs, and the pinned text splits into the pinned lines in the first case only |
| ChartFile.FileWritten | release/pin_chart_digests.py:63-76 | the file of that result, line by line, with every chart image at its place |
| ChartArgs.ReadsArguments | release/pin_chart_digests.py:150-175 | an argument is read exactly when it is `name=repository@digest` of a chart image with a valid digest, and as that |
| ChartArgs.ParseImageArgs | release/pin_chart_digests.py:145-183 | arguments are accepted exactly when they supply each chart image once and nothing else, and give those digests |
| CheckRuns.CurrentAttempts | release/authorize.py:269-304 | the current attempts are the latest, and there are none exactly when some attempt has no time |
| CheckRuns.MissingRequiredChecks | release/authorize.py:307-357 | a required name is missing exactly when it has no run or a deciding run does not pass |
| CheckRuns.HasContraryRequiredEvidence | release/authorize.py:405-435 | evidence is contrary exactly when a deciding run of a required name concluded without passing |
| CheckRuns.OlderAttemptIrrelevant | release/authorize.py:269-304 | an older orderable attempt changes no verdict |
| CheckRuns.SatisfiedByLatest | release/authorize.py:307-357 | orderable attempts satisfy a name exactly when every failure is older than some passing attempt |
| CheckRuns.SatisfiedInPayload | release/authorize.py:269-357 | a required name is satisfied when it has attempts and all of them passed, or all have a time and each that did not pass is followed by one that did |
| CheckRunPages.FetchCheckRuns | release/authorize.py:656-687 | pages are collected up to the first one that is empty or reaches the announced total, and no further; the loop ends |
| CheckRunPages.AllPagesFetched | release/authorize.py:634-650 | from a server that pages a list and announces its length, every run is fetched once and in order |
| Authorize.RegistrationIsPatch | release/atlas.py:81-111 | the catalog check accepts exactly the document that registering the window writes |
| Authorize.OtherRuns | release/authorize.py:360-381 | the runs kept are exactly those that do not belong to the asking workflow run |
| Authorize.OtherRunsInOrder | release/authorize.py:360-381 | the kept runs stand in the order they came and as often as they came |
| Authorize.OwnRunIs | release/authorize.py:375-380 | a run belongs to the asking workflow run when its details URL has `/actions/runs/<id>/` in it |
| Authorize.FirstParentsAre | release/authorize.py:499-509 | the walk lists the commit, its first parent and so on, up to its length or a commit without parents |
| Authorize.FirstParentsFail | release/authorize.py:499-509 | it fails exactly when git cannot say the parents of a commit it goes on from |
| Authorize.VersionOnlyIs | release/atlas.py:114-140 | a delta is version-only when it changes the named files alone, or those and the catalog by registering this version's window |
| Authorize.FetchedCommits | release/authorize.py:454-525 | checks may be fetched of parents with the same tree and of first-parent ancestors one to ten steps away with version-only deltas up to them |
| Authorize.VersionIs | release/authorize.py:499-499 | of a tag only blanks around it and a leading `refs/tags/` are no part of the version |
| Authorize.BranchesAsked | release/authorize.py:556-580 | a final tag or none needs the first reviewed branch, a prerelease some reviewed branch, and any other tag is refused |
| Authorize.BorrowsWhenUndecided | release/authorize.py:584-593 | another commit's checks may stand in exactly when a tag is released, they can be fetched, and every required name is satisfied or undecided, one at least undecided |
| Authorize.Gate.IsGreen | release/authorize.py:462-474 | fetching one candidate's checks is recorded and says whether they are all green |
| Authorize.Gate.FindTreeIdenticalParent | release/authorize.py:438-474 | the first green parent with the same tree is found, or there is none |
| Authorize.Gate.FindVersionOnlyAncestor | release/authorize.py:477-525 | the nearest green first-parent ancestor within depth 10 with every delta version-only is found, or there is none |
| Authorize.Authorize | release/authorize.py:528-628 | a commit is authorized exactly when the rule allows it, with the rule's proof, and only permitted commits' checks are fetched |
| Authorize.ProofUnique | release/authorize.py:438-525 | at most one commit can be the proof |
| Bundle.ExcludedBelow | cli/src/bundle.rs:103-111 | what lies below an excluded path is excluded |
| IgnoreRules.NameLine | cli/src/bundle.rs:80-101 | a line with a name, white space around it and slashes behind it, excludes whatever has it as a component |
| IgnoreRules.PathLine | cli/src/bundle.rs:80-101 | a line with a path excludes that path and everything below |
| IgnoreRules.IgnoredLine | cli/src/bundle.rs:80-95 | empty lines, comments, rooted paths, and paths with a `.` in front or a `..` exclude nothing |
| IgnoreRules.BuiltInRules | cli/src/bundle.rs:57-60 | the names excluded without an ignore file |
| Bundle.Builder.AppendDir | cli/src/bundle.rs:137-180 | the walk fails exactly when a surviving link lies below, and otherwise appends exactly the surviving files, in path order |
| BundlePack.LoadExclusions | cli/src/bundle.rs:56-101 | the ignore file yields the built-in names and its own patterns, or a refusal when it is a link or not UTF-8 |
| Utf8.Utf8Is | cli/src/bundle.rs:67-71 | bytes are accepted as UTF-8 exactly when they encode a sequence of characters |
| BundlePack.Pack | cli/src/bundle.rs:183-193 | a bundle is packed exactly when it is a directory, its ignore file loads and no link survives |
| BundlePack.ArchiveHolds | cli/src/bundle.rs:137-193 | a file is archived exactly when no prefix of its path is excluded |
| BundlePack.Unpack | cli/src/bundle.rs:267-291 | extracting gives back exactly the archived files, none overwriting another |
| BundlePack.ArchiveUnique | cli/src/bundle.rs:143-147 | archives with the same files are equal, entry by entry |
| BundlePack.PackAlike | cli/src/bundle.rs:183-193 | bundles that agree outside the exclusions are both refused or give the same archive |
| BundlePack.StateNeverPacked | cli/src/bundle.rs:237-246 | whatever is written under `.curie`, a later archive is the same |
| BundlePack.StatusIsClean | cli/src/bundle.rs:117-135 | a status is clean exactly when every entry is a UTF-8 path below the prefix that is excluded and not the ignore file |
| BundlePack.CleanIs | cli/src/bundle.rs:117-135 | what a clean status is, entry by entry |
| BundlePack.CleanPacksCommitted | cli/src/bundle.rs:114-135 | if the status lists every difference and is clean, the working and the committed tree give the same archive |
| TreeDigest.BigEndianInjective | cli/src/agent_skills.rs:346-348 | lengths below 2^64 are determined by their eight bytes |
| TreeDigest.RecordPrefix | cli/src/agent_skills.rs:344-350 | a record ends where its lengths say and determines path, type and bytes |
| TreeDigest.HashedIffEqual | cli/src/agent_skills.rs:342-350 | hashed bytes are equal exactly when the collected contents are |
| TreeDigest.Collector.Visit | cli/src/agent_skills.rs:313-339 | the walk collects every directory and file below, and refuses exactly when a link, a special file or a name that is not UTF-8 lies below |
| TreeDigest.HashedBytes | cli/src/agent_skills.rs:312-350 | the bytes hashed encode the contents sorted by path, or the tree is refused |
| TreeDigest.RecordIs | cli/src/agent_skills.rs:342-350 | a record is `D` or `F`, the path's length in eight bytes and the path, and the content's length in eight bytes and the content |
| TreeDigest.SameBytesSameTree | cli/src/agent_skills.rs:310-356 | two trees hash the same bytes exactly when they have the same paths, types and file bytes, in whatever order they are listed |
| SkillInstall.Disk.Inspect | cli/src/agent_skills.rs:205-232 | a destination is free, current, catalogued or a conflict, as is one that is no directory; a file that cannot be read makes it look different, any other failing call fails the install |
| SkillInstall.IdenticalIs | cli/src/agent_skills.rs:211-220 | a directory counts as current exactly when every file of the skill is in it, byte for byte |
| SkillInstall.CatalogIs | cli/src/agent_skills.rs:221-228 | a destination is an earlier release exactly when it is a directory without links whose digest is recorded |
| SkillInstall.NewIs | cli/src/agent_skills.rs:240-262 | a new tree has the skill's files and the directories above them |
| SkillInstall.Disk.Replace | cli/src/agent_skills.rs:277-292 | an upgrade publishes the new tree, puts the old one back, or keeps it in a backup |
| SkillInstall.Disk.Install | cli/src/agent_skills.rs:193-308 | whichever call fails, the destination holds the old tree, the new tree, or nothing with the old tree retained; only catalogued trees are moved |
| SkillInstall.Disk.InstallSet | cli/src/agent_skills.rs:102-128 | a conflict in any skill changes none; an interrupted run leaves every destination as it was, or free or catalogued before and now new or empty; unless a backup is reported no present skill is gone and nothing else is left behind, and a reported backup holds the emptied destination's tree; what a single failing read replaces |
| SkillInstall.Disk.RerunSucceeds | cli/src/agent_skills.rs:99-128 | after any interrupted run a rerun finds no conflict and leaves every skill current |
| SkillInstall.Disk.RerunConverges | cli/src/agent_skills.rs:99-128 | whatever an interrupted run may leave, a rerun leaves what one run would have left, exactly when no destination was current with extra entries and catalogued as an earlier release |
| SkillInstall.FailedReadReplaces | cli/src/agent_skills.rs:205-232 | wherever every destination counts as current and one with extra entries is catalogued, a run in which only its read fails replaces it, and a rerun does not bring the entries back |
| MigrationTree.BoundNames | scripts/check-contract-migration-timing.py:229-260 | the stack loop collects the names a scope binds without entering nested scopes |
| MigrationTree.DeclaredGlobals | scripts/check-contract-migration-timing.py:275-285 | the stack loop collects the names a scope declares `global` |
| MigrationTree.ScopeLocals | scripts/check-contract-migration-timing.py:288-296 | a scope's locals are its parameters and bindings without its `global` names |
| MigrationTree.GlobalRebinds | scripts/check-contract-migration-timing.py:299-305 | the walk collects every name some nested scope declares `global` and binds |
| MigrationTree.TidyBound | scripts/check-contract-migration-timing.py:229-260 | in tidy code the scanner sees every binding Python makes |
| MigrationForms.FormsHide | scripts/check-contract-migration-timing.py:229-260 | after any one form of code in `upgrade` a name is taken for the constant exactly when neither a parameter nor the form binds it, or the form declares it `global`, and so it is in Python |
| MigrationForms.PartsBind | scripts/check-contract-migration-timing.py:229-285 | what a node binds and declares `global`, from its own form and its parts, for the scanner and for Python |
| MigrationScope.EnterFunction | scripts/check-contract-migration-timing.py:477-487 | inside a function every unshadowed name is the module's exactly when the names bound in nested headers are shadowed or global |
| MigrationScope.EnterClass | scripts/check-contract-migration-timing.py:477-487 | inside a class the same holds exactly when, further, its `global` names are shadowed or the module's outside |
| MigrationScope.EnterTables | scripts/check-contract-migration-timing.py:477-520 | on entering a scope the open batch tables stay resolved as they were bound exactly when none of their names is declared `global` there, or it was the module's already |
| MigrationScope.ScanFaithful | scripts/check-contract-migration-timing.py:463-526 | at every place of tidy code whose batch tables survive, the scanner records the same operations as Python's scoping, and every text it resolves is the one meant |
| MigrationEscapes.HeaderAssignmentEscapes | scripts/check-contract-migration-timing.py:246-250 | an assignment expression in a nested header makes a local name resolve as the constant |
| MigrationEscapes.ClassGlobalEscapes | scripts/check-contract-migration-timing.py:477-487 | `global` in a class body makes a local name resolve as the constant in a method |
| MigrationEscapes.BatchGlobalEscapes | scripts/check-contract-migration-timing.py:499-520 | `global` in a scope inside a batch block makes the batch's local table resolve as the constant |
| MigrationModule.ModuleBindings | scripts/check-contract-migration-timing.py:317-332 | the loop keeps the names whose last binding assigns a constant |
| MigrationModule.ModuleConstants | scripts/check-contract-migration-timing.py:335-341 | the constants are the text bindings no nested scope rebinds |
| MigrationModule.ConstantHolds | scripts/check-contract-migration-timing.py:317-341 | a trusted constant is rebound by no function, and is the name's value after every run exactly when the last statement changing it binds it last by itself |
| MigrationModule.ConstantsHold | scripts/check-contract-migration-timing.py:317-341 | in ordinary modules every trusted constant is the name's value after every run |
| MigrationModule.RepeatedTargetEscapes | scripts/check-contract-migration-timing.py:205-211 | `A = (A, B) = "xy"` leaves the scanner with a value some run loses, and `(A, B) = A = "xy"` does not |
| MigrationReach.Reach | scripts/check-contract-migration-timing.py:452-460 | the worklist finds exactly the names a path of references leads to, and ends |
| MigrationReach.Reachable | scripts/check-contract-migration-timing.py:452-461 | the result is the sorted module functions among them |
| MigrationReach.LoadedNames | scripts/check-contract-migration-timing.py:384-396 | the names a statement reads when it runs, function bodies left out |
| MigrationReach.ModuleReferences | scripts/check-contract-migration-timing.py:399-410 | a name refers to everything some statement binding it reads |
| MigrationForms.PartsRead | scripts/check-contract-migration-timing.py:384-396 | what a node reads, from its own form and its parts; the body of a function runs later |
| MigrationForms.AliasReaches | scripts/check-contract-migration-timing.py:399-410 | a name bound by a statement reaches whatever the names the statement reads reach |
| MigrationScan.ModuleFunctions | scripts/check-contract-migration-timing.py:367-381 | each name maps to all its definitions in module statements outside classes, handlers and cases, in order |
| MigrationScan.CollectsEveryDefinition | scripts/check-contract-migration-timing.py:367-381 | what is collected is all the code a module defines for later, that is functions, methods, lambdas and generators, exactly when none is a lambda or generator or lies in a class, a handler, a case or an expression |
| MigrationMissed.DeferredCodeIsMissed | scripts/check-contract-migration-timing.py:367-381 | `op.drop_table("t")` in a function under a handler, in a method, in a lambda or in a generator that `upgrade` refers to: the module is ordinary and tidy, and the drop is in no collected function |
| MigrationMissed.StoredFunctionIsMissed | scripts/check-contract-migration-timing.py:399-461 | `steps.append(helper)` and an `upgrade` that reads `steps`: the function is collected, and no reference leads to it |
| MigrationScan.Scanner.Visit | scripts/check-contract-migration-timing.py:470-569 | a visit records the node's operations and returns the functions its names may run |
| MigrationScan.OpCallReports | scripts/check-contract-migration-timing.py:528-569 | a call on `op` reports the table, or the table and the column, that its own arguments resolve to, and something non-literal exactly when one of them does not resolve or they are unpacked |
| MigrationScan.BatchCallReports | scripts/check-contract-migration-timing.py:513-569 | a call on a batch reports a column of the table named by the `with` item; a batch drops no table |
| MigrationScan.Scanner.Scan | scripts/check-contract-migration-timing.py:436-450 | exactly the functions reached from `upgrade` are scanned, each once |
| MigrationScan.FaithfulReports | scripts/check-contract-migration-timing.py:545-569 | faithful operations report only objects the recognised drops name, and all of them when nothing is non-literal |
| MigrationScan.ScanIsFaithful | scripts/check-contract-migration-timing.py:436-526 | in ordinary tidy modules whose batch tables survive, after any run, the scanned functions hold the recorded operations and every resolved text is the one meant |
| MigrationScan.ReportIsExact | scripts/check-contract-migration-timing.py:436-569 | when no code defined for later is hidden, every reported table or column is named by a recognised drop of a function reached from `upgrade`, and without a non-literal report all of those are reported |

## Left out

- The wording of errors and messages, exit codes of the scripts' `main`, and argument parsing except the pinner's `--image`.
- PinsMeaning.ExportMeaning: is stated for packages whose minimal marker sets hold markers only, because a chain through any other text has no truth value; `PathsReadExactly` says that these are all on which the rendered paths can be read, and `UnbalancedMarkerInstalls` what else happens.
- Name normalization lower-cases ASCII letters only.
- MarkerText.PathMarkerExact: markers are those of the PEP 508 grammar with `and` and `or` also chained, as installers read them, where the grammar has one of each.
- PinsText.LineReadsBack: continuation lines, environment variables and the grammar of names and versions, which an installer also reads in a line.
- SignalProtocol.RunInv: assumes that all pending unblocked signals are delivered before a mask change returns, where POSIX promises one of them.
- `setsid`, `flock`, argument checks and core limits of the process wrapper; a second signal sent by the timer is an ordinary arrival.
- ChartPin.PinLines: takes digests that are `sha256:` and 64 lowercase hex digits, which is all that reading the arguments lets through.
- Writing the values file atomically.
- The tag and nightly classifiers, git and the check-run service are functions of what they are asked; the nightly log's normalization is not modelled.
- Authorize.Authorize: treats a failing git or fetch call as an answer, not as a choice of exception.
- Bundle names and paths are byte strings.
- BundlePack.CleanPacksCommitted: rename pairs in a status are not modelled, because the caller asks for none (`--no-renames`, cli/src/commands/deploy.rs:479-489).
- Archive metadata, the tar and gzip formats and SHA-256: an archive is a list of paths and bytes, hashing stops at the bytes hashed.
- Replacing and removing snapshot directories.
- TreeDigest.SameBytesSameTree: paths and files are shorter than 2^64 bytes, which their length fields demand.
- SkillInstall.Disk.Install: a skill's digest is an arbitrary function of its tree; others may change the destination between staging and the second check only, so the window between that check and the rename (cli/src/agent_skills.rs:268-276), in which an edited tree could be moved, is not modelled.
- Symlink checks on the paths of skills and the choice of the root directory; one failing read stands for any of the reads of a comparison.
- MigrationScope.ScanFaithful: is stated for code without assignment expressions in nested headers, without `global` directly in a class body, and whose batch tables survive every scope in their blocks (`EnterTables`); `MigrationEscapes` shows each of them failing.
- MigrationScan.ReportIsExact: a call is a drop when the scanner's own test of its receiver says so, on both sides; whether the receiver is Alembic's `op` at run time is not modelled.
- Star imports, `exec` and changes to the module from outside it are not part of the module runs.
- The rest of Python's syntax is in the tree as plain nodes; with statements other than a single `batch_alter_table` context are plain nodes too.
- MigrationScan.Scanner.Visit: also visits expressions inside the targets of plain `with` items and of comprehensions, which the scanner never visits, so a drop or a reference there is missed by the scanner and seen here.
- Private names (`__T` inside a class) are not mangled in the reference.
- MigrationScan.Scanner.Scan: which functions are reached is the scanner's own rule; `StoredFunctionIsMissed` shows what it leaves out.
- The order of the scanner's findings inside one comprehension; the report sorts them.
- Choosing the previous tag, reading revisions and the search of the released sources.
