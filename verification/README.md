# gwz-core in Dafny

Models of the self-contained algorithms and step protocols of gwz-core, with proofs of what
they promise. `dafny verify dfyconfig.toml` checks the project.

* **Publishing a record durably.** `Disk`, `CrashSafety`, `Steps` and `Durability` describe a
  disk with a visible and a durable layer and every disk that a crash may leave. `FileSystems`
  gives the filesystem calls, which may refuse, transfer short or be interrupted, and the default
  methods built on them; `TempNames`, `VerifiedWrite` and `RemoveTree` are the operations.
  The object keeps the set of disks it has passed through, so contracts speak of a crash at any
  step; it opens directories through symbolic links or not, as a backend may. Assumed: a rename is
  atomic, a failed rename has no effect, nobody else interferes, and a call is interrupted finitely
  often.
* **Publishing crates.** `Names`, `Sets`, `PublishOrder`, `ManifestOrder`, `Publisher` and
  `PublishPlan`: the publish order, and the resumable walk over a registry that answers as it likes.
  A run writes a log; a run that is killed leaves a prefix of one.
* **The watchdog.** `Watchdog` is the timed loop over an arbitrary host; `Receipt` is the kill,
  the judgement of a run, the receipt and the exit status.
* **Cutting a release.** `Release`: history, working tree and tags, with runs that stop anywhere.
* **Analysing sources.** `Mask`, `Literals`, `Spans` and `Guards` (the member-step check), `CfgTokens`,
  `CfgPredicates` and `CfgAttributes` (folding `cfg` predicates), `Roots`, `Allowlists`,
  `SourceScan`, `Ratchet` and `RealDebt` (the shrink-only allowlist, over the files of each commit).
* **Small exact algorithms.** `Digest`, `SourceFiles` and `SourceStreams` (the stream the build
  script hashes), `Reachability` and `Closure` (worklists), `Batches`.

Where a promise turned out not to hold for every input, the code is kept as it is, a lemma gives
an input that breaks it, and another states exactly when it holds:

* A crash after `Ok` into a parent that already existed can lose the file: the parent's own entry
  may not have reached the disk (`VerifiedWrite.FinishedWriteIsLost`). The file is durable exactly
  when, before the call, every entry on the way to the parent was a directory synced since it last
  changed (`VerifiedWrite.WriteAtomicVerified`, `Durability.SyncedIff`).
* The publish order can depend on the order of the manifests when two published ones share a name
  (`ManifestOrder.SharedNameMatters`). It does not exactly when one order suits every manifest, or
  some crates wait for one another whichever of their manifests count
  (`ManifestOrder.OrderIndependence`); sharing a name and disagreeing is not enough to matter
  (`ManifestOrder.SharedNameMayNotMatter`).
* The watchdog's loop does not end by itself when the deadline is switched off
  (`Watchdog.EndsIff`).
* The documented promise that every base root is still scanned, and with it that the number of
  occurrences cannot rise, fails for files the walk skips: under a base root that is hidden and is
  replaced by one above it (`Roots.HiddenRootIsLost`), or in a directory `target` that gets a
  manifest beside it (`Roots.ManifestHidesTarget`); two passing commits then double the number
  (`RealDebt.DebtRisesUnseen`). What holds on every chain is the bound on scanned occurrences
  (`Ratchet.DebtNeverRises`). `Ratchet.StillScannedAlong` says exactly which files are still scanned
  and `RealDebt.RealDebtBoundIff` exactly when the bound is one on all occurrences.
* Finding the release commit in the log does not show that the internal line came with it once
  product lines are edited by hand (`Release.HandBumpSharesLine`); it did exactly when no other
  release commit came between (`Release.LineCameWithRelease`).
* `constant` is documented to answer whenever every configuration agrees. It misses predicates that
  name a leaf twice (`CfgPredicates.TautologyIsMissed`) and leaves that exclude each other, as in
  `all(unix, windows)` (`CfgPredicates.ExclusionIsMissed`). It answers exactly when the value is the
  same however the occurrences of leaves are decided one by one (`CfgPredicates.ConstantExact`), so
  it is exact where leaves are named once and occur in every combination
  (`CfgPredicates.ReadOnceExact`).
* The digest's stream depends on the order of directory entries for a tree with `src/a/b` and
  `src/a\b`, whose keys are the same text (`SourceStreams.BackslashMatters`); in general exactly when
  two different inputs share a key (`SourceStreams.TreeOrderFreeIff`), never without backslashes in
  names (`SourceStreams.NoBackslashTells`).

## Model

| member | source | states |
|---|---|---|
| `VerifiedWrite.WriteAtomicVerified` | src/verified_write.rs:53-90 | in every state from the first to the last a crash leaves the target as a crash before the call could have, or as exactly `bytes`; only the target, one temporary and missing ancestors change, and the temporary is a name drawn for the target in its directory where there was nothing; before the rename the target is as it was, after it the target holds `bytes` and the temporary is gone; at most one draw more than there are taken names; after `Ok` the file survives every crash exactly when before the call every entry on the way to the parent was a directory synced since it last changed |
| `VerifiedWrite.FinishedWriteIsLost` | src/verified_write.rs:62-90 | a directory that exists and was never synced, and the disk that a finished write into it leaves: the file is there, and a crash may leave nothing |
| `VerifiedWrite.DrawTemporary` | src/verified_write.rs:63-70 | the loop skips taken names without touching them, ends within (taken names + 1) draws, and gives a new empty file whose name is not the target's |
| `VerifiedWrite.Stage` | src/verified_write.rs:71-73 | on success the temporary holds exactly `bytes`, synced; on any outcome only the temporary's contents changed |
| `VerifiedWrite.Replace` | src/verified_write.rs:79-79 | a rename that succeeds moves the temporary onto the target in one step, and only onto something that is no directory; one that fails changes nothing |
| `VerifiedWrite.Discard` | src/verified_write.rs:75-82 | after a failure at most the temporary is left beside what was there |
| `VerifiedWrite.Complete` | src/verified_write.rs:71-89 | from the drawn temporary to the re-read: which disks are passed through, and that the re-read never disagrees when nobody interferes |
| `Disk.CrashViews` | src/filesystem.rs:316-323 | what a path may show after a crash, worked out entry by entry, is exactly what some crash of the whole disk shows |
| `CrashSafety.StepConfines` | src/verified_write.rs:71-83 | a step that only adds synced files or empty directories to the choices of an entry adds no other crash outcome to any path |
| `CrashSafety.ConfinedCrash` | src/verified_write.rs:53-90 | confinement, read back as a statement about actual crashed disks |
| `Durability.SurvivesIff` | src/verified_write.rs:83-83 | after the directory sync every crash keeps the new file exactly when every crash of the earlier disk kept the parent |
| `Durability.SyncedIff` | src/filesystem.rs:322-323 | every crash leaves a path as the same directory exactly when each entry on the way is that of a directory and has been synced since it last changed |
| `TempNames.CandidatesDiffer` | crates/ids/src/lib.rs:75-79 | two draws of one source never give the same temporary name |
| `TempNames.CandidateIsNotTarget` | src/verified_write.rs:64-64 | a candidate is never the target's own name |
| `TempNames.HexReadsBack` | crates/ids/src/lib.rs:75-79 | the hexadecimal rendering of a number reads back as that number |
| `TempNames.IdSource.Unique` | crates/ids/src/lib.rs:35-54 | numbers count up from where they were, and after the last one the source gives no more instead of repeating |
| `FileSystems.FileSystem.WriteAll` | src/filesystem.rs:376-387 | on success the bytes replace the start of the file however the writes were cut up or interrupted; no other file and no entry changes in any state |
| `FileSystems.FileSystem.ReadAll` | src/filesystem.rs:364-375 | on success exactly the file's contents, however the reads were cut up or interrupted |
| `FileSystems.FileSystem.Read` | src/filesystem.rs:242-245 | on success the path shows a file with exactly these contents |
| `FileSystems.FileSystem.CreateFile` | src/filesystem.rs:233-237 | exclusive creation: success adds one new empty file, "already exists" means the entry is there, any error changes nothing |
| `FileSystems.FileSystem.RemoveFile` | src/filesystem.rs:246-253 | success removes one entry that is no directory, an error changes nothing |
| `FileSystems.FileSystem.CreateDirectories` | src/filesystem.rs:278-293 | terminates; on success the directory is there and exactly the missing ancestors and itself were added; no other path changes, in any crash of any state |
| `RemoveTree.RemoveTree` | src/filesystem.rs:261-277 | terminates; on success nothing is left at the path; whatever happens nothing outside it changes and no contents change, on backends that open directories through links too |
| `RemoveTree.PrunedLooks` | src/filesystem.rs:261-277 | a pruned disk shows every path outside the removed one as before and nothing at or below it |
| `RemoveTree.TargetsStay` | src/filesystem.rs:258-277 | `PrunedLooks` at the place a removed link led to: outside the path it shows as before, and so does everything below it |
| `PublishOrder.InternalRequirements` | scripts/checks/check_crate_versions.py:181-195 | exactly the published names that the versioned tables of a manifest name |
| `PublishOrder.PublishOrder` | scripts/checks/check_crate_versions.py:198-233 | the lexicographically least order that respects the requirements, followed by the core; an error exactly when the graph has a cycle, self-loops included |
| `PublishOrder.GreedyIsFirst` | scripts/checks/check_crate_versions.py:217-231 | taking the least ready name each time gives the least of all topological orders |
| `PublishOrder.FirstOrderIsUnique` | scripts/checks/check_crate_versions.py:198-233 | a graph has one least order, so the answer depends on the graph alone |
| `PublishOrder.NeedsComeFirst` | scripts/checks/check_crate_versions.py:198-233 | everything a published crate or the core needs stands before it |
| `ManifestOrder.OrderIndependence` | scripts/checks/check_crate_versions.py:198-233 | every order of the manifests is answered alike exactly when one order puts every published manifest, whichever count, after its needs and past no later name that was ready, or some set of crates is jammed |
| `ManifestOrder.AllCyclesIff` | scripts/checks/check_crate_versions.py:209-228 | every order of the manifests has a cycle exactly when some set of crates is jammed: every manifest of each needs another of them |
| `ManifestOrder.SharedNameMatters` | scripts/checks/check_crate_versions.py:209-214 | three manifests, two of one name, that are answered `a, b` in one order and `b, a` in another |
| `ManifestOrder.SharedNameMayNotMatter` | scripts/checks/check_crate_versions.py:209-214 | two manifests of one name that disagree, with one answer for every order of the files |
| `ManifestOrder.SameAnswer` | scripts/checks/check_crate_versions.py:198-233 | runs over manifests that agree where they share a name end alike, in any order |
| `ManifestOrder.SameGraphIff` | scripts/checks/check_crate_versions.py:209-214 | the requirement graph is the same for every order of the manifests exactly when those that share a name agree |
| `ManifestOrder.InPlaceIsFirst` | scripts/checks/check_crate_versions.py:217-231 | an order in which every crate follows its needs and passes over no later name that was ready is the least one |
| `ManifestOrder.FirstIsInPlace` | scripts/checks/check_crate_versions.py:217-231 | and the least order is such a one, crate by crate |
| `ManifestOrder.ChoiceIsRealised` | scripts/checks/check_crate_versions.py:209-214 | whichever manifest is chosen for each name, some order of the files makes those count |
| `Publisher.Publisher.Run` | scripts/publish_crates.py:337-364 | whatever the registry answers, a publish starts only for a crate just found absent whose predecessors have all answered 200; a finished run that is not dry has seen every crate; a dry one publishes nothing; at most two publishes and one wait for each planned crate |
| `Publisher.Publisher.PublishOne` | scripts/publish_crates.py:280-316 | at most two publish commands with at most one rate-limit wait between them; success means the last one succeeded |
| `Publisher.Publisher.WaitForIndex` | scripts/publish_crates.py:318-335 | for a non-negative timeout sleeps less than the timeout and one poll interval in all; success means 200 was answered |
| `Publisher.PrefixDisciplined` | scripts/publish_crates.py:337-364 | a run stopped anywhere leaves a log that keeps to the same rules |
| `Publisher.SeenIsNeverPublished` | scripts/publish_crates.py:266-353 | with a registry that never forgets, a version once seen at 200 is published by no later run, however earlier runs ended |
| `PublishPlan.NeedsSeenFirst` | scripts/publish_crates.py:246-264 | whenever a publish starts, in a run stopped anywhere, every published crate it needs has answered 200 in that run, at the version planned for it |
| `Watchdog.Run` | scripts/windows_lane_check.py:778-819 | the loop ends in the state its turns lead to |
| `Watchdog.DeadlineKept` | scripts/windows_lane_check.py:778-819 | a deadline abort begins no earlier than the deadline, within 1e-6, and it or the phase's end comes no later than two poll timeouts after it, plus how late a wait returns |
| `Watchdog.TwoAttempts` | scripts/windows_lane_check.py:1051-1069 | a phase run twice is bounded by the same deadline, counted from the phase's start |
| `Watchdog.NoProgressMeans` | scripts/windows_lane_check.py:793-815 | a no-progress abort comes only after `quiet` seconds without credited growth of the log, and only before the deadline |
| `Watchdog.EndsByDeadline` | scripts/windows_lane_check.py:778-819 | with a deadline the loop ends within a number of turns known beforehand |
| `Watchdog.EndsIff` | scripts/windows_lane_check.py:778-819 | the loop ends for every host exactly when a deadline is set or the first look breaches the no-progress limit |
| `Receipt.Host.KillTree` | scripts/windows_lane_check.py:851-878 | no survivor is reported only if some check that answered found each recorded process gone; one check and KILL_ROUNDS rounds at most, none without a valid root |
| `Receipt.HostedLikePasses` | scripts/windows_lane_check.py:1012-1031 | exactly when a hosted-like run passes, in terms of what the host reported |
| `Receipt.BrokenFails` | scripts/windows_lane_check.py:1034-1048 | a test that failed for no reason of the host's neither passes nor is run again |
| `Receipt.PassedMeansUnbroken` | scripts/windows_lane_check.py:1051-1072 | where the phase passes in the end, no attempt of it met such a test |
| `Receipt.Receipt.RunEntry` | scripts/windows_lane_check.py:1051-1080 | one run or two of the phase, the second only after a block; the entry records each attempt and passes exactly when the last run does; a stopped phase and one whose worker's error is raised again get no entry here |
| `Receipt.Receipt.RecordAbort` | scripts/windows_lane_check.py:1199-1212 | the receipt carries the abort; a phase other than the stage gets a failed entry, so the receipt does not pass; processes are said to have ended exactly when no survivor was found |
| `Receipt.Receipt.PassedIffSettled` | scripts/windows_lane_check.py:265-266 | a receipt of phases that all ended passes exactly when each one's last run does |
| `Receipt.Receipt.Execute` | scripts/windows_lane_check.py:1152-1191 | status 0 exactly when staging succeeded, no phase was stopped or raised and the last run of every planned phase passes; 124 exactly when one was stopped, and then the receipt does not pass and vouches only for processes a check found gone; no receipt exactly when staging failed or a worker's error was raised again |
| `Release.Repository.Cut` | scripts/release.py:790-875 | a run, stopped anywhere, adds at most one release commit and one tag, the tag only at the last commit; unless stopped it refuses exactly the repositories that do not qualify |
| `Release.Repository.BumpInternal` | scripts/release.py:392-430 | finished, every crate and every edge that was at the old number is at the new one, and nothing else changed; stopped, the product lines are untouched |
| `Release.BumpKeepsLockstep` | scripts/release.py:392-430 | the bump moves the shared number, and where all crates and edges were at it they still are |
| `Release.Repository.EnsureTag` | scripts/release.py:543-560 | a tag is created or left, never moved |
| `Release.Repository.WriteRelease` | scripts/release.py:828-857 | the three lines move together in one commit, or nothing is committed |
| `Release.TagsNeverMove` | scripts/release.py:543-560 | over every sequence of runs and commits a tag keeps naming the same commit |
| `Release.ReleasesAreApart` | scripts/release.py:790-875 | over every sequence of runs stopped anywhere and commits that leave both version lines alone, each tagged commit carries its tag's version and distinct tags carry distinct internal lines |
| `Release.CourseKeeps` | scripts/release.py:790-875 | along such a sequence the internal line never goes back and moves whenever the product version does |
| `Release.LineCameWithRelease` | scripts/release.py:437-461 | with product lines edited by hand, a commit's internal line is the one a release brought exactly when no other release commit came between |
| `Release.HandBumpsAdvance` | scripts/release.py:437-461 | such edits keep the internal line advancing by release commits only |
| `Release.HandBumpSharesLine` | scripts/release.py:437-461 | an untagged release, a later one and a product line put back by hand: two tags on one internal line |
| `Mask.Blank` | scripts/checks/check_member_step_boundary.py:40-91 | the scan computes the mask: of the same length, with the same newlines, each character kept or a space |
| `Mask.NothingStarts` | scripts/checks/check_member_step_boundary.py:53-90 | no double quote, `//` or `/*` is left anywhere |
| `Mask.NoLiteralLeft` | scripts/checks/check_member_step_boundary.py:82-88 | no character literal is left either |
| `Mask.Idempotent` | scripts/checks/check_member_step_boundary.py:40-91 | masking twice is masking once, for every input |
| `Mask.UnchangedIff` | scripts/checks/check_member_step_boundary.py:40-91 | a text is left as it is exactly when no comment or literal starts in it |
| `Literals.StringIsWiped` | scripts/checks/check_member_step_boundary.py:76-81 | a string literal is wiped from quote to quote, escaped quotes included, and an open one to the end |
| `Literals.CommentIsWiped` | scripts/checks/check_member_step_boundary.py:59-69 | a block comment, described by what stands inside it, is wiped with all the comments nested in it, and no further |
| `Literals.EveryCommentIsWiped` | scripts/checks/check_member_step_boundary.py:59-69 | a comment of that form is wiped to where it closes; where no such comment stands, to the end |
| `Literals.RawIsWiped` | scripts/checks/check_member_step_boundary.py:70-75 | a raw string is wiped up to the first quote with as many hashes as it opened with, and one that closes nowhere to the end |
| `Spans.Blocks` | scripts/checks/check_member_step_boundary.py:94-107 | all blocks in the order they open, each closing at the brace that balances it or at the end, and for each offset the last-opened block that holds it |
| `Spans.Laminar` | scripts/checks/check_member_step_boundary.py:94-107 | blocks are nested or apart |
| `Guards.Functions` | scripts/checks/check_member_step_boundary.py:122-139 | each function whose body opens before a semicolon outside brackets, with that body's block, in order |
| `Guards.BodyIsFirst` | scripts/checks/check_member_step_boundary.py:122-139 | a function has a body at `o` exactly when `o` is a brace and the first brace or semicolon outside brackets after its head |
| `Guards.Owner` | scripts/checks/check_member_step_boundary.py:160-163 | the shortest enclosing body is the innermost one; none exactly when none encloses |
| `Guards.ParentHolds` | scripts/checks/check_member_step_boundary.py:169-169 | the block around the offset before a block is the next one that holds the call |
| `Guards.IsGuarded` | scripts/checks/check_member_step_boundary.py:164-169 | guarded exactly when some block around the call, inside its function, has an `.enter(` before the call at the block's own depth |
| `Guards.Judge` | scripts/checks/check_member_step_boundary.py:154-171 | the verdict on a call from the text alone |
| `CfgTokens.SplitCommas` | scripts/checks/check_cfg_boundaries.py:171-180 | the loop computes the split |
| `CfgTokens.SplitInvertsJoin` | scripts/checks/check_cfg_boundaries.py:171-180 | splitting undoes joining exactly when no part has a comma outside brackets and all but the last balance; joining always undoes splitting |
| `CfgPredicates.ConstantIsFold` | scripts/checks/check_cfg_boundaries.py:183-192 | on the tokens of a predicate, trailing commas included, the answer is three-valued evaluation |
| `CfgPredicates.ConstantSound` | scripts/checks/check_cfg_boundaries.py:183-192 | a definite answer is the value in every configuration |
| `CfgPredicates.ConstantExact` | scripts/checks/check_cfg_boundaries.py:183-192 | definite, for every predicate, exactly when its value is the same under every assignment that gives each occurrence of a leaf a truth value of its own |
| `CfgPredicates.ReadOnceExact` | scripts/checks/check_cfg_boundaries.py:183-192 | with no leaf twice and leaves that occur in every combination, definite exactly when every possible configuration agrees |
| `CfgPredicates.TautologyIsMissed` | scripts/checks/check_cfg_boundaries.py:183-184 | a predicate true in every configuration that gets no answer |
| `CfgPredicates.ExclusionIsMissed` | scripts/checks/check_cfg_boundaries.py:183-192 | two leaves that never hold together: their conjunction is false in every possible configuration and gets no answer |
| `CfgAttributes.ConditionalIsDepends` | scripts/checks/check_cfg_boundaries.py:195-206 | on the tokens of an attribute, nested `cfg_attr` included, the verdict is that of the attribute |
| `CfgAttributes.UnconditionalIsAlike` | scripts/checks/check_cfg_boundaries.py:195-206 | an attribute found unconditional expands alike in every configuration and leaves no gate |
| `Roots.HiddenRootIsLost` | scripts/checks/check_cfg_boundaries.py:501-503 | a hidden root that `shrink` accepts as covered by `.` and the walk no longer scans |
| `Roots.ManifestHidesTarget` | scripts/checks/check_cfg_boundaries.py:380-382 | a file below an unchanged root that is no longer scanned because a manifest was added |
| `Roots.RustFiles` | scripts/checks/check_cfg_boundaries.py:371-383 | the walks find exactly the files that some root reaches past skipped directories |
| `Allowlists.Load` | scripts/checks/check_cfg_boundaries.py:422-447 | accepts exactly the lists with repositories and roots, complete keys, no key twice, known repositories and positive counts |
| `SourceScan.Scan` | scripts/checks/check_cfg_boundaries.py:394-419 | the occurrences in exactly the files that the roots of a repository reach, and whether a checkout or root was missing, a file unreadable or nothing scanned |
| `Ratchet.Check` | scripts/checks/check_cfg_boundaries.py:450-473 | no fault exactly when the list loads, every skip is allowed, the scan is clean and every count is what the scan of the files finds, with no stale entry in a scanned repository |
| `Ratchet.CheckedIsFound` | scripts/checks/check_cfg_boundaries.py:450-473 | with nothing skipped, a passing check makes the list's totals those of the scan |
| `Allowlists.Totals` | scripts/checks/check_cfg_boundaries.py:476-482 | counts summed over files, for exactly the groups that occur |
| `Ratchet.Shrink` | scripts/checks/check_cfg_boundaries.py:485-513 | passes exactly when both lists load, no repository or root is lost and no total rises |
| `Ratchet.DebtNeverRises` | scripts/checks/check_cfg_boundaries.py:450-515 | along any chain of passing commits no group's scanned number rises above the first commit's, wherever its debt moves, and every base root stays covered |
| `Ratchet.StillScannedAlong` | scripts/checks/check_cfg_boundaries.py:371-503 | over changing files and roots, a file that the first commit of a chain scanned for a root is scanned by the last exactly when, from the deepest root now above it, no skipped directory lies on the way down to the old root and no build directory below that |
| `RealDebt.RealDebtBoundIff` | scripts/checks/check_cfg_boundaries.py:450-515 | with a last commit of given files and list, passing commits bound the number of all occurrences of a group exactly when that commit scans every Rust file of the repository |
| `RealDebt.RealDebtNeverRises` | scripts/checks/check_cfg_boundaries.py:450-515 | where the last commit scans every file that holds a group, the number of all its occurrences has not risen |
| `RealDebt.DebtRisesUnseen` | scripts/checks/check_cfg_boundaries.py:500-503 | two passing commits, the second with twice the occurrences of the first |
| `Digest.StreamReadsBack` | build_support/provenance.rs:56-79 | a parser gets the list of inputs back from the stream |
| `Digest.StreamIsUnique` | build_support/provenance.rs:56-79 | equal streams come from equal lists of key, link flag and content |
| `Digest.SortIsStable` | build_support/provenance.rs:56-56 | the sort orders keys and keeps the order of inputs with the same key |
| `Digest.OrderFreeIff` | build_support/provenance.rs:43-81 | the stream is the same for every order of the inputs exactly when inputs with the same key are equal |
| `Digest.SwapShows` | build_support/provenance.rs:56-60 | two different inputs with one key: some order of the inputs gives another stream |
| `Digest.Feed` | build_support/provenance.rs:56-79 | the updates fed to the hash are the stream of the sorted inputs |
| `SourceFiles.Files` | build_support/provenance.rs:19-41 | each file and link below a path once, past excluded entries, directory by directory in whatever order each lists its entries |
| `SourceFiles.Collect` | build_support/provenance.rs:43-55 | each input of the seven places once, one place after the other |
| `SourceStreams.SourceStream` | build_support/provenance.rs:43-79 | the stream of one such listing; where keys tell inputs apart, that of every such listing |
| `SourceStreams.TreeOrderFreeIff` | build_support/provenance.rs:19-81 | every order of reading the directories of a tree gives the same stream exactly when inputs with the same key are equal |
| `SourceStreams.BackslashMatters` | build_support/provenance.rs:56-60 | the tree with `src/a/b` and `src/a\b`: two orders of listing it, two streams |
| `SourceStreams.NoBackslashTells` | build_support/provenance.rs:56-60 | where no name holds a backslash, different inputs have different keys |
| `Batches.ExactBatches` | scripts/run_tests.py:200-209 | nonempty batches that concatenate to the names, each within the budget or a single name, and no other such split has fewer |
| `Batches.FullIsFewest` | scripts/run_tests.py:200-209 | batches that could not have taken the next name are as few as any split |
| `Reachability.ClosedIsAll` | scripts/checks/check_local_clone_boundaries.py:308-327 | a closed set of reached nodes is everything some route leads to |
| `Closure.TestClosure` | scripts/checks/check_local_clone_boundaries.py:299-328 | terminates on every graph; exactly the own packages reached by any edge at the root and non-dev edges below, and exactly the forbidden ones they declare |
| `Closure.Gather` | scripts/checks/check_local_clone_boundaries.py:461-471 | the third-party set is free of native builds exactly when the package's closure declares none |
| `Closure.CrossCheckable` | scripts/checks/check_local_clone_boundaries.py:450-473 | lists a present package exactly when its closure declares no native-build dependency |

## Left out

- The native, memory and retained filesystem backends; the trait's abstract methods are modelled as steps of `FileSystems.FileSystem`.
- Symbolic links in the middle of a path; where a backend follows links, one at the end of the path of an opened directory is followed, up to 40 in a row.
- Directory renames, bare relative names, and platforms where a directory sync does nothing.
- `write_atomic_verified` under interference by another process; the re-read can then disagree.
- Message texts, printing, argument parsing, TOML, JSON and regular expressions; their results are inputs.
- The publish gate before the plan, and HTTP and subprocess details beyond status, exit code and the rate-limit mark.
- Generated bash, PowerShell and awk; host replies are structured values, and `taskkill` itself is not modelled, only the checks after it.
- Saving the evidence of an abort, timings recorded in the receipt, and the transport pin checks before staging.
- The textual rewriting of manifests in `release.py`, and the refusal of an edge spelled in a way it cannot reach; versions and edges are numbers.
- Pushing, remotes, detached worktrees and the gates of `release.py`; a gate that fails is a run that stops.
- The form a tag must have; any other is refused before anything happens.
- `without_test_modules`, the allow-list and the regular expressions of `check_member_step_boundary.py`; matches are given as offsets.
- The lexer, the attribute targets and the bracket table of `check_cfg_boundaries.py`; each file comes with the occurrences in it.
- RealDebt.RealDebtNeverRises: has no converse for one fixed commit, whose unscanned debt may happen to be small; RealDebt.RealDebtBoundIff is exact over all commits with the same files and list.
- The commit that creates the allowlist, for which `shrink` has nothing to compare.
- Digest.StreamIsUnique: is stated for lengths below 2^64, because eight bytes hold no more.
- SourceStreams.TreeOrderFreeIff: is stated for keys and contents shorter than 2^64 bytes, for the same reason.
- Digest.OrderFreeIff: is stated for keys and contents shorter than 2^64 bytes, for the same reason.
- SHA-256; the digest properties are stated on the bytes before hashing.
- File names that are not valid Unicode, which `source_digest` converts with loss.
- A converse for `conditional`: it counts every `cfg` and every undecided `cfg_attr` as dependent, even one whose expansion is empty.
- Protocol schemas, the session and transport layers, and pinned inventories: data, wrappers and equality tests with little to prove.
