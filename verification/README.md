# Mirror planner: a Dafny model

A model of the logic under the I/O of golang-fb-mirror, which mirrors OpenShift release images and operator
catalogs. Each module follows one part of the program.

- **Upgrade planner** (`Semver`, `Precedence`, `Paths`, `BreadthFirst`, `UpgradeGraph`, `Cincinnati`, `ChannelNames`,
  `CrossChannel`, `Repeats`, `UpgradeWalks`, `Arrivals`, `UpgradeAnswers`, `BlockedEarly`). The update service is a finite map from
  architecture and channel to a graph; repeated queries get the same answer and a query without an answer fails.
  Inside a channel the plan is the breadth-first path over successor lists sorted by descending version. Across
  channels the walk bumps the minor version in 64-bit arithmetic, stops at a channel that does not hold the version
  reached, and drops repeated images. Termination of the walk follows from there being fewer than 2^64 channels:
  some name of the source's prefix and major is then without a channel.
- **Release configuration** (`Releases`, `ReferenceImages`, `Wildcards`, `ZeroedIdentifiers`, `Ranges`, `Downloads`,
  `ReferenceRun`, `ServedImages`). Filling in missing bounds and writing them back, the global start and end, the
  images of the two download modes and across channels, and whole runs over all architectures.
- **Batch worker** (`Worker`, `WorkerRuns`, `LostUpdates`). Interleaved steps of the launching goroutine and of one
  goroutine for each copy, which calls `Run` at any time after its launch. The unsynchronised append to the error
  slice is a read of its length followed by a write.
- **Catalog filter** (`ChannelEntries`, `Catalog`, `CatalogMeaning`, `DocumentedRange`, `DefaultChannel`). One pass
  over package, channel and bundle objects in any order.
- **From run to run** (`Diff`, `DiffMeaning`, `Metadata`, `Collector`). What the configuration dropped, the metadata
  sequence, and the way of release images to disk and back.

`sort.Slice`, `sort.Sort` and the iteration order of Go maps are visible only through contracts that allow any
ordered permutation and any order (`Sorting.Sort`, `Choice.AnyOf`), so the theorems hold for every choice the
runtime makes. Where a property would otherwise drag in how texts are read, the reader is a parameter (`read`,
`parse`); the program passes `EntryVersion` and `Parse`, and the theorems hold for every reader.

## Where the code and its documentation differ

- The lower end of an operator version range is excluded (pkg/manifest/oci-manifest.go:398), although the
  configuration documents it as included (pkg/api/v1alpha2/type_config_include.go:42). With no maximum the upper end
  is 9.9.9, although the full channel is documented. `FilterAsDocumentedExactlyWhen` and `FullChannelExactlyWhen`
  give the exact conditions, `MinimumIsLeftOut`, `TenIsLeftOut` and `ZeroIsLeftOut` inputs.
- A walk blocked before the target channel looks up the greatest version of the channel that blocked it, not the
  requested version, in the target channel (pkg/release/core-cincinnati.go:263); `RequestedOnService` says when that
  is the requested version all the same, and `AnswerMissesRequest` gives a service on which it is not.
- The semver library takes an "x" anywhere in a bound for a wildcard, so that range mode fails on an upper bound
  such as 4.13.0-fix.1 and reads a lower bound such as 4.13.0-rc.x as 4.13.0-rc.0; a lower bound such as
  4.13.0-rc.x1 is refused. `RangeIsBoundsExactlyWhen` and `RangeFailsExactlyWhen` give the exact conditions.
- `calculateDiff` misses dropped packages when no catalog is left and marks packages that are still listed when
  there is a second catalog (pkg/diff/diff.go:181-198); `DiffRightExactlyWhen` gives the exact condition and
  `SecondCatalogBreaksDiff` and `NoCatalogHidesPackages` inputs. Of several unchanged elements only the last is
  marked as found (`OnlyLastUnchangedIsFound`), which does not affect deletion.
- The error slice of the worker may hold fewer errors than copies failed (`LostUpdate`), never more
  (`NoMoreErrorsThanFailures`) and not fewer unless a copy wrote over a changed slice (`CountsExactlyWhen`), which
  does not affect the result (`ErrorsAreNoticed`, `ReturnedRuns`).
- Deletion fails as soon as a channel was dropped, whose name has no slashes (`DroppedChannelFails`).

## Model

| member | source | states |
|---|---|---|
| Semver.TotalPreorder | vendor/github.com/blang/semver/v4/semver.go:125-174 | precedence is reflexive, total and transitive, and a strict step makes a chain strict |
| Semver.EqIgnoresBuildOnly | vendor/github.com/blang/semver/v4/semver.go:76-84 | two versions have equal precedence exactly when they differ in build metadata only |
| Precedence.LtIsLower | vendor/github.com/blang/semver/v4/semver.go:125-174 | one version is below another exactly if section 11 of Semantic Versioning 2.0.0 says so: by the first of major, minor and patch that differs, a pre-release below its release, pre-releases by the first different identifier or by being the beginning of the other |
| Precedence.ComparisonsFollow | vendor/github.com/blang/semver/v4/semver.go:86-123 | so do greater, at most, at least and equal |
| Precedence.IdentifierOrder | vendor/github.com/blang/semver/v4/semver.go:411-433 | identifiers: numbers by value, numbers below texts, texts by their first different character |
| Semver.ParseToString | vendor/github.com/blang/semver/v4/semver.go:271-357 | parsing the text of a valid version gives that version back |
| Semver.ToStringParse | vendor/github.com/blang/semver/v4/semver.go:33-62 | a text that parses is the text of the version it yields, which is valid |
| Semver.PrintedVersion | vendor/github.com/blang/semver/v4/semver.go:33-62 | the text of a version with all its parts: 4.13.0-rc.8+b1 |
| Paths.BestIsUnique | pkg/release/core-cincinnati.go:121-160 | at most one path comes before all others |
| Paths.BestIsShortestAndSimple | pkg/release/core-cincinnati.go:121-160 | the preferred path is no longer than any path and repeats no node |
| BreadthFirst.ShortestPath | pkg/release/core-cincinnati.go:121-160 | terminates; returns the preferred path, and the empty list exactly when the end is unreachable |
| BreadthFirst.Explore | pkg/release/core-cincinnati.go:122-142 | queue, visited and prev represent a search tree of preferred paths; all reachable nodes are seen unless the end was met |
| BreadthFirst.Expand | pkg/release/core-cincinnati.go:135-141 | one node's unseen successors enter the queue in list order and the search invariant holds again |
| BreadthFirst.WayIsBest | pkg/release/core-cincinnati.go:128-142 | at every point of the search the recorded way to each seen node beats every other path to it |
| BreadthFirst.ClosedMeansReachable | pkg/release/core-cincinnati.go:144-147 | with an empty queue, an unseen node has no path from the start |
| BreadthFirst.Collect | pkg/release/core-cincinnati.go:149-152 | following prev from the end collects the way to it, last node first |
| BreadthFirst.WalkBack | pkg/release/core-cincinnati.go:149-159 | the list walked back and reversed is the recorded way to the end |
| BreadthFirst.ReverseInPlace | pkg/release/core-cincinnati.go:154-157 | the array is reversed in place |
| UpgradeGraph.EdgesByOrigin | pkg/release/core-cincinnati.go:108-111 | the successor list of every node is the destinations of its edges, in edge order and with repetitions |
| UpgradeGraph.DestinationsAreEdges | pkg/release/core-cincinnati.go:108-111 | a node is a destination of another exactly when the edge between them is listed |
| UpgradeGraph.SortDestinations | pkg/release/core-cincinnati.go:115-117 | some permutation with versions descending |
| UpgradeGraph.SortEach | pkg/release/core-cincinnati.go:113-119 | in any order of origins every list becomes a descending permutation of itself |
| UpgradeGraph.SortedAdjacency | pkg/release/core-cincinnati.go:108-119 | for any order of origins, each list is a permutation of the node's destinations, descends by version, and holds exactly the edges |
| UpgradeGraph.BestIsPreferred | pkg/release/core-cincinnati.go:108-160 | the preferred path by list order is a shortest route whose versions are lexicographically at least those of every other shortest route |
| UpgradeGraph.PreferredIsGreatest | pkg/release/core-cincinnati.go:108-160 | with distinct precedences at each origin it is strictly the greatest |
| UpgradeGraph.EdgeListOrderIrrelevant | pkg/release/core-cincinnati.go:108-160 | permuting or repeating edges does not change the path |
| UpgradeGraph.FindVersion | pkg/release/core-cincinnati.go:73-83 | the first node with the version's precedence, or -1 when there is none |
| UpgradeGraph.CollectNodes | pkg/release/core-cincinnati.go:164-167 | the nodes of the path in order |
| UpgradeGraph.PlanUpdates | pkg/release/core-cincinnati.go:73-169 | succeeds exactly when both versions are in the graph; current, requested and the path are then as the search defines them |
| UpgradeGraph.PlanIsDetermined | pkg/release/core-cincinnati.go:58-170 | with distinct precedences the whole answer depends only on the nodes and the set of edges |
| Cincinnati.GetUpdates | pkg/release/core-cincinnati.go:58-170 | the same for a channel of the service, with the reason of each failure |
| Cincinnati.SortVersions | vendor/github.com/blang/semver/v4/sort.go:26-28 | an ascending permutation |
| Cincinnati.GetChannelMinOrMax | pkg/release/core-cincinnati.go:330-378 | the least or greatest version the filter accepts; fails exactly when none is accepted |
| Cincinnati.GetVersions | pkg/release/core-cincinnati.go:410-439 | a permutation, in ascending order, of the versions of the channel; fails exactly on an empty or unknown channel |
| Cincinnati.HandleBlockedEdges | pkg/release/core-cincinnati.go:291-302 | blocked exactly when no version of the channel has the precedence |
| Cincinnati.GetUpdatesInRange | pkg/release/core-cincinnati.go:442-464 | the nodes in the range, in order |
| Cincinnati.NodesInRange | pkg/release/core-cincinnati.go:455-463 | a node is kept exactly when it is in the graph and in the range |
| Cincinnati.NodesInAt | pkg/release/core-cincinnati.go:455-463 | the nodes kept stand, in order and each once, at all the positions whose version is in the range |
| ChannelNames.ParseChannelName | pkg/release/core-cincinnati.go:239-239 | a printed channel name reads back as its own prefix, major and minor, also when the prefix has dashes |
| ChannelNames.PrintedNamesRead | pkg/release/core-cincinnati.go:306-326 | two printed names read as their own versions, with the prefix of the source |
| ChannelNames.SomeNameIsFree | pkg/release/core-cincinnati.go:231-254 | fewer than 2^64 channels leave some minor of a prefix and major without a channel |
| CrossChannel.NamesContinue | pkg/release/core-cincinnati.go:279-279 | the next call reads its source back unchanged and has one channel less before a free name |
| CrossChannel.NextGoal | pkg/release/core-cincinnati.go:241-254 | the requested version in the target channel, else the channel's greatest; fails exactly on a channel without accepted versions |
| CrossChannel.LookUpInTarget | pkg/release/core-cincinnati.go:260-267 | a blocked walk returns the goal's node from the target channel and no upgrades, or fails when the target lacks it |
| CrossChannel.WalkLonger | pkg/release/core-cincinnati.go:279-284 | a leg before a walk from the next minor is a walk from this one |
| CrossChannel.WalkByLonger | pkg/release/core-cincinnati.go:279-284 | the same for any rules on legs and ends |
| CrossChannel.Calculate | pkg/release/core-cincinnati.go:231-287 | terminates; reports the paths of all legs through consecutive minors up to the target or the first blocking channel, and fails exactly where the walk fails |
| CrossChannel.IsReportLonger | pkg/release/core-cincinnati.go:279-284 | a leg put before what the recursive call reports is again the report of a walk |
| CrossChannel.Cross | pkg/release/core-cincinnati.go:199-226 | the walk case: fails without a version to start from, else the source leg and the walk after it give the upgrades |
| CrossChannel.CrossesFrom | pkg/release/core-cincinnati.go:206-226 | the source leg and any report of the rest make up an answer of a walk over several channels |
| CrossChannel.CalculateUpgrades | pkg/release/core-cincinnati.go:174-227 | the three cases: one channel, two prefixes of one version, a walk whose upgrades are the first occurrences by image of all legs' paths |
| Repeats.DropRepeatedImages | pkg/release/core-cincinnati.go:217-224 | keeps exactly the nodes whose image occurs nowhere before |
| Repeats.AppendDropsFirst | pkg/release/core-cincinnati.go:217-224 | appending a rising list that starts with a listed image drops only its first node |
| Repeats.KeptAreFirsts | pkg/release/core-cincinnati.go:217-224 | what is kept stands, in order, at the positions of the first node of each image, and all of these |
| Repeats.KeptFirst | pkg/release/core-cincinnati.go:215-224 | upgrades appended behind a list do not change what is kept of it |
| Repeats.JoinedClimbs | pkg/release/core-cincinnati.go:215-224 | climbs that each start where the one before ended join, without repeated images, into one climb |
| UpgradeWalks.WalkIsDetermined | pkg/release/core-cincinnati.go:231-287 | two walks of one trip visit the same channels with equal precedences and end in the same way, however ties are broken |
| UpgradeWalks.LegDoesNotFail | pkg/release/core-cincinnati.go:256-273 | a channel in which a leg can be made is not one where the walk fails |
| UpgradeWalks.ArrivalDistance | pkg/release/core-cincinnati.go:236-248 | a walk arrives after as many legs as the target minor is ahead modulo 2^64, with equal majors, in the target channel |
| UpgradeWalks.RequestedVersion | pkg/release/core-cincinnati.go:260-276 | the requested node has the requested version when the walk arrives or is blocked at the target; blocked earlier, it has the greatest version of the blocking channel |
| UpgradeWalks.RequestedExactlyWhen | pkg/release/core-cincinnati.go:260-276 | the node returned has the requested version if and only if the walk arrives, is blocked at the target, or the blocking channel's greatest version is the requested one |
| Arrivals.ArrivesExactlyWhen | pkg/release/core-cincinnati.go:231-287 | a walk arrives if and only if, on the service, each channel up to the target holds the greatest version of the one before, the first one the start version, and the target the requested one |
| Arrivals.BlockedAtFirstClosed | pkg/release/core-cincinnati.go:256-267 | a walk is blocked exactly at the first channel of the service that does not hold the version it is entered with |
| Arrivals.RequestedOnService | pkg/release/core-cincinnati.go:231-287 | the node a successful walk returns has the requested version if and only if the service lets it arrive, or the first closed channel is the target or has the requested version as its greatest |
| Arrivals.FailsExactlyWhen | pkg/release/core-cincinnati.go:231-287 | a walk fails if and only if, on the service, it comes to a target without the requested version, to a channel that offers nothing, or to a closed channel whose greatest version the target lacks |
| UpgradeAnswers.PlanEndsAreFirst | pkg/release/core-cincinnati.go:73-169 | a plan begins and ends with the first nodes of the precedences asked for, with a preferred route between them if there is one and no updates otherwise |
| UpgradeAnswers.PlanToItself | pkg/release/core-cincinnati.go:73-169 | from a version to itself the plan is its first node alone |
| UpgradeAnswers.PrefixesOfOneVersion | pkg/release/core-cincinnati.go:179-185 | channels of different prefixes and one major and minor fall under the next row |
| UpgradeAnswers.SameVersionAnswer | pkg/release/core-cincinnati.go:185-196 | between two channels of one version the answer succeeds exactly if the target holds the requested version; it is a preferred way in the target from the start version if the target holds that, else the requested version alone |
| UpgradeAnswers.BothCasesOccur | pkg/release/core-cincinnati.go:185-196 | a service on which either case occurs, with both answers |
| UpgradeAnswers.RequestedInTarget | pkg/release/core-cincinnati.go:260-276 | whether a walk arrives or is blocked, the node returned is one of the target channel |
| UpgradeAnswers.CrossingAnswer | pkg/release/core-cincinnati.go:199-287 | between channels of different versions the answer starts in the source channel with the way to its greatest version and returns a node of the target channel, whose version is the requested one exactly under the stated condition on the service |
| UpgradeAnswers.CrossingFailsExactlyWhen | pkg/release/core-cincinnati.go:199-287 | it fails if and only if the source offers nothing or lacks the start version, or the service makes the walk from the source's greatest version fail |
| UpgradeAnswers.AnswerEnds | pkg/release/core-cincinnati.go:174-227 | every answer starts with the start version, unless two channels of one version skip it, and returns a node of the target channel |
| BlockedEarly.AnswerMissesRequest | pkg/release/core-cincinnati.go:260-267 | on the given services every answer succeeds with another version than the one asked for, although the target channel holds it |
| BlockedEarly.ThreeChannelsBlock | pkg/release/core-cincinnati.go:260-267 | such a service, for any architecture and prefix |
| UpgradeWalks.PlanClimbs | pkg/release/core-cincinnati.go:121-169 | if edges raise versions, a path's nodes rise strictly from the first version to the last along edges |
| UpgradeWalks.UpgradesRise | pkg/release/core-cincinnati.go:199-226 | under the stated conditions the upgrades returned rise strictly from the start to the requested version and each adjacent pair is an edge of a visited channel |
| Worker.StepInv | pkg/batch/worker.go:75-119 | every step of every goroutine keeps the invariant on progress, calls of Run, counter and errors |
| Worker.RunInv | pkg/batch/worker.go:52-127 | the invariant, including recursion depth at most one, holds in every state of every interleaving, in which a launched copy may call Run at any later time |
| WorkerRuns.CounterIsExact | pkg/batch/worker.go:75-104 | the WaitGroup counter is never negative and is the batch's copies in flight plus those not launched; at most eight are in flight |
| WorkerRuns.Barrier | pkg/batch/worker.go:84-104 | no copy of a batch is launched before every copy of earlier batches has finished |
| WorkerRuns.ErrorsAreNoticed | pkg/batch/worker.go:88-110 | after Wait the error slice is non-empty exactly when a copy of the batch failed |
| LostUpdates.LostUpdate | pkg/batch/worker.go:88-104 | for any two or more images some run has two failed copies and a single error past Wait |
| LostUpdates.CountsExactlyWhen | pkg/batch/worker.go:88-104 | past Wait the slice holds one error for each failed copy if and only if no copy of the run wrote over a slice that had changed since it was read |
| LostUpdates.PhaseStep | pkg/batch/worker.go:92-92 | a write over a changed slice, and no other step, makes the slice fall behind the reports, and it stays behind |
| LostUpdates.NoMoreErrorsThanFailures | pkg/batch/worker.go:88-94 | at every point of every run the slice holds at most one error for each failed copy |
| LostUpdates.OutOfLaunchOrder | pkg/batch/worker.go:88-90 | for any two or more images some run passes the second to Run before the first |
| WorkerRuns.ReturnedRuns | pkg/batch/worker.go:60-126 | success means every image was passed to Run exactly once, batch by batch, and none failed; an error means exactly the images up to the end of the one failing batch were |
| WorkerRuns.NoDeadlock | pkg/batch/worker.go:76-126 | a state that has not returned can make a step, without any copy having to fail |
| WorkerRuns.RunsEnd | pkg/batch/worker.go:76-126 | every interleaving is finite, and one that cannot go on has returned |
| ChannelEntries.EntryVersionIsRelease | pkg/manifest/oci-manifest.go:338-349 | the version read from an entry name has no pre-release and is at least 0.0.0 |
| ChannelEntries.EntryNameReads | pkg/manifest/oci-manifest.go:338-349 | for every dot-free operator name and every release, the name operator.vMAJOR.MINOR.PATCH reads as that release |
| ChannelEntries.SuffixedNameReads | pkg/manifest/oci-manifest.go:345-346 | the same with a dash and any text behind it |
| ChannelEntries.SemverFindMax | pkg/manifest/oci-manifest.go:334-357 | the first entry with the greatest version; fails exactly when some entry has no version |
| ChannelEntries.NamesInRange | pkg/manifest/oci-manifest.go:385-402 | the names in range in order; fails exactly when some entry has no version |
| ChannelEntries.NamesWithinMembers | pkg/manifest/oci-manifest.go:398-400 | a name is listed exactly when it is an entry above the lower and not above the upper bound |
| ChannelEntries.SemverFindRange | pkg/manifest/oci-manifest.go:360-403 | the same with the bounds read from text or taken from the defaults |
| Catalog.ChannelChoice | pkg/manifest/oci-manifest.go:295-314 | the names a channel object adds, including the empty name on error |
| Catalog.FilterCatalog | pkg/manifest/oci-manifest.go:288-331 | for any object order each name maps to the images of its last bundle that was wanted when its turn came |
| Catalog.GetRelatedImageByFilter | pkg/manifest/oci-manifest.go:288-331 | the same with versions read from entry names |
| CatalogMeaning.OnePassIsTwoPasses | pkg/manifest/oci-manifest.go:288-331 | with bundles last the pass equals collecting the chosen names first and then taking the last bundle of each |
| CatalogMeaning.OnePassExactlyWhen | pkg/manifest/oci-manifest.go:288-331 | in any order the pass equals the two passes if and only if all bundles are wanted or the last bundle of every chosen name stands behind an object that chooses it |
| CatalogMeaning.SelectedExactlyWhen | pkg/manifest/oci-manifest.go:288-331 | in any order a name is in the result exactly if all bundles are wanted or its last bundle stands behind an object that chooses it, and with the images of that last bundle |
| CatalogMeaning.LatestOfEachChannel | pkg/manifest/oci-manifest.go:306-329 | without a channel in the configuration and with bundles last, the result is exactly the bundles named by the first entry that no entry of its channel is above, or by a default channel, each with its last images |
| CatalogMeaning.FilteredIsPartOfFull | pkg/manifest/oci-manifest.go:315-324 | in any order a filtered result is part of the full one with equal images |
| CatalogMeaning.WideningKeepsBundles | pkg/manifest/oci-manifest.go:360-403 | in any order a wider version range keeps every bundle and its images |
| DocumentedRange.DocumentedExactlyWhen | pkg/manifest/oci-manifest.go:364-402 | the names taken from a channel are the documented ones, where a bound given is included and a missing one excludes nothing, if and only if no entry is at the minimum given, above 9.9.9 with no maximum, or not above 0.0.0 with no minimum |
| DocumentedRange.FilterAsDocumentedExactlyWhen | pkg/manifest/oci-manifest.go:288-331 | with bundles last the filter's result is the documented one if and only if it is full or every bundle of these three kinds is the name of a default channel |
| DocumentedRange.FullChannelExactlyWhen | pkg/manifest/oci-manifest.go:288-331 | without bounds all bundles of the channel are in the filter's result if and only if each is named by a default channel or listed with readable entries, above 0.0.0 and not above 9.9.9 |
| DocumentedRange.MinimumIsLeftOut | pkg/manifest/oci-manifest.go:398-398 | inputs: the only bundle of a catalog, such as op.v1.0.0, is documented but not in the result with its own version as the minimum |
| DocumentedRange.TenIsLeftOut | pkg/manifest/oci-manifest.go:382-382 | inputs: the only bundle of a catalog, such as op.v10.0.0, is documented but not in the result without a maximum, whatever minimum is below it |
| DocumentedRange.ZeroIsLeftOut | pkg/manifest/oci-manifest.go:374-374 | an input: the only bundle op.v0.0.0 of a catalog is documented but not in the result without a minimum |
| DocumentedRange.EntryNameText | pkg/manifest/oci-manifest.go:387-397 | the texts of these names and of the minimum: op.v1.0.0, op.v10.0.0, op.v0.0.0 and 1.0.0 |
| DefaultChannel.SelectHeads | pkg/manifest/oci-manifest.go:259-283 | for any object order, exactly the bundles named by the greatest entry of a channel that was the default when its turn came, the last of each name |
| DefaultChannel.LastPackageCounts | pkg/manifest/oci-manifest.go:278-281 | of several packages the last one before a channel decides the default |
| DefaultChannel.GetRelatedImageByDefaultChannel | pkg/manifest/oci-manifest.go:253-284 | the same with versions read from entry names |
| DefaultChannel.HeadsArePartOfLatest | pkg/manifest/oci-manifest.go:253-331 | in any order the default channel's result is part of the filter's without a channel, with equal images |
| DefaultChannel.HeadsComeInOrder | pkg/manifest/oci-manifest.go:253-284 | in any order a name in the result belongs to a bundle behind a channel of which it is the latest entry, itself behind a package with that default channel |
| DefaultChannel.DefaultChannelHead | pkg/manifest/oci-manifest.go:251-252 | with one package before its channels and bundles last, the result is the last bundle of the default channel's greatest entry and nothing else |
| Releases.ValidateReleaseChannels | pkg/config/validate.go:43-54 | accepts exactly lists with unique names |
| Releases.FindReleases | pkg/release/find.go:39-59 | maps each name to the bound of its last channel; fails exactly on an empty list or an unreadable bound |
| Releases.LastChannelWins | pkg/release/find.go:39-59 | of channels of one name the bound of the last is found |
| Releases.FindRelease | pkg/release/find.go:16-37 | a name and version least or greatest in that map, for any iteration order and sort |
| Releases.FindReleaseBounds | pkg/release/find.go:16-59 | with unique names the version is no greater than every minimum or no smaller than every maximum |
| ReferenceImages.ResolveChannel | pkg/release/cincinnati.go:142-205 | fills in exactly the missing bounds; none exactly when the type has no client or a needed lookup fails |
| ReferenceImages.MissingBoundsFilled | pkg/release/cincinnati.go:163-205 | a channel without bounds gets its greatest version for both unless it is full, a full one its least and greatest; a single missing bound is filled by the least or the greatest; with both given the channel becomes full |
| ReferenceImages.BoundsSetExactlyWhen | pkg/release/cincinnati.go:142-222 | after an architecture a channel has both bounds exactly if it had them or its type has a client and the channel an accepted version |
| ReferenceImages.VersionMapNext | pkg/release/cincinnati.go:140-205 | the map by name holds for each name the last resolved channel so named |
| ReferenceImages.LastResolvedWins | pkg/release/cincinnati.go:140-222 | all channels of one name get the resolution of the last of them that was resolved |
| ReferenceImages.OwnResolution | pkg/release/cincinnati.go:217-222 | with unique names the write-back gives every channel its own resolution and leaves the others |
| ReferenceImages.ArchitectureSteps | pkg/release/cincinnati.go:140-222 | with unique names a channel whose lookup failed is unchanged and every other one is its own resolution |
| ReferenceImages.ParseReadsPrinted | pkg/release/cincinnati.go:262-269 | the program's reader gives back every version printed as a bound |
| ReferenceImages.InOrderReadsBack | pkg/release/cincinnati.go:262-269 | bounds in order read back as versions in order |
| Ranges.NoWildcard | vendor/github.com/blang/semver/v4/range.go:248-259 | the text of a version is never a wildcard |
| Wildcards.PlainTailParses | vendor/github.com/blang/semver/v4/range.go:264-276 | zeroing a wildcard in the build metadata leaves patch and pre-release as they are |
| Wildcards.MovedTail | vendor/github.com/blang/semver/v4/range.go:264-276 | zeroing one in the pre-release gives a lower pre-release of the same patch, if it can be read |
| Ranges.FlattenedText | vendor/github.com/blang/semver/v4/range.go:264-276 | what createVersionFromWildcard makes of a version's text |
| Ranges.PlainLowerBound | vendor/github.com/blang/semver/v4/range.go:325-382 | a lower bound without an x at the start of a later pre-release identifier keeps its precedence |
| Ranges.MovedLowerBound | vendor/github.com/blang/semver/v4/range.go:325-382 | any other lower bound that is read at all is read as a lower version |
| Ranges.ExpandedVersion | vendor/github.com/blang/semver/v4/range.go:325-382 | a version's text is no wildcard, so that the expansion keeps the flattened text behind >= and leaves nothing behind <= |
| ZeroedIdentifiers.ZeroedReadsExactlyWhen | vendor/github.com/blang/semver/v4/range.go:264-276 | a text zeroed by createVersionFromWildcard cannot be read if and only if the zeroed identifier, after the collapse of two wildcards, is a zero followed by digits only |
| Ranges.LowerFailsExactlyWhen | vendor/github.com/blang/semver/v4/range.go:325-382 | the same for a lower bound |
| Ranges.RangeReads | pkg/release/cincinnati.go:280-292 | a range that is read is the versions from the lower bound as read up to the upper one |
| Ranges.RangeFailsExactlyWhen | pkg/release/cincinnati.go:280-287 | the range is refused if and only if the upper bound's text has an x or zeroing an identifier of the lower bound makes a number with a leading zero |
| Ranges.RangeContainsBounds | pkg/release/cincinnati.go:280-292 | a range that is read contains every version between the bounds |
| Ranges.RangeIsBoundsExactlyWhen | pkg/release/cincinnati.go:280-292 | it is exactly the versions between the bounds if and only if the stated condition on their texts holds |
| Ranges.PreWithX | pkg/release/cincinnati.go:284-287 | an upper bound with an x in any pre-release identifier is refused |
| Ranges.FixReleaseIsRefused | pkg/release/cincinnati.go:284-284 | an input: 4.13.0-fix.1 as the upper bound is refused |
| Ranges.LeadingZeroIsRefused | pkg/release/cincinnati.go:280-283 | an input: a lower bound such as 4.13.0-rc.x1 is refused whatever the upper bound is |
| Ranges.WildcardMovesLower | pkg/release/cincinnati.go:280-280 | inputs: a lower bound whose last identifier is x, such as 4.13.0-rc.x, is read as a version below it, 4.13.0-rc.0 |
| Downloads.GatherUpdates | pkg/release/cincinnati.go:330-346 | the images of the updates, then the non-empty images of the end points |
| Downloads.DownloadBetween | pkg/release/cincinnati.go:271-296 | the images the channel's mode selects between two versions; range mode fails when the library refuses the range |
| Downloads.GetChannelDownloads | pkg/release/cincinnati.go:251-297 | the same between the channel's bounds; fails when one does not read |
| Downloads.ShortestPathWithinRange | pkg/release/cincinnati.go:271-294 | if edges raise versions and bounds are in order, shortest-path images are among those of range mode, which fails exactly if the upper bound has an x or an identifier of the lower one is spoilt |
| Downloads.OnlyRangeModeFails | pkg/release/cincinnati.go:271-292 | on such bounds shortest-path mode succeeds on a channel that holds both and range mode fails |
| Downloads.EndPointsIncluded | pkg/release/cincinnati.go:271-278 | a successful shortest-path download includes the non-empty images of the first nodes of either bound's precedence, also when no route connects them |
| Downloads.PathIsDownloaded | pkg/release/cincinnati.go:271-278 | a successful shortest-path download begins with the images, in order, of a preferred route between the bounds' first nodes if there is a route, and ends with the non-empty images of these two nodes |
| Downloads.RangeIsDownloaded | pkg/release/cincinnati.go:280-294 | a successful range download is the images, in order and each once, of the nodes in the range |
| Downloads.PlainRangeIsDownloaded | pkg/release/cincinnati.go:280-294 | with plain bounds it succeeds on every channel and holds exactly the images of the versions between them |
| Downloads.OneVersionIsDownloaded | pkg/release/cincinnati.go:271-278 | from a version to itself one image is downloaded, that of its first node |
| Downloads.OcpChannels | pkg/release/cincinnati.go:303-308 | the OCP channels in order |
| Downloads.OcpOnlyKeeps | pkg/release/cincinnati.go:303-308 | a channel is kept exactly when it is an OCP channel, and unique names stay unique |
| Downloads.GetCrossChannelDownloads | pkg/release/cincinnati.go:300-327 | nothing without OCP channels, else the images of the upgrade answer between the ends found |
| Downloads.CrossingIsDownloaded | pkg/release/cincinnati.go:300-346 | a successful download across channels is the images of all upgrades in order followed by the non-empty ones of both ends; the answer starts with the first version found unless it is skipped and ends in the last channel found |
| Downloads.EndsAreBounds | pkg/release/cincinnati.go:314-322 | with unique names the walk starts with the least minimum of all channels, in a channel that has it, and ends with the greatest maximum, in a channel that has it |
| Downloads.EndsInOrder | pkg/release/cincinnati.go:314-322 | with unique names the start is not after the end if some OCP channel has its bounds in order |
| ReferenceRun.Platform.WriteBack | pkg/release/cincinnati.go:217-222 | each channel with an entry of its name is replaced, the others stay |
| ReferenceRun.DownloadChannel | pkg/release/cincinnati.go:142-213 | one channel: its resolution, and its images or none when it fails |
| ReferenceRun.DownloadChannels | pkg/release/cincinnati.go:141-214 | the map by name, the images in order and each channel's resolution and images |
| ReferenceRun.DownloadAcross | pkg/release/cincinnati.go:224-237 | images across channels, only with a second channel and a client |
| ReferenceRun.Platform.HandleArchitecture | pkg/release/cincinnati.go:140-238 | one architecture: the channels resolved, their images in order, the write-back by name and then the images across the channels written back |
| ReferenceRun.Platform.GetReleaseReferenceImages | pkg/release/cincinnati.go:132-239 | the images of all architectures in turn, each working on the channels the one before left |
| ReferenceRun.RunSettles | pkg/release/cincinnati.go:139-222 | after every architecture a given bound is unchanged, a changed channel has both bounds, and bounds that both started empty are in order |
| ReferenceRun.SharesFollowConfig | pkg/release/cincinnati.go:139-222 | what is downloaded for a resolved channel is what the configuration written back says, and it is in the result |
| ReferenceRun.DownloadsAreKept | pkg/release/cincinnati.go:208-213 | every image of a successful download of a resolved channel is in the result |
| ReferenceRun.CrossingIsKept | pkg/release/cincinnati.go:224-237 | with two or more channels and a client, so is every image of a successful download across the channels written back |
| ReferenceRun.NoCrossing | pkg/release/cincinnati.go:224-237 | with one channel or no client an architecture adds the images of its channels only |
| ReferenceRun.RunFollowsPaths | pkg/release/cincinnati.go:132-297 | over all architectures, the images of a preferred route between the bounds of every resolved shortest-path channel are in the result of the run |
| ReferenceRun.HeadsOnlyDownload | pkg/release/cincinnati.go:163-278 | a shortest-path channel without bounds that is not full is downloaded as the one image of the first node of its greatest version |
| ReferenceRun.ImagesInOrder | pkg/release/cincinnati.go:139-239 | images stand in the result architecture by architecture, those across channels last in each |
| ReferenceRun.SharesInOrder | pkg/release/cincinnati.go:141-214 | inside an architecture they stand channel by channel |
| ReferenceRun.CrossingsInOrder | pkg/release/cincinnati.go:224-232 | once an OCP channel without bounds was resolved, upgrades across channels do not start after they end |
| ServedImages.UpgradeAnswerServed | pkg/release/core-cincinnati.go:174-227 | all nodes of an upgrade answer, blocked or not, are the service's for the architecture asked for |
| ServedImages.RunIsServed | pkg/release/cincinnati.go:132-239 | every image a run returns is one the service offers for a configured architecture |
| Diff.CompareItem | pkg/diff/diff.go:173-179 | the mark of every name after one previous item: both, current, previous or as before |
| Diff.CompareItems | pkg/diff/diff.go:172-180 | the mark of every name after two lists; a name still listed is marked both exactly when its last item equals the last previous item |
| Diff.CompareCatalog | pkg/diff/diff.go:182-197 | the mark of every name after one previous catalog |
| Diff.CompareCatalogs | pkg/diff/diff.go:181-198 | the mark of every name after all previous catalogs |
| Diff.CalculateDiff | pkg/diff/diff.go:162-210 | the mark of every name after the three comparisons in turn |
| Diff.ImagesToDelete | pkg/diff/diff.go:214-227 | in any map order, one target for each name marked previous, each name once; fails exactly when some marked name has no target |
| Diff.TargetOfReference | pkg/diff/diff.go:222-268 | a name host/namespace/component, with or without a digest or further parts, is deleted at the destination followed by namespace/component |
| Diff.StaleTargets | pkg/diff/diff.go:66-74 | the targets of all names the diff of two configurations leaves marked |
| DiffMeaning.PackageLeft | pkg/diff/diff.go:185-193 | a package is left marked exactly if dropped, or listed by a current catalog other than the last and by the last previous catalog with packages |
| DiffMeaning.CatalogNameLeft | pkg/diff/diff.go:181-197 | a catalog is left marked exactly if dropped |
| DiffMeaning.DiffRightExactlyWhen | pkg/diff/diff.go:162-210 | with names disjoint between kinds the diff is right about every name if and only if the stated condition on the catalogs holds |
| DiffMeaning.OneCatalogIsReliable | pkg/diff/diff.go:183-193 | one current catalog always meets the condition |
| DiffMeaning.SecondCatalogBreaksDiff | pkg/diff/diff.go:186-186 | an input on which a listed package is marked as dropped |
| DiffMeaning.NoCatalogHidesPackages | pkg/diff/diff.go:181-198 | an input on which a dropped package is not marked at all |
| DiffMeaning.DeletesExactlyDropped | pkg/diff/diff.go:162-227 | under the condition the names to delete are exactly those dropped from the configuration |
| DiffMeaning.DeletionExactlyWhen | pkg/diff/diff.go:162-227 | under the condition deletion succeeds if and only if every dropped name is a reference with host, namespace and component, and lists, once for each dropped name, its namespace and component behind the destination |
| DiffMeaning.DroppedChannelFails | pkg/diff/diff.go:214-227 | a dropped channel without slashes in its name makes deletion fail, whatever the catalogs are |
| DiffMeaning.FoundMeansListedInBoth | pkg/diff/diff.go:162-210 | a name marked found is listed, as the same kind of element, in both configurations |
| DiffMeaning.LastItemDecides | pkg/diff/diff.go:172-180 | a listed name is marked found exactly if its last item equals the last previous item in all fields |
| DiffMeaning.LastCatalogDecides | pkg/diff/diff.go:181-198 | the same for a catalog |
| DiffMeaning.OnlyLastUnchangedIsFound | pkg/diff/diff.go:172-180 | of unchanged channels with distinct names exactly the last is marked found |
| Metadata.WriteMetadata | pkg/diff/diff.go:121-135 | clears the flags in the caller's slice and writes one more, current item |
| Metadata.GetPreviousISC | pkg/diff/diff.go:230-242 | destination and path of the last current item |
| Metadata.Replay | pkg/diff/diff.go:104-135 | any list of runs, each reading what the one before wrote, writes the items described below and sees the previous configurations described below |
| Metadata.ItemsAfter | pkg/diff/diff.go:121-135 | after any runs item i has value i, its run's path and destination, and is current exactly if last |
| Metadata.PathsDiffer | pkg/diff/diff.go:130-130 | configuration paths of different runs differ, whatever their directories |
| Metadata.PreviousIsLastRun | pkg/diff/diff.go:230-242 | after any runs the previous configuration is the last run's |
| Metadata.LastCurrentCounts | pkg/diff/diff.go:230-242 | in any list of items the last current one counts, and gives no configuration if its path is empty |
| Metadata.RunComparesWithLast | pkg/diff/diff.go:104-118 | every run but the first compares with the configuration of the run just before |
| Metadata.ClearedHasNoPrevious | pkg/diff/diff.go:123-125 | the slice the caller still holds has no current item |
| Collector.DirsExist | pkg/release/collector.go:213-224 | directories are only added, and after the conversion those of all images handled exist |
| Collector.ParentsAreMade | pkg/release/collector.go:214-214 | a directory is made together with every directory above it |
| Collector.Disk.Convert | pkg/release/collector.go:207-228 | the directories made and the copies returned, image by image |
| Collector.FreshConvert | pkg/release/collector.go:207-228 | for distinct slash-free names not on disk every image is copied to its own directory in order |
| Collector.CopiesAreMissing | pkg/release/collector.go:207-228 | on any disk exactly the images that are not there yet are copied, in order |
| Collector.SecondConvertIsEmpty | pkg/release/collector.go:213-224 | a second call on the directories left by the first returns nothing |
| Collector.FindRelatedImage | pkg/release/collector.go:231-239 | the reference without host of the first image of the name, or the empty string |
| Collector.DirGivesMirrorCopy | pkg/release/collector.go:185-193 | an image's directory is paired with the image's own reference, or with nothing if that is only a host |
| Collector.PairWithReferences | pkg/release/collector.go:183-198 | the copies of all directories found, in order |
| Collector.ForEachPermuted | pkg/release/collector.go:183-198 | the order in which directories are found does not change the copies |
| Collector.DiskRoundTrip | pkg/release/collector.go:183-224 | on any disk, after a conversion all images' directories exist, and however they are found among others each image is sent back exactly once |
| Collector.MirroredInFull | pkg/release/collector.go:183-198 | images whose reference is more than a host are all brought back, in as many copies |
| Collector.CopyBackDropsHost | pkg/release/collector.go:231-239 | a copy back starts where the copy out ended and has the reference without its registry host |

## Left out

- HTTP, TLS, proxies and query parameters of the update service: replaced by the map from channel to graph; edge indices outside the node list, on which the program panics, are excluded by `WellFormed`.
- Signatures, container copies, JSON, YAML, TOML, tar and gzip: foreign libraries; a copy is a step that succeeds or fails.
- Command line, logging, console output and log files of the worker.
- `GetChannels`, operator and additional-image collectors, enum string tables: listings and tables without decisions of their own.
- Node metadata: read by `GetChannels` only.
- Ranges.ParseRange: only ">=" or "<=" with the text of a version, which has no spaces; the library's other range notation is not reached.
- DeepEqual: elements are equal when name and content are; a nil slice and an empty one are not told apart.
- Disk paths are compared as texts: a path with a trailing slash is not identified with the directory it denotes.
- Writing two words of a slice header separately in the worker's append: the length is read and written in one step each.
- DeleteImages: its guard, by which nothing is deleted when the whole configuration is unchanged or the force flag is set, is not part of the model; `Diff.StaleTargets` is what it deletes otherwise.
- GetReleaseReferenceImages: the errors collected for the log are not part of the model; a failed download contributes no images.
- ChannelEntries.SemverFindMax: requires entries, because the program indexes the list even when it is empty.
