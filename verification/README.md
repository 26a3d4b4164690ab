# Verified model of the native shadow boot image tooling

The scripts under `scripts/` build and check the root filesystem and initrd of a boot
image: they resolve a closure of packages, bring every artifact into a content-addressed
store, assemble and measure a staging tree, write an initrd and a root disk, and compare
and audit the results.  This project models the parts of that chain that carry its
arguments, and proves what those parts are relied on for.  The statements are about all
inputs: every byte string, tree, index, stream, clock and schedule.

| module | what it models |
|---|---|
| `Resolver`, `ResolverChoice`, `ResolverSpec`, `ResolverRun`, `ResolverLaws`, `ResolverPins` | dependency choice, the worklist, and why its order does not matter |
| `Newc`, `NewcLayout`, `Initrd` | the `newc` record format, byte by byte, the initrd writer and reader |
| `RecordAccounting`, `RecordRows`, `RecordLaws` | accounting for every byte by which two initrds differ |
| `TreeDiff`, `TreeObjections`, `InitrdTree` | comparing two trees, and why both comparisons agree |
| `Cas`, `CasStore`, `CasExact` | the content-addressed store and the publication of one artifact |
| `Acquire`, `AcquireRuns`, `CiAcquire`, `CiShadow` | staged acquisition, its traces, and the whole closure |
| `Links` | the two resolvers of symlink targets |
| `Staging`, `StagingWalk`, `StagingManifest` | measuring the staging tree from its table and by a walk |
| `StagingShapes`, `StagingTrees` | which trees one measurement cannot tell apart |
| `StagePlan`, `StageDisk`, `StageLookup`, `StageRoutes`, `StageRuns`, `StageTree` | staging a tree from its plan in two passes, with lookup that follows links |
| `StagePlain`, `StageContain` | when staging succeeds, what it leaves and where it can write |
| `TimeAudit`, `TimePlaces` | auditing every timestamp of an ext4 image, and where each of them lies |
| `Ar`, `ArBytes`, `ArLaws` | three readers of `ar` archives |
| `ByteStrings`, `Unicode`, `Paths`, `Sorting`, `Folds` | bytes in their own order, text, paths, sorting, sums |

The SHA-256 digest, case folding, the version comparison, the clock and everything the
operating system or the network decides are parameters, and the theorems hold for all of
them.  Freedom from collisions is assumed only where equal contents are concluded from
equal digests, and only between the contents concerned.  Exceptions are `Fail`.

Some natural statements hold only under a condition.  Each condition below is proved to be
exact, in both directions, and a member named with it gives a concrete input on which the
statement fails:

- an initrd reads back as its entries unless an entry is named `TRAILER!!!`
  (`Initrd.RoundTrip`, `Initrd.RoundTripLosesTrailerName`);
- a closure is stable under removing unused packages unless a pin is no longer needed
  (`ResolverLaws.ClosureStable`, `ResolverPins.UnneededPin`);
- an added directory that passes the verdict is empty unless something already lay below
  its path (`TreeDiff.EmptinessExact`, `TreeDiff.OrphanDefeatsEmptiness`);
- a failed publication leaves the visible store as it was unless the stream arrived and then
  a rival published, or the link was made and a later step failed
  (`CasStore.FailureExact`, `CasStore.UnsyncedPublication`);
- the plan's three routes account for all bytes unless the lock repeats an identifier and the
  shadowed rows hold bytes (`CiAcquire.PlanConservesBytes`, `CiShadow.ShadowedBytesMissing`);
- the two link resolvers agree unless the path the stack resolver arrives at has a first
  name that begins with two dots (`Links.ResolversAgree`, `Links.DottedNameDisagrees`);
- the nine quantities determine a tree's paths unless the manifest text can be cut elsewhere
  into as many paths that some tree with the same quantities has (`StagingTrees.MeasureExact`,
  `StagingManifest.NewlineTreesPass`); without newlines it cannot
  (`StagingManifest.OneLinePinned`), and with one it need not (`StagingManifest.NewlineHarmless`);
- staging looks up nothing outside its root unless a path of the layer, followed through the
  layer's own links, leaves it (`StageContain.InsideExact`, `StageContain.LinkLeadsOut`);
- staged files keep their planned modes unless root stages a file with set-user-id, or with
  set-group-id and group execution (`StagePlain.PlannedModes`, `StagePlain.SetUserIdLost`);
- the archive readers agree on a name unless it repeats with a different last member, and the
  dictionaries unless a name ends in a slash (`ArLaws.FirstAgainstLast`,
  `ArLaws.RepeatedNameDisagrees`, `ArLaws.DictionariesAgree`, `ArLaws.SlashedNameDisagrees`).

The comment on the staging path check says that an accepted path names something inside the
staging root.  That is true of the text of the path; on the disk the calls follow links, and
the model follows the code.

`dafny verify dfyconfig.toml` checks the whole project.

## Model

| member | source | states |
|---|---|---|
| `ResolverRun.ResolveClosure` | scripts/native_shadow_boot_rootfs_resolver_v2.py:180-308 | whatever pending package is taken next at each step: on success the selected packages are the smallest set holding the seeds and closed under the choice made for every dependency group, each recorded choice is the one that group has, and every pin was needed; it fails exactly when the seed list is empty, unsorted or repeats, a seed is not a unique name, two rows share an identifier, no closed set exists, or a pin goes unused |
| `ResolverRun.Seeds` | scripts/native_shadow_boot_rootfs_resolver_v2.py:256-264 | succeeds exactly when each seed names one candidate, and queues those candidates in seed order |
| `ResolverRun.NoClosure` | scripts/native_shadow_boot_rootfs_resolver_v2.py:210-290 | one queued package without a decision means that no closed set holds the seeds, so failing early loses nothing |
| `ResolverRun.SelectStep` | scripts/native_shadow_boot_rootfs_resolver_v2.py:266-290 | taking a queued package keeps the run's invariant: everything selected or queued is forced by the seeds |
| `ResolverChoice.PickExact` | scripts/native_shadow_boot_rootfs_resolver_v2.py:219-237 | one alternative picks nothing exactly when no candidate is eligible, a candidate exactly when it is the only eligible one, a pinned one exactly when several are eligible and it alone bears the pinned name |
| `ResolverChoice.ChoiceExact` | scripts/native_shadow_boot_rootfs_resolver_v2.py:210-254 | a group is decided by an alternative exactly when that one applies and picks, and every earlier one is for another architecture or picks nothing; it is skipped exactly when every alternative is for another architecture |
| `ResolverSpec.AppliesExact` | scripts/native_shadow_boot_rootfs_resolver_v2.py:79-106 | an alternative without a restriction applies; one with positive terms exactly when some term names the target, one with negated terms exactly when none does; mixed or empty restrictions are refused |
| `ResolverSpec.MatchesExact` | scripts/native_shadow_boot_rootfs_resolver_v2.py:109-150 | when a package satisfies an alternative, and when the question is refused, spelled on its name, version, provided names and their versions |
| `ResolverSpec.ChoicesExact` | scripts/native_shadow_boot_rootfs_resolver_v2.py:210-290 | the choices made for a package: refused exactly when a field is refused or a group of either field has no decision, and otherwise one choice for each decided group of Depends and then of Pre-Depends, in group order, each with its own group, alternative, package and pin |
| `ResolverSpec.ClosedExact` | scripts/native_shadow_boot_rootfs_resolver_v2.py:266-290 | a set is closed exactly when, for every group of both fields of every member, the group has a decision and the package it leads to is in the set |
| `ResolverSpec.RecordExact` | scripts/native_shadow_boot_rootfs_resolver_v2.py:272-290 | the recorded edges of a package are determined by its groups: the one ordered list of the edges its groups lead to |
| `ResolverSpec.UsedPinsExact` | scripts/native_shadow_boot_rootfs_resolver_v2.py:223-294 | a pin is used exactly when a group of a selected package needs it |
| `ResolverSpec.SeedsExact` | scripts/native_shadow_boot_rootfs_resolver_v2.py:256-264 | which packages the seeds name |
| `ResolverSpec.AnswersExact` | scripts/native_shadow_boot_rootfs_resolver_v2.py:180-308 | the declarative outcome, spelled out on seeds, groups, edges and pins |
| `ResolverSpec.ResolvesExact` | scripts/native_shadow_boot_rootfs_resolver_v2.py:180-308 | whatever resolving returns is the one answer to the request, spelled out on the index, and it fails exactly when there is none |
| `ResolverLaws.OutcomeUnique` | scripts/native_shadow_boot_rootfs_resolver_v2.py:170-308 | any two outcomes the resolver may return for one index and seed list are equal, records and failures included |
| `ResolverLaws.TwoSchedules` | scripts/native_shadow_boot_rootfs_resolver_v2.py:266-290 | two runs with different worklist orders return the same |
| `ResolverLaws.RowOrderIrrelevant` | scripts/native_shadow_boot_rootfs_resolver_v2.py:196-290 | an outcome for one order of index rows is an outcome for every order of the same rows |
| `ResolverLaws.ClosureStable` | scripts/native_shadow_boot_rootfs_resolver_v2.py:210-294 | against any smaller index that still holds the selected packages the identical closure, records included, comes back if and only if every pin is still needed; with no pins always |
| `ResolverPins.UnneededPin` | scripts/native_shadow_boot_rootfs_resolver_v2.py:223-294 | two providers and a pin: without the provider that was not selected the pin decides nothing and the same request fails |
| `ResolverLaws.PickStable` | scripts/native_shadow_boot_rootfs_resolver_v2.py:210-237 | the candidate chosen for one alternative stays chosen when other candidates disappear |
| `ResolverLaws.PinsAreDeclared` | scripts/native_shadow_boot_rootfs_resolver_v2.py:223-235 | only declared pins are ever used |
| `Resolver.NegationComplements` | scripts/native_shadow_boot_rootfs_resolver_v2.py:79-106 | negating every term of an architecture restriction negates whether it applies, and is refused exactly when the original is |
| `Newc.HexRoundTrip` | scripts/native_shadow_boot_initrd_arm64_v1.py:65-68 | every value that fits the width reads back from its digits |
| `Newc.FieldsRoundTrip` | scripts/native_shadow_boot_initrd_arm64_v1.py:65-102 | any list of header values that fit 32 bits reads back from the header text |
| `Newc.AlignShift` | scripts/native_shadow_boot_initrd_arm64_v1.py:71-73 | padding counted from a record's start and padding counted from the buffer's start agree at every multiple of four |
| `Newc.RecordSpan` | scripts/native_shadow_boot_initrd_arm64_v1.py:76-102 | a record is written exactly when every header value fits, and its length depends on the name length and data length only |
| `Newc.ReadWritten` | scripts/native_shadow_boot_initrd_arm64_v1.py:76-240 | reading at any aligned position of any buffer undoes writing a record there |
| `Newc.ReadSpan` | scripts/native_shadow_boot_initrd_arm64_v1.py:185-240 | a record read inside the buffer has data of its declared size and ends where its name length and size say |
| `NewcLayout.RecordExact` | scripts/native_shadow_boot_initrd_arm64_v1.py:65-102 | the bytes of a written record: the magic, thirteen fields of eight lower-case digits with their values, the name and its zero, the data, and zeros up to each multiple of four |
| `NewcLayout.ReadExact` | scripts/native_shadow_boot_initrd_arm64_v1.py:185-240 | on any bytes at any place a row is returned exactly when the magic and thirteen hexadecimal fields are there and the name is text, and each of its fields is the number at its own place, name and data cut off where the buffer ends |
| `NewcLayout.ParseHexExact` | scripts/native_shadow_boot_initrd_arm64_v1.py:185-240 | hexadecimal text in either case as a number by place value |
| `Unicode.Utf8Exact` | scripts/native_shadow_boot_initrd_arm64_v1.py:76-164 | what is accepted as text is exactly what encodes some sequence of code points without surrogates |
| `ByteStrings.LessExact` | scripts/native_shadow_boot_initrd_arm64_v1.py:158-164 | the order of names: the one that ends, or has the smaller byte, where two names first part |
| `Initrd.LayerEntries` | scripts/native_shadow_boot_initrd_arm64_v1.py:105-164 | a layer is accepted exactly when it is non-empty, every member is acceptable and the names strictly increase; each entry then has its member's name, the kind of its form, its permission bits, and its payload if it is a file or a link |
| `Initrd.ReadMember` | scripts/native_shadow_boot_initrd_arm64_v1.py:105-156 | one member is accepted exactly when it is acceptable, and becomes the entry that carries it |
| `Initrd.InitrdBytes` | scripts/native_shadow_boot_initrd_arm64_v1.py:167-182 | bytes are produced exactly when the layer is accepted and all values fit; they parse, and the rows read back hold the members' names, types, permissions and payloads, numbered from 1, if and only if no member is named `TRAILER!!!` |
| `Initrd.WriteArchive` | scripts/native_shadow_boot_initrd_arm64_v1.py:167-182 | the writing loop computes the archive defined by recursion over the entries |
| `Initrd.ArchiveDefined` | scripts/native_shadow_boot_initrd_arm64_v1.py:76-182 | an archive exists exactly when every entry and number fits, and its length is a multiple of four |
| `Initrd.ParseNewc` | scripts/native_shadow_boot_initrd_arm64_v1.py:185-240 | the reading loop returns exactly the rows, or the refusal, of the recursive definition, and terminates on every input |
| `Initrd.ParseTiles` | scripts/native_shadow_boot_initrd_arm64_v1.py:185-240 | on any bytes the rows returned tile the buffer from the start, each starting at a multiple of four, and only the last is the trailer |
| `Initrd.ParseNeverTruncates` | scripts/native_shadow_boot_initrd_arm64_v1.py:185-240 | whenever parsing returns, each row before the trailer has data of exactly its declared size, though slices are unchecked; for the trailer exactly when its data is inside the buffer |
| `Initrd.ParseOfArchive` | scripts/native_shadow_boot_initrd_arm64_v1.py:167-240 | parsing an archive written at any aligned position gives the rows of its entries up to the trailer |
| `Initrd.RoundTrip` | scripts/native_shadow_boot_initrd_arm64_v1.py:167-240 | parsing a written archive gives back exactly its entries, numbered from 1, then the trailer, if and only if no entry is named `TRAILER!!!` |
| `Initrd.RoundTripLosesTrailerName` | scripts/native_shadow_boot_initrd_arm64_v1.py:105-240 | a two-entry layer the checks accept that reads back as one row |
| `Initrd.ArchiveInjective` | scripts/native_shadow_boot_initrd_arm64_v1.py:167-182 | different entry lists give different archives |
| `RecordAccounting.ArchiveRecords` | scripts/native_shadow_boot_root_disk_tree_diff_arm64_v1.py:258-282 | indexing succeeds exactly when the archive parses and no name repeats; each record has the fields of its row and the bytes it occupies |
| `RecordAccounting.IndexRows` | scripts/native_shadow_boot_root_disk_tree_diff_arm64_v1.py:261-282 | the indexing loop refuses exactly a repeated name |
| `RecordAccounting.Account` | scripts/native_shadow_boot_root_disk_tree_diff_arm64_v1.py:302-383 | added and removed names, shifts, inconsistent records, byte balance and the overall answer are those of the declarative conditions |
| `RecordAccounting.Renumber` | scripts/native_shadow_boot_root_disk_tree_diff_arm64_v1.py:343-356 | each shared record's shift, and exactly the records whose shift is not the number of insertions before it |
| `RecordAccounting.CompareFields` | scripts/native_shadow_boot_root_disk_tree_diff_arm64_v1.py:308-320 | accepts exactly when no shared record differs in a compared field |
| `RecordAccounting.CountInsertions` | scripts/native_shadow_boot_root_disk_tree_diff_arm64_v1.py:343-350 | the number of added records placed before a position |
| `RecordAccounting.SumSpans` | scripts/native_shadow_boot_root_disk_tree_diff_arm64_v1.py:358-359 | the bytes of the added records |
| `RecordRows.RecordAccounts` | scripts/native_shadow_boot_root_disk_tree_diff_arm64_v1.py:285-383 | for any two archives: they are compared exactly when both parse without a repeated name, and there is no objection if and only if, row by row, every earlier record is still there with the same mode, owner, link count, time, size and content digest, its number raised by the new records numbered below it, the new records are the required empty root-owned directories, and the archive grew by their bytes |
| `RecordRows.AccountedExact` | scripts/native_shadow_boot_root_disk_tree_diff_arm64_v1.py:285-383 | the accounting of two indexes is the row-by-row condition on the archives they come from |
| `RecordLaws.RenumberingExact` | scripts/native_shadow_boot_root_disk_tree_diff_arm64_v1.py:343-356 | for archives numbered by position with nothing removed, every shift is explained if and only if deleting the added records leaves the earlier name sequence |
| `RecordLaws.SortedNeverInconsistent` | scripts/native_shadow_boot_root_disk_tree_diff_arm64_v1.py:343-356 | sorted archives with nothing removed always pass the renumbering check |
| `RecordLaws.ByteAccountingExact` | scripts/native_shadow_boot_root_disk_tree_diff_arm64_v1.py:258-364 | for any two parsed archives with nothing removed and sizes kept, growth equals the added spans if and only if the two trailers span the same bytes |
| `RecordLaws.IndexedSpan` | scripts/native_shadow_boot_root_disk_tree_diff_arm64_v1.py:258-282 | a record's span follows from its name and size alone |
| `RecordLaws.WrittenIndex` | scripts/native_shadow_boot_root_disk_tree_diff_arm64_v1.py:258-282 | the index of a written layer is the layer's entries, and its trailer spans a fixed number of bytes |
| `RecordLaws.KeptSubset` | scripts/native_shadow_boot_root_disk_tree_diff_arm64_v1.py:285-383 | for sorted layers, containing every earlier entry is the same as keeping them in order |
| `RecordLaws.CleanReportMeansExtension` | scripts/native_shadow_boot_root_disk_tree_diff_arm64_v1.py:285-383 | over written layers the accounting has no objection if and only if the later layer is the earlier one plus exactly the required directories |
| `TreeDiff.RequiredRootDirectories` | scripts/native_shadow_boot_rootfs_mount_point_audit_arm64_v1.py:77-107 | rows are accepted exactly when each is a root-owned directory name listed once whose octal mode has no set-id digit and no write digit for others without the sticky one, and together they are the sealed roots |
| `TreeDiff.CheckRow` | scripts/native_shadow_boot_rootfs_mount_point_audit_arm64_v1.py:81-105 | the checks on one row, made bit by bit, accept exactly those rows |
| `TreeDiff.UnchangedFields` | scripts/native_shadow_boot_root_disk_tree_diff_arm64_v1.py:155-172 | a path is reported as changed exactly when some field differs |
| `TreeDiff.PatchRoundTrip` | scripts/native_shadow_boot_root_disk_tree_diff_arm64_v1.py:155-172 | the earlier tree and the difference give back the later tree |
| `TreeDiff.DiffReversed` | scripts/native_shadow_boot_root_disk_tree_diff_arm64_v1.py:155-172 | exchanging the trees exchanges the two sides of the difference, which therefore also gives back the earlier tree |
| `TreeDiff.DirectoryReasons` | scripts/native_shadow_boot_root_disk_tree_diff_arm64_v1.py:175-191 | there is none exactly when the entry is a directory with the required mode, user and group 0, and no attributes recorded or an empty set of them |
| `TreeDiff.Verdict` | scripts/native_shadow_boot_root_disk_tree_diff_arm64_v1.py:194-222 | the listed objections are exactly the objections there are; it passes exactly when there is none |
| `TreeDiff.VerdictExact` | scripts/native_shadow_boot_root_disk_tree_diff_arm64_v1.py:155-222 | no objection if and only if the later tree is the earlier tree plus exactly the required directories, their fields spelled out, with hard links grouped alike |
| `TreeObjections.ObjectionsExact` | scripts/native_shadow_boot_root_disk_tree_diff_arm64_v1.py:155-222 | each single objection is raised exactly when it is due, spelled out on the two trees' paths and fields: absent, different, unexpected, not added, not a directory, wrong mode, not root's, carrying attributes, links grouped otherwise |
| `TreeObjections.PassExact` | scripts/native_shadow_boot_root_disk_tree_diff_arm64_v1.py:155-222 | the verdict passes exactly when no objection is due; then every required directory is there, and the attributes recorded for it, if any, are the empty map |
| `TreeDiff.EmptinessExact` | scripts/native_shadow_boot_root_disk_tree_diff_arm64_v1.py:194-222 | under a passing verdict a required directory is empty if and only if nothing already lay below its path |
| `TreeDiff.VerdictSound` | scripts/native_shadow_boot_root_disk_tree_diff_arm64_v1.py:194-222 | over a parent-closed earlier tree every required directory of a passing verdict is empty, though the code never looks inside it |
| `TreeDiff.OrphanDefeatsEmptiness` | scripts/native_shadow_boot_root_disk_tree_diff_arm64_v1.py:194-222 | without parent-closure a directory that is not empty can pass |
| `InitrdTree.TreeFromInitrd` | scripts/native_shadow_boot_image_verify_arm64_v1.py:105-130 | for any bytes: fails exactly when the archive does not parse or a link target is not text; otherwise each path has the fields of the last row that stands for it, by kind |
| `InitrdTree.TreeExact` | scripts/native_shadow_boot_image_verify_arm64_v1.py:105-130 | the tree of any rows: which paths it has, and every field of each entry by the bits and bytes of its row |
| `InitrdTree.WrittenTree` | scripts/native_shadow_boot_image_verify_arm64_v1.py:105-130 | the tree of a written layer has one entry per layer entry with that entry's fields, and is readable exactly when every link target is text |
| `InitrdTree.VerdictMeansExtension` | scripts/native_shadow_boot_root_disk_tree_diff_arm64_v1.py:194-222 | over trees of good layers the verdict asks for exactly the extension by required directories |
| `InitrdTree.ComparisonsAgree` | scripts/native_shadow_boot_root_disk_tree_diff_arm64_v1.py:285-444 | the record accounting of two written layers and the verdict on their trees always give the same answer |
| `CasStore.Store.StoreStream` | scripts/native_shadow_boot_rootfs_payload_acquire_arm64_v1.py:306-365 | for any stream, write pattern, system call outcome and rival: success, what becomes of the publication, the visible store and whether the temporary name is left are each determined by the store, the artifact and the outcomes of the calls; success leaves the artifact verified and adds only its digest; every directory state on the way keeps every object unaltered and, if the store was honest and the rival is, every object hashing to its name |
| `CasExact.SuccessExact` | scripts/native_shadow_boot_rootfs_payload_acquire_arm64_v1.py:306-365 | spelled out on the stream and the calls: success if and only if the temporary name was free and could be made, no chunk was empty or failed, the chunks together have the sealed size and digest, every write made progress, the file was synced, the object that was there or a rival's is genuine or else the link was made, and nothing failed after that |
| `CasExact.WriteOutExact` | scripts/native_shadow_boot_rootfs_payload_acquire_arm64_v1.py:332-337 | a chunk is written by the shortest run of progressing writes that together cover it |
| `CasStore.FailureExact` | scripts/native_shadow_boot_rootfs_payload_acquire_arm64_v1.py:306-365 | a failed publication changes the visible store if and only if the file could be created, the names were free, the stream arrived whole, and then a rival published or the link was made and a later sync or the unlinking failed |
| `CasStore.UnsyncedPublication` | scripts/native_shadow_boot_rootfs_payload_acquire_arm64_v1.py:344-364 | one byte, linked, with the directory sync failing: the call fails and the object is there |
| `CasStore.FavourablePublishes` | scripts/native_shadow_boot_rootfs_payload_acquire_arm64_v1.py:306-365 | with no failing call and no rival the artifact's own stream is published under a free name |
| `CasStore.ContestExact` | scripts/native_shadow_boot_rootfs_payload_acquire_arm64_v1.py:344-354 | under contention the check on the name passes exactly when the object that was there, or the rival's, is the artifact |
| `CasStore.Store.Deliver` | scripts/native_shadow_boot_rootfs_payload_acquire_arm64_v1.py:322-355 | create, fill and publish, with the temporary name still there: success and what becomes of the publication, exactly |
| `CasStore.Store.WriteChunk` | scripts/native_shadow_boot_rootfs_payload_acquire_arm64_v1.py:332-337 | however short the writes, the chunk is appended whole exactly when no write stops before its end |
| `CasStore.Store.Receive` | scripts/native_shadow_boot_rootfs_payload_acquire_arm64_v1.py:324-341 | accepts exactly a stream that delivers the sealed size and digest and whose writes never stop |
| `CasStore.Store.Publish` | scripts/native_shadow_boot_rootfs_payload_acquire_arm64_v1.py:344-355 | publication without overwriting: contested exactly when the name is taken or a rival takes it, published exactly when it is free and the link is made; it fails exactly when the link is refused, the other object differs or the directory cannot be synced |
| `CasStore.SettledEffect` | scripts/native_shadow_boot_rootfs_payload_acquire_arm64_v1.py:306-365 | whatever the fate of a publication nothing else is disturbed and the visible store is accounted for |
| `CasStore.PublishedVerifies` | scripts/native_shadow_boot_rootfs_payload_acquire_arm64_v1.py:269-365 | once its temporary name is gone a published file passes the check on its name |
| `Cas.VerifiedPersists` | scripts/native_shadow_boot_rootfs_payload_acquire_arm64_v1.py:269-303 | a verified artifact stays verified under every change that preserves objects |
| `Cas.VerifyExact` | scripts/native_shadow_boot_rootfs_payload_acquire_arm64_v1.py:269-303 | the check answers absent exactly when the name is free, and verified exactly when it leads to a regular file of mode 0600, the user's own, with no other name and of that size and digest; anything else is refused |
| `Cas.PreservesVisible` | scripts/native_shadow_boot_rootfs_payload_acquire_arm64_v1.py:306-365 | a change that preserves objects leaves the file behind every visible object as it was |
| `Cas.VerifyUndisturbed` | scripts/native_shadow_boot_rootfs_payload_acquire_arm64_v1.py:269-303 | the check on any other artifact answers as before |
| `Cas.RaceEffect` | scripts/native_shadow_boot_rootfs_payload_acquire_arm64_v1.py:344-354 | a rival publishing the same digest adds only that name |
| `Acquire.OrderedUnique` | scripts/native_shadow_boot_rootfs_payload_acquire_arm64_v1.py:368-374 | refuses exactly an empty identifier, a size that is not positive, a malformed digest, or repeated identifiers or digests, and otherwise returns the same specs in identifier order |
| `Acquire.AcquireOrdered` | scripts/native_shadow_boot_rootfs_payload_acquire_arm64_v1.py:518-537 | one stage: it succeeds if and only if no artifact is refused and the attempt for each missing one succeeds; then all are verified, streams opened are exactly the artifacts missing at the start, counts and bytes add up; with all present it changes nothing; on failure nothing is lost; every directory state of the stage keeps every object unaltered and, from an honest store with honest rivals, has every object hashing to its name |
| `Acquire.AcquireStage` | scripts/native_shadow_boot_rootfs_payload_acquire_arm64_v1.py:518-537 | a stage as part of a run: the same exact condition for success on the store it starts from, and every directory state of the whole run so far is calm as seen from the run's start |
| `Acquire.StoreOne` | scripts/native_shadow_boot_rootfs_payload_acquire_arm64_v1.py:518-537 | one publication as a stage relies on it: success exactly as the store and the outcomes of the calls decide |
| `Acquire.FavourableStage` | scripts/native_shadow_boot_rootfs_payload_acquire_arm64_v1.py:518-537 | a stage succeeds when every missing artifact's stream delivers it, no call fails, no rival interferes and the temporary names are free |
| `Acquire.AdmitsUndisturbed` | scripts/native_shadow_boot_rootfs_payload_acquire_arm64_v1.py:518-537 | publishing other artifacts does not change whether an artifact's attempt will succeed, so one condition on the starting store decides the whole stage |
| `Acquire.CheckSpec` | scripts/native_shadow_boot_rootfs_payload_acquire_arm64_v1.py:48-61 | an artifact is valid exactly when it has an identifier, a positive size and sixty-four lower-case hexadecimal digits |
| `Acquire.Apart` | scripts/native_shadow_boot_rootfs_payload_acquire_arm64_v1.py:486-494 | comparing two lists pair by pair accepts exactly lists that share no identifier and no digest |
| `AcquireRuns.AcquireTwoStage` | scripts/native_shadow_boot_rootfs_payload_acquire_arm64_v1.py:478-503 | succeeds if and only if the lists are valid and disjoint, the lock is free and both stages' missing artifacts can be stored, judged on the starting store; no delta stream is opened before every baseline artifact is verified, no artifact's stream twice; on success both stages are conserved; when everything is there it opens no stream; every directory state of the run keeps every object unaltered and, from an honest store with honest rivals, has every object hashing to its name |
| `AcquireRuns.AcquireAgain` | scripts/native_shadow_boot_rootfs_payload_acquire_arm64_v1.py:478-503 | acquiring again after a success opens no stream, fetches no byte and leaves the store as it is |
| `AcquireRuns.AcquireAfterReplay` | scripts/native_shadow_boot_rootfs_payload_acquire_arm64_v1.py:540-580 | succeeds if and only if the request is admissible, the index can be stored, the replay agrees on the store it leaves and both stages can be stored; over every trace: no baseline stream before the replay returned true, no delta stream before every baseline object is verified, each stream at most once; on success every stage is conserved against the starting store; every directory state of the run, finished or broken off, keeps every object unaltered and, from an honest store with honest rivals, has every object hashing to its name |
| `AcquireRuns.Admit` | scripts/native_shadow_boot_rootfs_payload_acquire_arm64_v1.py:540-572 | a run may start exactly when the three lists are valid and share nothing, the lock is free and the preflight passes |
| `AcquireRuns.Preflight` | scripts/native_shadow_boot_rootfs_payload_acquire_arm64_v1.py:945-957 | the loops pass exactly when the signed bootstrap is there, the index is not, and exactly the expected packages are |
| `AcquireRuns.InventoryCounts` | scripts/native_shadow_boot_rootfs_payload_acquire_arm64_v1.py:945-957 | an accepted inventory is exactly the set of present artifacts, and counts them |
| `AcquireRuns.FrozenReuse` | scripts/native_shadow_boot_rootfs_payload_acquire_arm64_v1.py:945-994 | a preflight that passed forces what is reused, and what is fetched, to be exactly what was planned |
| `CiAcquire.DerivePlan` | scripts/native_shadow_boot_ci_payload_acquire_arm64_v1.py:149-297 | a plan is derived exactly when the sealed documents agree with the lock and name each artifact once; fetched, derived and reused identifiers partition the lock |
| `CiAcquire.LoadPlan` | scripts/native_shadow_boot_ci_payload_acquire_arm64_v1.py:300-310 | the committed plan is accepted exactly when the sealed documents still derive that very plan |
| `CiAcquire.LockMapExact` | scripts/native_shadow_boot_ci_payload_acquire_arm64_v1.py:149-297 | the lock by identifier: a repeated identifier keeps the last row |
| `CiAcquire.ByDigestExact` | scripts/native_shadow_boot_ci_payload_acquire_arm64_v1.py:149-297 | identifiers by digest: a repeated digest keeps the last row |
| `CiAcquire.PlanConservesBytes` | scripts/native_shadow_boot_ci_payload_acquire_arm64_v1.py:264-291 | the three routes' bytes sum to the plan's total if and only if rows shadowed by a later row of the same identifier hold no bytes; always with unique identifiers |
| `CiShadow.ShadowedBytes` | scripts/native_shadow_boot_ci_payload_acquire_arm64_v1.py:264-291 | for every lock whose first row repeats the identifier of a later one: a plan is derived, and its routes account for the total if and only if that first row is empty |
| `CiShadow.ShadowedBytesMissing` | scripts/native_shadow_boot_ci_payload_acquire_arm64_v1.py:264-291 | one such lock, with five bytes on no route |
| `CiAcquire.RequireReused` | scripts/native_shadow_boot_ci_payload_acquire_arm64_v1.py:383-406 | passes exactly when every reused artifact is verified in the store |
| `CiAcquire.PublishBytes` | scripts/native_shadow_boot_ci_payload_acquire_arm64_v1.py:361-380 | succeeds if and only if the bytes reproduce the sealed digest and size and are there already or can be stored; they are then verified, and if already there nothing changes |
| `CiAcquire.PlanSource` | scripts/native_shadow_boot_ci_payload_acquire_arm64_v1.py:466-470 | the first artifact of the plan with that identifier, found exactly when there is one |
| `CiAcquire.ReadObject` | scripts/native_shadow_boot_ci_payload_acquire_arm64_v1.py:473-481 | an object is returned exactly when it is there and still hashes to its name |
| `CiAcquire.DeriveKeyring` | scripts/native_shadow_boot_ci_payload_acquire_arm64_v1.py:428-440 | succeeds if and only if the keyring is there, or its package is, opens, and yields bytes that can be stored; it is then verified; one that is already there leaves the store as it is |
| `CiAcquire.AcquireClosure` | scripts/native_shadow_boot_ci_payload_acquire_arm64_v1.py:325-463 | succeeds if and only if the plan is the committed one, the reused artifacts are there, the missing ones can be stored and the keyring can be derived; every locked artifact is then verified in the store, the three counts add up to the lock and what was fetched is what was missing; a plan other than the committed one changes nothing; a complete store is accepted unchanged; every directory state of the run keeps every object unaltered and, from an honest store with honest rivals, has every object hashing to its name |
| `Links.ResolveLink` | scripts/native_shadow_boot_systemd_closure_arm64_v1.py:192-217 | the stack loop returns the climbed path, and refuses exactly a relative link path or a climb above the root |
| `Links.FoldShape` | scripts/native_shadow_boot_staging_measure_arm64_v1.py:135-140 | normalizing gives leading `..` and a plain rest: none exactly when the stack resolver does not refuse, and then the rest is its stack |
| `Links.LinkNormal` | scripts/native_shadow_boot_staging_measure_arm64_v1.py:135-140 | the normal form of a link, for relative and absolute targets |
| `Links.ResolversAgree` | scripts/native_shadow_boot_systemd_closure_arm64_v1.py:192-217 | for every plain link path and every target: the escape test fires exactly when the stack resolver refuses or its result's first name begins with two dots; otherwise both name the same plain path |
| `Links.RefusalIsEscape` | scripts/native_shadow_boot_staging_measure_arm64_v1.py:135-140 | where no name begins with two dots, refusing and escaping are the same |
| `Links.DottedNameDisagrees` | scripts/native_shadow_boot_staging_measure_arm64_v1.py:135-140 | a file called `..b` is resolved by one and called an escape by the other |
| `Staging.CaseFoldedSiblings` | scripts/native_shadow_boot_staging_measure_arm64_v1.py:187-199 | the loops count the entries minus the distinct folded names |
| `Staging.LargestRegularFile` | scripts/native_shadow_boot_staging_measure_arm64_v1.py:152-184 | for files met in any order: the greatest size, and the path whose bytes sort first among those that reach it; nothing if all are empty |
| `Staging.BuilderTotals` | scripts/native_shadow_boot_staging_measure_arm64_v1.py:202-235 | the table's counts, payload, largest file, manifest, case-fold, duplicate and escape counts, for every key order |
| `Staging.LargestUnique` | scripts/native_shadow_boot_staging_measure_arm64_v1.py:152-184 | the largest file is a property of the tree alone |
| `Staging.TotalsAgree` | scripts/native_shadow_boot_staging_measure_arm64_v1.py:312-333 | any two measurements of one tree over any two enumerations report the same |
| `StagingWalk.Traverse` | scripts/native_shadow_boot_staging_measure_arm64_v1.py:263-309 | for every parent-closed tree and every order in which directories list their names, the stack-driven walk meets each entry once and reports the tree's totals; it refuses exactly a tree with something other than files, directories and links |
| `StagingWalk.ScanDirectory` | scripts/native_shadow_boot_staging_measure_arm64_v1.py:273-298 | one directory: its entries appended, its subdirectories pushed, the accumulators those of the paths met |
| `StagingWalk.NothingMissed` | scripts/native_shadow_boot_staging_measure_arm64_v1.py:263-309 | when nothing is pending every entry's directory has been scanned |
| `StagingManifest.MeasurementsAgree` | scripts/native_shadow_boot_staging_measure_arm64_v1.py:312-333 | passes exactly when the nine quantities are equal |
| `StagingManifest.Measure` | scripts/native_shadow_boot_staging_measure_arm64_v1.py:202-333 | returns exactly when the tree holds only files, directories and links and has the table's measure, and then reports the measure of both; equal trees always pass; a tree that passes has the table's paths when the report pins them down, in the sense of the next rows, and the digest tells the two manifests apart |
| `StagingTrees.MeasureExact` | scripts/native_shadow_boot_staging_measure_arm64_v1.py:202-333 | for every table whose manifest text has a digest of its own: every tree that measures like the table has the table's paths if and only if no other way to cut the manifest text into as many paths is possible; whether a cut is possible is computed from the report: the paths are in order and closed under directories, fold to as many names, need no more directories than were counted, leave the largest path a file, and leave room for the bytes |
| `StagingTrees.ShapeExact` | scripts/native_shadow_boot_staging_measure_arm64_v1.py:202-333 | a sorted list with the manifest's text is the path list of some tree with the table's nine quantities if and only if it is possible in that sense |
| `StagingTrees.ShapeFound` | scripts/native_shadow_boot_staging_measure_arm64_v1.py:202-333 | the tree itself, with sizes, links that leave the tree and directories as many as reported |
| `StagingShapes.ShapeNeeded` | scripts/native_shadow_boot_staging_measure_arm64_v1.py:202-333 | the sorted paths of every tree are possible for the tree's own report |
| `StagingShapes.CutsExact` | scripts/native_shadow_boot_staging_measure_arm64_v1.py:143-149 | the ways to cut a text are exactly the lists of that length with that manifest text |
| `StagingShapes.TextExact` | scripts/native_shadow_boot_staging_measure_arm64_v1.py:143-149 | among sorted lists of its length a list is determined by its text if and only if it is the only sorted way to cut that text |
| `StagingManifest.OneLinePinned` | scripts/native_shadow_boot_staging_measure_arm64_v1.py:143-149 | lists without newlines, or of at most one path, are determined whatever else is reported |
| `StagingManifest.NewlineHarmless` | scripts/native_shadow_boot_staging_measure_arm64_v1.py:143-149 | so is `a<newline>`, `b`: a newline does not by itself confuse the manifest |
| `StagingManifest.NewlineTreesPass` | scripts/native_shadow_boot_staging_measure_arm64_v1.py:312-333 | two trees with different paths that measure alike, whatever the digest: `a<newline>b`, `c` and `a`, `b<newline>c`; the first list is not pinned down |
| `StagePlan.StagingEntries` | scripts/native_shadow_boot_root_disk_arm64_v1.py:198-216 | rows are the entries' metadata in order, refused exactly when a link target is not text |
| `StagePlan.AssertPlanMatchesLayer` | scripts/native_shadow_boot_root_disk_execute_arm64_v1.py:122-144 | a plan passes exactly when it is fresh and is row for row what an accepted layer produces; the row checks refuse nothing more |
| `StagePlan.NormalizedIsSafe` | scripts/native_shadow_boot_root_disk_execute_arm64_v1.py:101-109 | the text of a layer's path is relative and has only plain names, so it needs no further check; where it leads on disk is the matter of `StageContain` |
| `StageDisk.Disk.MakeAt` | scripts/native_shadow_boot_root_disk_execute_arm64_v1.py:154 | a missing directory above the staging root is made exactly when every directory above it may be searched and the one it goes into may be written |
| `StageDisk.Disk.Make` | scripts/native_shadow_boot_root_disk_execute_arm64_v1.py:161-164 | a directory or link appears exactly where lookup arrives at a free place of a directory that is open and writable; lookup needs every directory above the root to be open and follows every link but one at the end; it disturbs that directory's time and nothing else; an empty link target is refused |
| `StageDisk.Disk.Write` | scripts/native_shadow_boot_root_disk_execute_arm64_v1.py:165-166 | a file's bytes go where lookup, following also a link at the end, arrives: a new file, or the contents of a file there that may be written |
| `StageDisk.Disk.Amend` | scripts/native_shadow_boot_root_disk_execute_arm64_v1.py:167-182 | a change of mode, owner or time reaches exactly the node lookup arrives at, and only one that belongs to the user |
| `StageDisk.PermissionDigits` | scripts/native_shadow_boot_root_disk_execute_arm64_v1.py:154-182 | who may list, write and search a node, by the octal digits of its mode |
| `StageDisk.CanPlaceExact` | scripts/native_shadow_boot_root_disk_execute_arm64_v1.py:154-182 | something can be put at a place exactly when its directory is there and, unless root asks, the digit that applies lets it be written and searched |
| `StageLookup.FindSimilar` | scripts/native_shadow_boot_root_disk_execute_arm64_v1.py:157-182 | lookup does not depend on times, so the clock decides nothing about where rows go |
| `StageLookup.FindGrown` | scripts/native_shadow_boot_root_disk_execute_arm64_v1.py:157-182 | a place that was found is found again in every tree that only grew |
| `StageLookup.FindPlaced` | scripts/native_shadow_boot_root_disk_execute_arm64_v1.py:157-182 | a free place that was found is found again once something that is no link is there |
| `StageLookup.FindSeat` | scripts/native_shadow_boot_root_disk_execute_arm64_v1.py:172-179 | with and without following a link at the end, lookup arrives at the same node or stops at that link |
| `StageRoutes.LookupArrives` | scripts/native_shadow_boot_root_disk_execute_arm64_v1.py:157-182 | where no link is met lookup arrives where the text of the path leads, there or not |
| `StageRoutes.LookupFollows` | scripts/native_shadow_boot_root_disk_execute_arm64_v1.py:157-182 | a link on the way, or at the end where it is to be followed, is replaced by the text of its target, from `/` if that is absolute and from the link's own directory if not |
| `StageRuns.FinishRow` | scripts/native_shadow_boot_root_disk_execute_arm64_v1.py:172-179 | finishing a row succeeds exactly when the node at its seat belongs to the user, and changes the nodes at its two places only |
| `StageRuns.FinishAll` | scripts/native_shadow_boot_root_disk_execute_arm64_v1.py:172-179 | the reversed pass succeeds exactly when every seat belongs to the user, takes no node away, and leaves every seat with the canonical time, though later rows may share a place |
| `StageRuns.AboveLater` | scripts/native_shadow_boot_root_disk_execute_arm64_v1.py:155-179 | at every point of the second pass all directories between the root and an unfinished row still carry the build mode |
| `StageRuns.OpenSteady` | scripts/native_shadow_boot_root_disk_execute_arm64_v1.py:154-182 | directories that could be searched when the root was made can be searched in every later state, so asking once decides every later call |
| `StageTree.MakeDirectories` | scripts/native_shadow_boot_root_disk_execute_arm64_v1.py:154 | makes exactly the missing directories down to the root, or fails |
| `StageTree.StageFile` | scripts/native_shadow_boot_root_disk_execute_arm64_v1.py:165-167 | bytes first, then the build mode, at one and the same place, link or not |
| `StageTree.StageRow` | scripts/native_shadow_boot_root_disk_execute_arm64_v1.py:157-170 | one row changes the disk as the recursive account of the first pass says, or stops it |
| `StageTree.FirstPass` | scripts/native_shadow_boot_root_disk_execute_arm64_v1.py:157-170 | the creating loop succeeds exactly when the recursive account of it does, for every clock; the places it creates or changes are exactly those of the account |
| `StageTree.SecondPass` | scripts/native_shadow_boot_root_disk_execute_arm64_v1.py:172-179 | the finishing loop succeeds exactly when every seat belongs to the user; then every seat carries the canonical time and nothing but the rows' places changed |
| `StageTree.FinishRoot` | scripts/native_shadow_boot_root_disk_execute_arm64_v1.py:180-182 | the root comes last, since every creation in it disturbed its time |
| `StageTree.StageTree` | scripts/native_shadow_boot_root_disk_execute_arm64_v1.py:147-183 | for every plan, layer, disk and clock: succeeds exactly when the plan is the layer's, the root is empty or missing and can be made, every directory above it may be searched, each row in turn finds a place and every seat belongs to the user; the tree is then determined but for times, every seat and the root carry the canonical time, and exactly the rows' places and the directories missing above the root were created or changed; in every state on the way a node appears in a directory that is there and changes while all directories above it carry the build mode; a refused plan or an occupied root changes nothing |
| `StagePlain.ParentFirst` | scripts/native_shadow_boot_root_disk_execute_arm64_v1.py:147-170 | in byte order a directory comes before what it contains |
| `StagePlain.DirectoriesFirst` | scripts/native_shadow_boot_root_disk_execute_arm64_v1.py:147-170 | in a layer closed under directories every directory above an entry comes earlier |
| `StagePlain.RowExact` | scripts/native_shadow_boot_root_disk_execute_arm64_v1.py:157-170 | below no link, a row can be created exactly when its directory is the root or an earlier directory of the layer, the root is usable and a link has a target |
| `StagePlain.PlainStageable` | scripts/native_shadow_boot_root_disk_execute_arm64_v1.py:147-183 | for a layer with no entry below one of its links, staging succeeds exactly when the root can be made and filled and the layer is closed under directories: a condition on the layer and the root alone |
| `StagePlain.PlainOutcome` | scripts/native_shadow_boot_root_disk_execute_arm64_v1.py:147-183 | and the tree is then the layer's entries, each at its own path with its content, final mode and canonical time, with everything outside the root as it was but for times |
| `StagePlain.StageLayer` | scripts/native_shadow_boot_root_disk_execute_arm64_v1.py:147-183 | the same two statements of the whole call; each member is then at its own path with its own payload, the canonical time and, unless a change of owner cleared a bit, its own permissions |
| `StagePlain.MemberDelivered` | scripts/native_shadow_boot_root_disk_execute_arm64_v1.py:147-183 | what one member becomes on disk, by its form |
| `StagePlain.PlannedModes` | scripts/native_shadow_boot_root_disk_execute_arm64_v1.py:172-178 | every file and directory ends with its planned mode if and only if the stager is not root or no file carries set-user-id, or set-group-id with group execution, which changing the owner afterwards clears |
| `StagePlain.SetUserIdLost` | scripts/native_shadow_boot_root_disk_execute_arm64_v1.py:172-178 | a file planned with mode 4755 is staged by root on a disk with one empty directory, and in every tree that run leaves it has mode 0755 |
| `StageContain.TravelFind` | scripts/native_shadow_boot_root_disk_execute_arm64_v1.py:157-170 | lookup on the disk below the root follows lookup in the layer's own table, and stands somewhere outside the root exactly when the latter leaves it |
| `StageContain.InsideExact` | scripts/native_shadow_boot_root_disk_execute_arm64_v1.py:157-170 | every place visited by the lookups of the first pass lies at or below the root if and only if no path of the layer, followed through the layer's own links, leaves it: a condition on the layer and the limit on links alone |
| `StageContain.InsideStageable` | scripts/native_shadow_boot_root_disk_execute_arm64_v1.py:147-183 | for such a layer staging succeeds exactly when the root can be made and filled and each row finds a place in the layer's own table, and everything created or changed lies at or below the root |
| `StageContain.ThroughLink` | scripts/native_shadow_boot_root_disk_execute_arm64_v1.py:157-170 | a directory `a`, a link `z` to it and a file `z/x`: not closed under directories by name, yet every row finds its place, the file at `a/x`, so that it is staged wherever the root can be filled |
| `StageContain.LinkLeadsOut` | scripts/native_shadow_boot_root_disk_execute_arm64_v1.py:147-183 | a link `z` to `/a` and a file `z/x`: staged by root at `/x`, the layer creates `/a/x`, outside the root |
| `TimeAudit.Geometry` | scripts/native_shadow_boot_root_disk_time_audit_arm64_v1.py:102-130 | which bytes are accepted as a superblock, and the values taken from them |
| `TimePlaces.GeometryExact` | scripts/native_shadow_boot_root_disk_time_audit_arm64_v1.py:102-130 | accepted exactly when the superblock is inside the image, has the magic number and usable sizes; every value is then the little-endian number at its own absolute bytes of the image, the four times included |
| `TimePlaces.GroupReadableExact` | scripts/native_shadow_boot_root_disk_time_audit_arm64_v1.py:133-183 | a group is readable exactly when its descriptor and its inodes lie in the image |
| `TimePlaces.InodePlace` | scripts/native_shadow_boot_root_disk_time_audit_arm64_v1.py:133-196 | the absolute position of every inode, from the descriptor bytes of the image |
| `TimePlaces.ReportExact` | scripts/native_shadow_boot_root_disk_time_audit_arm64_v1.py:164-208 | the violations of a readable image are exactly the offending fields of the superblock and of inodes 1 to the count, each read at its absolute place, in order |
| `TimeAudit.GroupBound` | scripts/native_shadow_boot_root_disk_time_audit_arm64_v1.py:102-130 | a group number is in range exactly when its first inode is |
| `TimeAudit.SlotIsInode` | scripts/native_shadow_boot_root_disk_time_audit_arm64_v1.py:179-183 | slot `index` of group `group` is the inode found by dividing its number, and lies inside the table |
| `TimeAudit.AuditInode` | scripts/native_shadow_boot_root_disk_time_audit_arm64_v1.py:185-196 | one inode's offending times, every field read inside that inode's own bytes |
| `TimeAudit.AuditGroup` | scripts/native_shadow_boot_root_disk_time_audit_arm64_v1.py:133-196 | one group is read exactly when its descriptor and table are inside the image, each of its inodes once |
| `TimeAudit.AuditGroups` | scripts/native_shadow_boot_root_disk_time_audit_arm64_v1.py:173-196 | all inodes, each once and in order |
| `TimeAudit.AuditSuperblock` | scripts/native_shadow_boot_root_disk_time_audit_arm64_v1.py:169-171 | the superblock's offending times |
| `TimeAudit.OffencesEmpty` | scripts/native_shadow_boot_root_disk_time_audit_arm64_v1.py:164-208 | no offence up to an inode if and only if every inode up to it is clean |
| `TimeAudit.Audit` | scripts/native_shadow_boot_root_disk_time_audit_arm64_v1.py:164-208 | returns exactly on readable images; inodes 1 to the count are read once each, in order; passes if and only if every superblock time, inode time and applicable creation time is in the closed set; the count and the first 64 violations are exact |
| `Ar.ArMember` | scripts/native_shadow_boot_kernel_extract_arm64_v1.py:116-144 | on any bytes: the first member of that name, exactly when every header up to it is readable and marked and its data is all there |
| `Ar.ArMembers` | scripts/native_shadow_boot_writer_tree_arm64_v1.py:101-122 | on any bytes: the dictionary of members with slashes dropped, exactly when every header is marked and the walk ends because no header fits |
| `Ar.DebMembers` | scripts/native_shadow_boot_image_builder_authority_arm64_v1.py:467-479 | on any bytes: the dictionary of members, exactly when the headers run to the end of the archive |
| `Ar.EvenNext` | scripts/native_shadow_boot_kernel_extract_arm64_v1.py:136-142 | headers lie at even offsets, so padding by the parity of the end and by the parity of the size agree |
| `ArBytes.HeaderExact` | scripts/native_shadow_boot_kernel_extract_arm64_v1.py:116-144 | a header in any buffer, byte by byte: the magic, the mark, the name and size fields as text between blanks, and where the data lies |
| `ArBytes.WalkExact` | scripts/native_shadow_boot_writer_tree_arm64_v1.py:101-122 | the headers a reader visits are exactly the chain of readable headers, each followed by its data padded to an even length |
| `ArLaws.CollectLast` | scripts/native_shadow_boot_writer_tree_arm64_v1.py:115-120 | a dictionary holds, for each name, its last member |
| `ArLaws.FirstAgainstLast` | scripts/native_shadow_boot_kernel_extract_arm64_v1.py:116-144 | the single-member reader and the dictionary agree on a name that occurs once; on one that repeats exactly when its first and last member hold the same bytes |
| `ArLaws.DictionariesAgree` | scripts/native_shadow_boot_writer_tree_arm64_v1.py:101-122 | the two dictionaries are the same if and only if no name ends in a slash |
| `ArLaws.SlashedNameDisagrees` | scripts/native_shadow_boot_writer_tree_arm64_v1.py:101-122 | an archive with one member called `a/`, which both dictionary readers accept: one dictionary holds `a`, the other `a/` |
| `ArLaws.AcceptanceCompared` | scripts/native_shadow_boot_image_builder_authority_arm64_v1.py:467-479 | what each dictionary reader accepts beyond the other |
| `ArLaws.LayoutRead` | scripts/native_shadow_boot_writer_tree_arm64_v1.py:101-122 | every archive laid out from good members is accepted by both dictionary readers and gives back its members |
| `ArLaws.LayoutFirst` | scripts/native_shadow_boot_kernel_extract_arm64_v1.py:116-144 | in a laid-out archive the single-member reader finds the first member of each name, whole |
| `ArLaws.ThreeReadersAgree` | scripts/native_shadow_boot_kernel_extract_arm64_v1.py:116-144 | on every archive laid out from distinct names the three readers return the same bytes for every member, its own |
| `ArLaws.RepeatedNameDisagrees` | scripts/native_shadow_boot_kernel_extract_arm64_v1.py:116-144 | with a repeated name the single-member reader returns the first and the dictionaries the last |

## Left out

- Initrd.ParseNewc: header fields are exactly eight hexadecimal digits; Python's `int(text, 16)` also accepts signs, underscores and blanks in that field, which the writer never produces.
- Ar.ArMember: a size field is decimal digits between blanks; Python's `int` also accepts a sign and underscores, and a negative size would move the reader backwards.
- Ar.ArMembers: the same restriction on size fields.
- Ar.DebMembers: the same restriction on size fields.
- RecordAccounting.Account: the report's message texts, their order and the cut-off of long lists are not modelled, only which objections exist.
- TreeDiff.Verdict: objections are listed in no particular order and without the cut-off of long lists.
- ResolverRun.ResolveClosure: text of the index and of dependency fields is taken as already parsed, with a refused syntax as a failed field; the rendered result document is not modelled.
- CasStore.Store.StoreStream: files, links, `fsync` and rivals are modelled by their effect on directory entries and file contents; a crash between calls and the lock directory that serializes acquirers are not.
- AcquireRuns.AcquireAfterReplay: the lock is a flag that says whether it could be taken, and the signed replay is an arbitrary predicate of the store.
- CiAcquire.DerivePlan: reading and pinning the sealed documents, the URL policy of their rows and the plan's constant fields are not modelled; the rows the documents name are inputs.
- CiAcquire.LoadPlan: the committed plan is compared as a value, not as canonical JSON text.
- CiAcquire.AcquireClosure: opening the keyring out of its package is an arbitrary partial function of the package's bytes.
- StagingWalk.Traverse: the tree does not change while it is walked, and names are byte strings, so text decoding errors are not modelled.
- Acquire.OrderedUnique: a spec's URL policy is not modelled; it concerns where the bytes come from, and the store relies on size and digest only.
- StageTree.StageTree: permissions are the owner's and the others' bits; groups, access lists and sticky directories are not modelled; the process umask is taken to leave the build modes as written; the path of the root is given in full from `/` and has no links; what a run that fails half way leaves is described only by the invariants every state keeps.
- StageDisk.Disk.MakeAt: permissions are the owner's and the others' bits; groups, access lists and sticky directories are not modelled.
- StageDisk.Disk.Make: the same permissions.
- StageDisk.Disk.Write: the same permissions.
- StageDisk.Disk.Amend: only the owner, or root, may change a node; capabilities are not modelled.
- StagingTrees.MeasureExact: any byte but a slash may stand in a name; limits on the length of names and paths are not modelled.
- StagePlain.StageLayer: for layers with no entry below a link; the other layers are the subject of StageTree.StageTree and StageContain.InsideStageable.
- StageContain.InsideStageable: that a layer which leaves the root also writes outside it is not claimed, since that depends on what the disk outside holds; StageContain.LinkLeadsOut shows one that does.
- TimeAudit.Audit: the in-memory and the file reader are one total reader of bytes; both refuse exactly the same short reads.
- HTTPS streaming, URL policy, TLS, subprocesses, mounting, compression, tar parsing, JSON and argument handling: input and output or foreign code.
- Walking a mounted image and reading extended attributes and hard-link groups from it: trees and the answer of the grouping comparison are inputs.
- The version comparison itself, stanza parsing, and the builder, acquirer and gate modules the scripts import.
- The root disk's size and inode estimates, whose margin is floating point, and the `mke2fs` and `e2fsck` invocations.
- Validators that compare sealed documents field by field with constants: each is a list of equalities that the documents state themselves.
