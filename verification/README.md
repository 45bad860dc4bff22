# Verified models of the finance operations repository

This directory holds Dafny models of the repository's parts whose correctness does not show in any single
function: the frontend asset publisher, the release fingerprint, the XLSX fixtures, and a few smaller protocols and
arithmetic cores. `dafny verify dfyconfig.toml` checks all of it.

## The parts

**Asset publisher** (`scripts/frontend_assets.py`; modules `Frontend*`). The live directory is an inventory, a
published HTML text and a map of assets. Each save, asset write, unlink and HTML switch is one atomic step. A plan
is the list of steps an operation takes from the disk it finds; the class `FrontendAssets` takes these steps in place
and dies after as many as its `fuse` allows, and each of its methods is proved to run its plan, cut there. Safety is an
invariant that every single step keeps, so it holds at every crash point of every operation, and the main results are
about every state that a run of publishes, bootstraps, cleanups and waits can reach. `FrontendVerification`,
`FrontendRecovery`, `FrontendRegistration`, `FrontendExpiry` and `FrontendRefusals` say of `verify`, bootstrap, publish and
cleanup when each succeeds on any disk, what it then leaves, version by version and file by file, and which error it gives
otherwise.

**Release fingerprint** (`scripts/deploy_oa.py`; modules `Release*`). Directory trees, the listing with its
exclusions, the archive with its filter, unpacking, and the byte stream that is hashed. The hash itself stays out:
what is compared is its input. `ReleaseContents` reads it back: two streams are equal if and only if the released files,
links and directories are.

**XLSX fixtures** (`web/e2e/fixtures/xlsx.ts`; modules `Crc32`, `Zip`, `ZipRoundTrip`, `XmlText`, `Scanning`,
`FirstUse`, `SharedStrings`, `Sheet`, `SheetGrid`, `Workbook`, with `Utf8` and `Numerals`; `Crc32Check` and `ZipSample` hold
published and literal values). A 32-bit word is its bits, lowest first; the table-driven check value refines bit-by-bit
division. Writer and reader of the archive, the sequential replacements and the searches are modelled as they are, up to
the theorem that a workbook made from any rows reads back as its cells. A second reader, which is not the program's, goes
by the cells' references and finds each cell in its row and column. `ZipForeign` and `SheetForeign` say what the program's
reader makes of archives and sheets that other programs wrote.

**Batch page** (`web/src/pages/BankFlowRuleBatchPage.tsx`; `BatchReads`, `BatchGuarantees`, `BatchOutcomes`, `BatchPage`).
The page is a state machine over reads, answers, aborts, filter changes and clicks; the class changes its fields in place
and is proved to take the machine's steps. `BatchOutcomes` says what a read asks for after each answer and what picking,
dropping, succeeding and failing leave.

**Smaller cores.** `Money` and `MoneyText` (exact decimal rounding, and which text is an amount), `PaneWidths`, `PaneRuns`
and `PaneOutcomes` (widths with a rounding bound, runs of toggles and drags, and what one of either does), the modules
`Session*` (the per-user session cache: keys, stores, how long a value lasts, and hooks whose setters, timers and effects
may come at any moment of a change of user), and `Grouping` with `GroupingPlaces` (two-level grouping of choices).

## What the proofs brought to light

For each of these there is a lemma with a concrete input, and beside it the exact condition under which the promise
holds.

- Retirement is stamped with the clock value read when a publish starts, but the old HTML is served until the publish
  ends, so a version that is neither `previous` nor live expires seven days after it was last served less what the
  publish took (`ReplacedVersionExpiresExactly`). Over a run, a replaced build stays whole if and only if no cleanup
  after that time finds all versions that list one of its files displaced and old (`WindowIsHonouredExactly`);
  `RetentionCanFallShort` is a run from a first bootstrap that ends with the file gone five seconds early.
- A publish of another build that is cut or refused after it has registered makes the live version its own
  `previous`. The next cleanup may then drop the build served before, although `docs/operations.md:266` promises that
  the previous version is kept (`PreviousIsPriorUnlessDisplaced`; `RollbackTargetCanBeDropped` is a run).
- A registered version inside its window whose file is missing and whose release has been pruned blocks every publish
  until the window ends (`PublishCompletesExactly`, `PrunedVersionBlocksPublishing`; `PrunedVersionBlocksC` is a run).
- An optional source that is a dangling link is fingerprinted but not archived (`exists` against `is_symlink`), so
  fingerprint and release differ exactly then (`HashedIsShippedExactly`; `DanglingScriptsDiffer` is a repository).
- A handler of the batch page that awaits a write keeps the filters of the moment it was called. If an open read
  corrects the filters meanwhile, the reading after the write can show one page under another page's number
  (`FiltersAgreeOverRuns`; `StaleHandlerShowsAnotherPage` is a run from the page's first state).
- A drag that began on a shut pair and goes on after toggles can leave no visible pane. Over every run, a pane stays
  visible if and only if each move is of a pair that was not shut when its drag began, or finds another pane visible
  (`RunsStaySaneExactly`; `StaleDragShutsAll` is a run).
- A colon in a user's name lets clearing one user take another's entries (`ClashesExactly`; `ColonClashes`).
- Setters of the session cache are bound to the key of the render that made them and do not look at mounting. So a
  setter that was kept writes under the former user's key and shows its value to the present one
  (`KeptSetterWrites`, `KeptUpdaterMixes`); a debounced one that is called after unmounting sets a timer that nobody
  cancels (`UnmountedTimerFires`); and an updater that an effect runs in the commit of a change starts from the former
  user's value (`UpdaterMixes`). All come about for users "a" and "b" (`OrdinaryUsers`). Over every run without a
  reload, entries and pending writes stay the present user's if and only if each setter and each timer is the present
  user's and passes on nothing of another's, or is about to be undone, and no change of user finds a timer running in
  a state that is not mounted or keeps its key (`NoOtherUsersEntries`).
- Users whose names normalise alike, such as "a b" and "a_b" (`SpaceAndUnderscoreShare`), have the same keys. A change
  between them makes no state read again, so a debounced write that is pending outlives it and is found by the second
  (`LateWriteIsFound`), and after a reload they share their entries (`ReloadSharesEntries`).
- Where pages call only setters of the present render, in mounted states whose effects have run, and updaters only once
  what was read is rendered, one user can be shown what another wrote if and only if their keys can clash
  (`NobodySeesAnothers`, `HandingOverExactly`). Until a state has read again and rendered, it shows what it showed to the
  user before (`FormerIsStillShown`).

## Assumptions

- Publisher: a release name always means the same build, and equal HTML means equal files; the source given is the
  release's own `src/web/dist`; one process at a time holds the lock; the clock does not go back; a bootstrap happens only when there is
  no inventory, as line 105 has it; `atomic_write` is one step. Times are real numbers.
- Fingerprint: the tar format keeps content and permission bits; names are text; the backend and the frontend are
  directories, as the release requires them to be.
- XLSX: text is a sequence of Unicode scalar values, so unpaired surrogates do not occur.
- Batch page: what `buildCategoryGroups` makes of an answer's summary comes with the answer, or its failure does;
  `JSON.stringify` tells filters apart; a handler runs without
  interruption; the page is active.
- Panes: the initial widths lie on the grid of four decimals; widths are counted in steps of 0.0001 and what is not yet
  rounded is real.
- Session cache: values survive `JSON.stringify` and `JSON.parse`; a hook's page, name and options stay the same while it
  is mounted. React flushes queued values when it renders, runs all effects of a commit before it renders again, all
  clean-ups before the effects, a component's effects in order, and a child's before its parent's. A value is put down
  to the user whose setter made it and, for an updater, also to those of the value it starts from.

## Model

| member | source | states |
|---|---|---|
| FrontendRuns.LivePageIsWhole | scripts/frontend_assets.py:69-160 | in every state of every run of publishes, bootstraps, cleanups and waits, each cut after any number of steps, a registered version has the published HTML and all of its files are served with its bytes |
| FrontendRuns.ServedBuildsAreRetained | scripts/frontend_assets.py:110-128 | a build that was being served at some moment stays served, file by file and byte by byte, until RETENTION_SECONDS later less the longest time a publish takes, whatever completes, is cut or is refused in between |
| FrontendRuns.EveryAssetIsManaged | scripts/frontend_assets.py:95-99 | write-ahead inventory: at every crash point every served asset is listed by a version of the inventory or was there unregistered from the start |
| FrontendRuns.PreviousIsAlwaysWhole | scripts/frontend_assets.py:114-118 | in every reachable state `previous` names a registered version whose files are all served with its bytes |
| FrontendRuns.StepKeepsGood | scripts/frontend_assets.py:102-160 | one operation, cut anywhere, keeps the invariant behind all of these, and no HTML's last live time goes back |
| FrontendRuns.RunKeepsGood | scripts/frontend_assets.py:102-160 | so does every run |
| FrontendRollback.PreviousIsPriorUnlessDisplaced | scripts/frontend_assets.py:114-118 | over every run, `previous` serves the HTML that was live before the current one if and only if no publish of another build was cut or refused after registering since; otherwise it serves the current HTML |
| FrontendRollback.PublishConverges | scripts/frontend_assets.py:102-143 | after any run that started without unregistered files, a publish that returns leaves a directory in which `verify` of that release succeeds |
| FrontendRollback.VerifyFindsNothingUnmanaged | scripts/frontend_assets.py:137-143 | in such a run the unmanaged-asset check never fires |
| FrontendRollback.UnregisteredFilesAreUntouched | scripts/frontend_assets.py:145-160 | a file that no build lists is neither deleted nor changed by any run |
| FrontendResumption.RetriedPublishMatchesUncut | scripts/frontend_assets.py:102-128 | a publish that would complete, cut after any number of steps and tried again with the same releases at the same clock value, ends with exactly the disk of the uncut publish, the bootstrapping first publish included |
| FrontendResumption.PromoteResumes | scripts/frontend_assets.py:105-128 | the same for the part of a publish that follows an existing inventory |
| FrontendResumption.BootstrapResumes | scripts/frontend_assets.py:79-100 | a bootstrap cut while copying is completed by the publish that follows, with the same disk as if it had not been cut |
| FrontendLaterRetry.RetriedLaterMatchesUncut | scripts/frontend_assets.py:102-128 | retried at any later clock value, a publish cut after registering completes if and only if what supported versions still lack is available and does not conflict with the candidate; it leaves the uncut publish's HTML, its inventory apart from the replaced versions' stamps, every file of the supported versions, and the candidate's and the earlier ones with the same bytes; where releases agree on shared files nothing conflicts and all bytes are the same |
| FrontendLaterRetry.OwnReleasesSuffice | scripts/frontend_assets.py:119-126 | for that it is enough that each version still supported finds what it lacks in its own release |
| FrontendOutcomes.PublishIsAllOrNothing | scripts/frontend_assets.py:102-128 | on every disk and at every crash point a publish deletes and overwrites nothing; unless it completes the HTML is unchanged, and if it does the candidate is live and whole |
| FrontendOutcomes.PublishedReleaseVerifies | scripts/frontend_assets.py:130-143 | after a publish that returns, `verify` succeeds if and only if every served file is registered and lies below `assets/` |
| FrontendCleanup.CleanupResumes | scripts/frontend_assets.py:145-160 | a cleanup cut after any step and run again, then or later, ends with the disk of a single uncut cleanup; running it twice is running it once |
| FrontendCleanup.CutCleanup | scripts/frontend_assets.py:150-160 | what a cut cleanup leaves: some of the files to remove are gone, and nothing is forgotten before all of them are |
| FrontendCleanup.CleanupFinishes | scripts/frontend_assets.py:145-160 | the disk a complete cleanup leaves: expired versions forgotten, their files gone unless a kept version lists them |
| FrontendLimits.PublishCompletesExactly | scripts/frontend_assets.py:102-128 | over an inventory a publish completes if and only if the candidate is a proper build, the live HTML is registered, every missing file of a supported version can be had and no content conflicts |
| FrontendLimits.PrunedVersionBlocksPublishing | scripts/frontend_assets.py:119-126 | a version inside its window with a missing file that no release on hand has blocks every publish |
| FrontendRetention.WindowIsHonouredExactly | scripts/frontend_assets.py:110-113 | over every run that follows a publish, the build it replaced stays whole if and only if no cleanup that reads the clock later than RETENTION_SECONDS after it was last served, less what the publish took, finds all versions that list one of its files displaced from `previous` and live with old stamps, and gets to that file |
| FrontendRetention.ReplacedVersionExpiresExactly | scripts/frontend_assets.py:150-153 | on any later disk with that entry, a cleanup expires it if and only if it is neither `previous` nor live and the clock has passed RETENTION_SECONDS after it was last served, less what the publish took |
| FrontendRetention.ReplacedBuildIsRetained | scripts/frontend_assets.py:110-128 | until then the build is whole in every state of every run |
| FrontendRetention.StepIsExact | scripts/frontend_assets.py:145-160 | an event cut anywhere leaves a whole build whole if and only if it is not a cleanup that takes one of its files |
| FrontendRetention.RemovedExactly | scripts/frontend_assets.py:151-156 | a cleanup is to remove a file if and only if some version lists it and all that do are displaced with old stamps |
| FrontendRetention.CutCleanupExactly | scripts/frontend_assets.py:156-159 | a cut cleanup has removed the first files in name order, as many as it had steps for |
| FrontendExamples.RetentionCanFallShort | scripts/frontend_assets.py:110-113 | a concrete run, from a first bootstrap, after which a file of a build is gone five seconds before its window ends |
| FrontendExamples.RollbackTargetCanBeDropped | scripts/frontend_assets.py:114-118 | two concrete runs that differ in one publish, cut after it has registered: with it the next cleanup drops the build served before the live one, without it that build stays registered and whole |
| FrontendExamples.PrunedVersionBlocksC | scripts/frontend_assets.py:119-126 | a concrete run after which no publish of an intact release completes |
| FrontendRetry.CopyExactly | scripts/frontend_assets.py:69-77 | `copy_assets` returns if and only if every listed file exists and none conflicts, and then exactly the listed files are as in the source |
| FrontendRetry.ResumeExactly | scripts/frontend_assets.py:119-126 | when the resume loop completes, and what it leaves, file by file |
| FrontendRetry.RollOutExactly | scripts/frontend_assets.py:119-128 | the same for resuming, copying the candidate and switching the HTML |
| FrontendPublishing.PublishSafe | scripts/frontend_assets.py:102-128 | every step of a publish, refused or not, is one that keeps the invariant on the disk it is taken from |
| FrontendPublishing.BootstrapSafe | scripts/frontend_assets.py:79-100 | likewise every step of a bootstrap: registered before copied |
| FrontendPublishing.CleanupSafe | scripts/frontend_assets.py:145-160 | likewise every step of a cleanup: unlinked before forgotten |
| FrontendSafety.EveryCutIsGood | scripts/frontend_assets.py:66-67 | a sequence of safe steps can be cut anywhere |
| FrontendSafety.SwitchKeepsGood | scripts/frontend_assets.py:127-128 | switching the HTML last keeps the invariant, given that the candidate is whole |
| FrontendSafety.UnlinkKeepsGood | scripts/frontend_assets.py:154-157 | removing a file that only expired versions list keeps it |
| FrontendSafety.WriteKeepsGood | scripts/frontend_assets.py:76-77 | adding a registered file that was absent keeps it |
| FrontendCopies.CopyFacts | scripts/frontend_assets.py:69-77 | copying adds only listed files, overwrites none, and when it returns all are in place |
| FrontendCopies.ResumeFacts | scripts/frontend_assets.py:119-126 | when the resume loop returns every supported version has all of its files |
| FrontendDisk.ThenExecutes | scripts/frontend_assets.py:102-128 | cutting two operations in sequence cuts the first, or completes it and cuts the second |
| FrontendVerification.VerifySucceedsExactly | scripts/frontend_assets.py:130-143 | on any disk and for any build `verify` succeeds if and only if the build has HTML and some files, all below `assets/`, its HTML is published, each of its files is there and served with the same bytes, and every served file lies below `assets/` and is the build's or some version's |
| FrontendVerification.VerifyFailsExactly | scripts/frontend_assets.py:130-143 | otherwise which error comes: the build's own defect, the HTML, the first file that is absent or differs, a served name outside `assets/`, or an unmanaged file |
| FrontendRecovery.RecoveredExactly | scripts/frontend_assets.py:83-91 | the scan takes a release if and only if its HTML is live or was written within seven days, stamps it with now, and stops if and only if one of these is broken |
| FrontendRecovery.CopyVersionsExactly | scripts/frontend_assets.py:98-99 | the copying of all recovered versions completes if and only if every listed file is in its release and no content conflicts, and then serves each with that release's bytes and changes no other file |
| FrontendRecovery.BootstrapExactly | scripts/frontend_assets.py:79-100 | on any disk a bootstrap completes if and only if HTML is published, every release that is live or recent is a proper build, one is live, and their files are there and agree; then the inventory holds exactly these releases, each retired now, `previous` is the last by name of the live ones, and exactly their files have been added |
| FrontendRegistration.RegisteredExactly | scripts/frontend_assets.py:110-117 | the inventory a publish saves: the candidate unretired, every other version with its HTML and files, stamped now if it was live or unstamped and else as it was, and `previous` the last by name of the live ones if the HTML changes |
| FrontendRegistration.PublishRegisters | scripts/frontend_assets.py:102-118 | every publish, cut anywhere after its registration, leaves such an inventory |
| FrontendRegistration.RefusedExactly | scripts/frontend_assets.py:102-109 | a publish over an inventory whose candidate is broken, or whose published HTML is missing or in no version, changes nothing, and which error comes |
| FrontendRegistration.PublishExactly | scripts/frontend_assets.py:102-128 | when a publish over an inventory completes, in terms of versions, releases and files alone, and then which file is served with which release's bytes |
| FrontendExpiry.CleanupExactly | scripts/frontend_assets.py:145-160 | a cleanup completes if and only if the live HTML is registered; it keeps exactly the versions that are `previous`, live, unstamped or stamped within seven days, unchanged, and removes exactly the files that a dropped version lists and no kept one |
| FrontendExpiry.AbandonedIsForgotten | scripts/frontend_assets.py:110-112 | over every run: a candidate that was registered and never went live is stamped by the next registration of another release, and a complete cleanup more than seven days later leaves neither it nor the files only it lists, if its HTML was not served and its release not published in between and it is not `previous` |
| FrontendRefusals.CopyFailsExactly | scripts/frontend_assets.py:69-77 | a copy stops at the first file that its source lacks or that is served with other content, with the error that says which |
| FrontendRefusals.BootstrapFailsExactly | scripts/frontend_assets.py:79-94 | a bootstrap that cannot register changes nothing, and gives the error for missing HTML, for the first broken recent release by name, or for no live release |
| FrontendRefusals.CleanupFailsExactly | scripts/frontend_assets.py:145-149 | likewise for a cleanup without an inventory, without HTML, or with HTML that no version has |
| FrontendAssets.FrontendAssets.CopyAssets | scripts/frontend_assets.py:69-77 | the method takes exactly the steps of its specification and stops where the process dies |
| FrontendAssets.FrontendAssets.RecoverVersions | scripts/frontend_assets.py:80-91 | the scan of the releases returns what its specification says |
| FrontendAssets.FrontendAssets.Bootstrap | scripts/frontend_assets.py:79-100 | as for copying |
| FrontendAssets.FrontendAssets.Resume | scripts/frontend_assets.py:119-126 | as for copying |
| FrontendAssets.FrontendAssets.Promote | scripts/frontend_assets.py:106-128 | as for copying |
| FrontendAssets.FrontendAssets.Publish | scripts/frontend_assets.py:102-128 | as for copying |
| FrontendAssets.FrontendAssets.Verify | scripts/frontend_assets.py:130-143 | returns what its specification says, error by error |
| FrontendAssets.FrontendAssets.Cleanup | scripts/frontend_assets.py:145-160 | as for copying |
| ReleaseAgreement.HashedIsShippedExactly | scripts/deploy_oa.py:535-551 | the bytes fed to the digest on the repository and on the unpacked release are equal if and only if no optional source is a dangling link |
| ReleaseAgreement.DanglingScriptsDiffer | scripts/deploy_oa.py:535-551 | a concrete repository whose `scripts` is a dangling link: it can be released and fingerprinted, and the two streams differ |
| ReleaseFingerprint.UnpackSources | scripts/deploy_oa.py:535-546 | unpacking the archived sources lists exactly what the repository lists for them, structural directories cancelling out |
| ReleaseFingerprint.KeptEntries | scripts/deploy_oa.py:721-728 | what the archive's filter keeps of a directory is listed as the directory itself is |
| ReleaseArchive.UnpackDirectory | scripts/deploy_oa.py:535-541 | unpacking what was archived of a directory rebuilds what the filter kept of it, at any depth |
| ReleaseTree.ExclusionsAgree | scripts/deploy_oa.py:637-642 | the listing's rule on paths and the archive's rule on member names exclude the same paths but for RELEASE.json |
| ReleaseTree.TreeVisitor.Visit | scripts/deploy_oa.py:645-659 | the appending visitor produces the recursive listing |
| ReleaseFraming.StreamIsInjective | scripts/deploy_oa.py:662-686 | different entry lists never give the same byte stream, whatever the payloads hold |
| ReleaseFraming.FrameIsPrefixFree | scripts/deploy_oa.py:680-685 | one framed record can be told from what follows it |
| ReleaseFraming.FeedDigest | scripts/deploy_oa.py:662-686 | the loop feeds the sorted records' frames in order, or refuses a special file |
| ReleaseAgreement.DigestIgnoresOrder | scripts/deploy_oa.py:664 | the stream does not depend on the order in which entries with distinct paths were listed |
| ReleaseAgreement.EqualInputsEqualRecords | scripts/deploy_oa.py:662-686 | equal streams come from equal records and equally many entries |
| ReleaseAgreement.DirectoryBitsDoNotMatter | scripts/deploy_oa.py:677-679 | bits of a directory's mode above the permissions do not reach the digest |
| ReleaseAgreement.PosixIsInjective | scripts/deploy_oa.py:681 | a path can be told from its text |
| ReleaseContents.InputsAgreeExactly | scripts/deploy_oa.py:662-686 | two listings of distinct paths have the same digest input if and only if they list the same paths with the same kind of entry under each: a file with the same mode and content, a link with the same mode and target, a directory with the same permissions |
| ReleaseContents.InputExistsExactly | scripts/deploy_oa.py:674-675 | there is an input if and only if no entry is a special file |
| ReleaseContents.ReleasedExactly | scripts/deploy_oa.py:645-659 | the listing holds exactly what lies below the seven sources on paths that no excluded name is on, without the directories `deploy` and `web` that are only on the way |
| ReleaseContents.FingerprintsAgreeExactly | scripts/deploy_oa.py:693-712 | two repositories have the same digest input if and only if under every path both release the same file, link or directory, or nothing |
| ReleaseContents.SampleStream | scripts/deploy_oa.py:680-685 | the literal stream of a directory, a file and a link |
| Crc32.Compute | web/e2e/fixtures/xlsx.ts:17-23 | the table loop computes the check value of bit-by-bit reflected division (section 8 of RFC 1952) for messages of any length |
| Crc32.BuildTable | web/e2e/fixtures/xlsx.ts:9-15 | each of the 256 entries is eight division steps of its index |
| Crc32.TableStep | web/e2e/fixtures/xlsx.ts:20 | one look-up divides eight message bits |
| Crc32.DivideIsSteps | web/e2e/fixtures/xlsx.ts:12 | feeding bits one at a time is stepping the register they were added to |
| Crc32.StepsAreLinear | web/e2e/fixtures/xlsx.ts:20 | eight steps of a sum of two parts split into eight steps of one and a shift of the other |
| Crc32Check.CheckOfDigits | web/e2e/fixtures/xlsx.ts:9-23 | the check value of the text 123456789 is CBF43926, as published for this polynomial |
| ZipRoundTrip.RoundTrip | web/e2e/fixtures/xlsx.ts:197-221 | for entries with distinct names that fit their fields, reading the written archive gives exactly those names and octets |
| ZipRoundTrip.ReadAfterWrite | web/e2e/fixtures/xlsx.ts:197-221 | for any names, the later of two entries with one name wins and the reader stops after the last entry |
| ZipRoundTrip.DirectoryIsExact | web/e2e/fixtures/xlsx.ts:90-127 | end record and central directory are exact: a strict reader, which relies on every count, size, offset and check value and demands that each central record repeats the local header it points at, lists every entry (sections 4.3.7, 4.3.12 and 4.3.16 of APPNOTE.TXT) |
| ZipSample.SampleArchive | web/e2e/fixtures/xlsx.ts:68-128 | the literal octets of an archive of one empty file |
| ZipForeign.ForeignIsRead | web/e2e/fixtures/xlsx.ts:197-221 | from any archive whose files are stored or deflated the reader takes exactly their names and octets, the last of those with one name, whatever versions, flags, times, check values, sizes and extra fields the headers have |
| ZipForeign.BadMethodStops | web/e2e/fixtures/xlsx.ts:213-218 | the first file with another method stops the reader with that method |
| Zip.Write | web/e2e/fixtures/xlsx.ts:68-128 | the writing loop gives the specified archive, or a range error exactly when a value does not fit its field |
| Zip.Read | web/e2e/fixtures/xlsx.ts:197-221 | the reading loop terminates on every buffer with the specified result, an unknown method included |
| XmlText.RoundTrip | web/e2e/fixtures/xlsx.ts:25-39 | every text survives escaping and unescaping |
| XmlText.EscapeIsSimultaneous | web/e2e/fixtures/xlsx.ts:25-31 | four successive replacements escape each character exactly once |
| XmlText.UnescapeIsOnePass | web/e2e/fixtures/xlsx.ts:33-39 | on any text at all, four successive replacements equal one left-to-right pass that takes each entity back once |
| XmlText.EscapedIsText | web/e2e/fixtures/xlsx.ts:25-31 | escaped text holds no angle bracket and no quote |
| SharedStrings.Build | web/e2e/fixtures/xlsx.ts:52-66 | the table is the different cells in first-use order, and looking up every number restores the rows |
| FirstUse.InFirstUseOrder | web/e2e/fixtures/xlsx.ts:60-62 | of two values in the table the one used first stands first |
| FirstUse.FirstUsesOnce | web/e2e/fixtures/xlsx.ts:55-62 | the table has no duplicates |
| SharedStrings.TableRoundTrip | web/e2e/fixtures/xlsx.ts:223-228 | extracting from the rendered part gives the table back, whatever characters its values hold |
| Scanning.IndexIsFirst | web/e2e/fixtures/xlsx.ts:224 | the search finds the first occurrence, and none when there is none |
| Scanning.TrimTakesSpaceOnly | web/src/features/money.ts:5 | trimming takes white space off both ends and nothing else |
| Workbook.Create | web/e2e/fixtures/xlsx.ts:130-195 | a workbook made from any rows reads back as all of its cells in row order, one to a line, and, by their references, as exactly the given rows and columns, unless the archive does not fit its fields |
| Workbook.WorkbookRoundTrip | web/e2e/fixtures/xlsx.ts:230-249 | the same through UTF-8, the archive, the shared strings and the sheet |
| Sheet.SheetRoundTrip | web/e2e/fixtures/xlsx.ts:239-248 | every cell of the rendered sheet is read, in row and column order, as the value its number stands for |
| SheetGrid.GridRoundTrip | web/e2e/fixtures/xlsx.ts:133-140 | a strict reader that takes each cell's column from its letters and its row from its digits, and demands that the row is the one it stands in, finds at every row and column the given cell and no cell elsewhere; the table's counts are right |
| SheetForeign.RunsAreJoined | web/e2e/fixtures/xlsx.ts:223-228 | an item in several runs, with attributes or without, is the runs' texts one after another |
| SheetForeign.InlineTextIsRead | web/e2e/fixtures/xlsx.ts:245-247 | a cell that is not of the shared type and has a text of its own reads as that text |
| SheetForeign.OwnValueIsRead | web/e2e/fixtures/xlsx.ts:241-247 | one with a plain value reads as that value |
| SheetForeign.NumberBeyondTable | web/e2e/fixtures/xlsx.ts:242-244 | a shared cell whose number the table does not have reads as nothing |
| Workbook.PartsAreFound | web/e2e/fixtures/xlsx.ts:142-193 | each of the seven parts is read back under its own name |
| Workbook.SampleTable | web/e2e/fixtures/xlsx.ts:132 | the rendered table of three cells that share one value, count before unique count |
| Sheet.ColumnName | web/e2e/fixtures/xlsx.ts:41-50 | the loop writes a column's number in letters |
| Sheet.ColumnRoundTrip | web/e2e/fixtures/xlsx.ts:41-50 | a column's number can be read back from its name, so columns have different names |
| Utf8.RoundTrip | web/e2e/fixtures/xlsx.ts:73 | decoding encoded text gives it back (section 3 of RFC 3629) |
| Utf8.PublishedExamples | web/e2e/fixtures/xlsx.ts:73 | the octets of the examples in section 7 of RFC 3629 |
| BatchGuarantees.OnlyTheNewestIsShown | web/src/pages/BankFlowRuleBatchPage.tsx:243-245 | a step puts something on the page only if it answers the newest read, which was neither aborted nor ended; it then clears the selection |
| BatchGuarantees.RetiredNeverShows | web/src/pages/BankFlowRuleBatchPage.tsx:230-281 | a read that was overtaken or aborted never reaches the page again, in any continuation |
| BatchGuarantees.ShownAgreesWithItsSummary | web/src/pages/BankFlowRuleBatchPage.tsx:238-272 | in every run, what is shown has the codes its own summary gives, and a page in range unless the list shrank again under its third request |
| BatchGuarantees.IdlePageShowsWhatIsAsked | web/src/pages/BankFlowRuleBatchPage.tsx:298-334 | in every run whose handlers see the present filters, a page that is not loading shows the answer to exactly its filters, or an error, or lost its read to an abort-like failure |
| BatchGuarantees.FiltersAgreeExactly | web/src/pages/BankFlowRuleBatchPage.tsx:273-280 | after an answer is applied the page's filters are those it answers if and only if the read began with its month and bucket and either corrected the filters or began with all of them |
| BatchGuarantees.FiltersAgreeOverRuns | web/src/pages/BankFlowRuleBatchPage.tsx:223-281 | over every run, stale handlers included: whenever an answer is put on the page the page's filters are those it answers, if and only if each read that shows its answer began with the month and bucket the page then has and either corrected the filters or began with all of them |
| BatchGuarantees.StaleHandlerShowsAnotherPage | web/src/pages/BankFlowRuleBatchPage.tsx:284-296 | a concrete run in which a handler that kept earlier filters shows one page under another page's number, without an error |
| BatchGuarantees.SelectionHasOneScope | web/src/pages/BankFlowRuleBatchPage.tsx:353-378 | in every run ids are selected exactly while a scope is set, and every one was picked from that account and month |
| BatchGuarantees.AsksGoForward | web/src/pages/BankFlowRuleBatchPage.tsx:244-268 | a read makes at most three requests |
| BatchReads.RunKeeps | web/src/pages/BankFlowRuleBatchPage.tsx:215-312 | every interleaving of reads, answers, aborts and clicks keeps the page's invariant, the loading flag's meaning included |
| BatchOutcomes.FirstRequest | web/src/pages/BankFlowRuleBatchPage.tsx:229-244 | a read takes the next number and asks for what it began with; a plain load clears the error, a reload keeps it |
| BatchOutcomes.CodesExactly | web/src/pages/BankFlowRuleBatchPage.tsx:246-252 | the codes of a category are those of the first group of its name, or of that group's first child of its key; a category that is not there has none |
| BatchOutcomes.AfterFirstAnswer | web/src/pages/BankFlowRuleBatchPage.tsx:244-265 | a first answer whose groups give other codes than were asked for makes the read ask for these codes and the first page, dropping a category that is gone; else it is shown, or the read asks for the last page if its own lies past it |
| BatchOutcomes.AfterLaterAnswer | web/src/pages/BankFlowRuleBatchPage.tsx:254-269 | a later answer has to give the codes that were asked for, or the read fails; the second may still turn back to the last page |
| BatchOutcomes.AnswerWithoutGroups | web/src/pages/BankFlowRuleBatchPage.tsx:246 | an answer whose summary lacks the counts of a group fails the read |
| BatchOutcomes.SuccessIsShownExactly | web/src/pages/BankFlowRuleBatchPage.tsx:273-281 | a read that succeeds shows its answer, clears error and selection, and hands over what it has corrected if and only if it has corrected something |
| BatchOutcomes.FailureIsShownExactly | web/src/pages/BankFlowRuleBatchPage.tsx:298-312 | a current read that fails leaves what is shown, stops the loading flag, and shows an error unless it was a plain load that looks like an abort |
| BatchOutcomes.EffectExactly | web/src/pages/BankFlowRuleBatchPage.tsx:323-334 | the effect skips the filters that a read has just set, once, and else reads what the page asks for |
| BatchOutcomes.NothingStaysSelected | web/src/pages/BankFlowRuleBatchPage.tsx:215-218 | other filters, or a clear, leave nothing selected |
| BatchOutcomes.ToggleExactly | web/src/pages/BankFlowRuleBatchPage.tsx:353-367 | a permitted pick adds exactly its id under the batch's account and month, a refused one changes nothing, and dropping removes exactly it |
| BatchOutcomes.RegionExactly | web/src/pages/BankFlowRuleBatchPage.tsx:369-378 | the same for a region, which is refused as a whole |
| BatchOutcomes.PickThenDrop | web/src/pages/BankFlowRuleBatchPage.tsx:369-378 | picking a region and dropping it again leaves the selection as it was, if none of it had been picked |
| BatchPage.BatchPage.Resume | web/src/pages/BankFlowRuleBatchPage.tsx:244-281 | an answer changes the page as the protocol's step does, at each of the three awaits |
| BatchPage.BatchPage.BeginRead | web/src/pages/BankFlowRuleBatchPage.tsx:229-230 | a read takes the next number |
| BatchPage.BatchPage.RunEffect | web/src/pages/BankFlowRuleBatchPage.tsx:323-334 | the effect skips exactly the filters a read has just corrected |
| BatchPage.BatchPage.AbortRead | web/src/pages/BankFlowRuleBatchPage.tsx:327-333 | the clean-up marks a read that still waits and leaves an ended one alone |
| BatchPage.BatchPage.ToggleTransaction | web/src/pages/BankFlowRuleBatchPage.tsx:353-367 | one transaction is picked or dropped as the protocol's step says |
| BatchPage.BatchPage.SetRegionSelection | web/src/pages/BankFlowRuleBatchPage.tsx:369-378 | so are all transactions of a region |
| Money.RoundsExactly | web/src/features/money.ts:15-19 | for digits of any length the cents are the magnitude rounded to the nearest, halves away from nought |
| Money.RoundingIsMonotone | web/src/features/money.ts:15-19 | a greater magnitude is never shown as fewer cents |
| Money.FormattingIsIdempotent | web/src/features/money.ts:1-21 | formatting again changes nothing, if and only if there was a text or the empty value formats to itself |
| Money.ParseRendered | web/src/features/money.ts:20 | what is shown reads as an amount of the same sign with the cents as its fraction |
| Money.SearchAgreesWithDisplay | web/src/features/money.ts:23-28 | a normalised search text shows the same amount as the text itself |
| MoneyText.FormatsExactly | web/src/features/money.ts:1-21 | text that is a sign, digits and a fraction once white space around it and commas in it are gone is shown as its cents, rounded to the nearest, and a minus exactly if that is its sign |
| MoneyText.OtherTextIsKept | web/src/features/money.ts:5-12 | an empty text is shown as its stand-in, and any other as it is but for white space around it |
| MoneyText.NormalizesExactly | web/src/features/money.ts:23-28 | a search loses its commas if and only if it is an amount whose commas part groups of three digits |
| PaneRuns.RunsStaySaneExactly | web/src/hooks/useResizablePanes.ts:90-158 | over every run of toggles, drags of any pair, moves and releases, a pane stays visible throughout if and only if each move is of a pair that was not shut when its drag began, or finds another pane visible |
| PaneRuns.RunsStayGood | web/src/hooks/useResizablePanes.ts:90-158 | in every such run, toggles in mid-drag included, no width is negative |
| PaneRuns.MoveKeepsSaneExactly | web/src/hooks/useResizablePanes.ts:90-117 | the same condition for one move |
| PaneWidths.ToggleKeepsSane | web/src/hooks/useResizablePanes.ts:132-144 | a toggle keeps widths that are not negative and a visible pane |
| PaneWidths.CollapseKeepsTotal | web/src/hooks/useResizablePanes.ts:19-40 | collapsing moves the total by at most 0.00005 for each pane that is left |
| PaneWidths.RestoreMakesWhole | web/src/hooks/useResizablePanes.ts:42-63 | restoring brings the total to one and the hidden widths, within 0.00005 for each other visible pane |
| PaneWidths.DragKeepsPair | web/src/hooks/useResizablePanes.ts:95-117 | a drag keeps its pair's total exactly, but for 0.0001 when the mouse falls midway between two steps |
| PaneWidths.DragLeavesOneVisible | web/src/hooks/useResizablePanes.ts:101-111 | a dragged pair that was not shut keeps a visible pane |
| PaneRuns.StaleDragShutsAll | web/src/hooks/useResizablePanes.ts:146-158 | a concrete run: a drag starts on a shut pair, two toggles follow, and the next move leaves no visible pane |
| PaneOutcomes.DragFollowsMouse | web/src/hooks/useResizablePanes.ts:95-117 | the left pane is where the mouse asks within half a step and the right one has what the pair has left, but within six hundredths of the container from an end the pane there shuts |
| PaneOutcomes.DragIsMonotone | web/src/hooks/useResizablePanes.ts:95-117 | a mouse further right never leaves the left pane narrower or the right one wider |
| PaneOutcomes.DragBackRestores | web/src/hooks/useResizablePanes.ts:95-117 | a mouse back where the drag began restores the pair, if neither pane was near its end |
| PaneOutcomes.StartMovesNothing | web/src/hooks/useResizablePanes.ts:146-158 | a drag takes hold of the widths there are: a first move that goes nowhere changes none, if neither pane of the pair is near its end |
| PaneOutcomes.ToggleExactly | web/src/hooks/useResizablePanes.ts:132-144 | an open pane shuts unless it is the last, a shut one opens at its default, the others keep their proportions; with no other open all go to their defaults |
| PaneWidths.RedistributeWidths | web/src/hooks/useResizablePanes.ts:19-40 | the other visible panes are scaled by one factor, rounded, and the hidden ones unchanged |
| PaneWidths.RestoreWidth | web/src/hooks/useResizablePanes.ts:42-63 | likewise, with the restored pane at its default |
| PaneWidths.TogglePane | web/src/hooks/useResizablePanes.ts:132-144 | which of the two happens, and when neither does |
| PaneWidths.OnPointerMove | web/src/hooks/useResizablePanes.ts:90-117 | the pair gets the clamped, snapped and rounded widths and no other pane changes; a position that is not finite moves nothing |
| SessionKeys.KeysAreInjective | web/src/contexts/pageSessionStorage.ts:18-29 | keys of triples without colons are equal if and only if the normalised triples are |
| SessionReading.NormalizedExactly | web/src/contexts/pageSessionStorage.ts:14-16 | of trimmed text in 16-bit characters, letters, digits and the marks `_.:-` are kept and every other becomes an underscore (beyond 16 bits two, `CleanedApart`); empty text becomes "default" |
| SessionReading.KeyIsWritten | web/src/contexts/pageSessionStorage.ts:18-29 | the literal form of a key and of a user's prefix |
| SessionKeys.ClashesExactly | web/src/contexts/pageSessionStorage.ts:88-105 | clearing one user can take an entry of another if and only if the normalised names are equal or one extends the other after a colon |
| SessionKeys.ColonClashes | web/src/contexts/pageSessionStorage.ts:14-16 | two different users whose entries clash |
| SessionStores.FoundPayloadIsOwn | web/src/contexts/PageSessionStateContext.tsx:71-131 | over every run, with storage failures, planted entries, late writes, kept setters and reloads, a payload that is found was planted by another script, or was written under the same key, without colons that of the same user, page and name |
| SessionPersistence.PersistedLasts | web/src/contexts/PageSessionStateContext.tsx:215-231 | over every run of events that do not get at the entry (unmounting, other states, changes of user, reloads of the browser's store): a value that a setter or a timer has persisted is what a state mounted later shows if and only if its time to live has not run out since the write, and the entry is gone if it has |
| SessionPersistence.ReadAfterWrite | web/src/contexts/PageSessionStateContext.tsx:71-131 | for any two storage failures, what a read under the same key gives after a write; no other key is touched |
| SessionPersistence.LastDebouncedIsPersisted | web/src/contexts/PageSessionStateContext.tsx:233-247 | of debounced calls only the last is written, under the key its setter was made for, and only once |
| SessionPersistence.RenderShowsWhatWasSet | web/src/contexts/PageSessionStateContext.tsx:268-292 | once it has rendered a mounted state shows what it was set or reset to |
| SessionPersistence.ResetStartsAnew | web/src/contexts/PageSessionStateContext.tsx:280-292 | after a reset no timer is left and a state mounted under the key starts from its initial value |
| SessionReading.ReadExactly | web/src/contexts/PageSessionStateContext.tsx:71-131 | a read gives back what it comes upon and changes nothing, if that is of the version, unexpired and accepted; otherwise it gives the initial value and removes exactly that entry, from memory and from a working browser's store |
| SessionReading.ReadsAgain | web/src/contexts/PageSessionStateContext.tsx:249-266 | a mounted state whose key changes with the user, or after a clear, loses its timer and is to show what is stored under the present user's key |
| SessionReading.ClearedStartsAnew | web/src/contexts/PageSessionStateContext.tsx:140-149 | after a clear every mounted state of the user is to show its initial value and has no timer left |
| SessionReading.KeepsShowing | web/src/contexts/PageSessionStateContext.tsx:249-266 | a state whose key stays the same keeps its timer and what it shows, and reads nothing |
| SessionIsolation.NoOtherUsersEntries | web/src/contexts/PageSessionStateContext.tsx:151-292 | over every run without a reload whose storage can be cleared, with kept setters, calls after unmounting and calls in the middle of a change: all entries and all writes that may still come are the present user's throughout if and only if every setter and timer is the present user's and passes on nothing of another's, or what it does is about to be cleared or cancelled, and no change of user finds a timer in a state that is not mounted or keeps its key |
| SessionIsolation.StepIsExact | web/src/contexts/PageSessionStateContext.tsx:151-292 | the same for one event |
| SessionSight.NobodySeesAnothers | web/src/contexts/PageSessionStateContext.tsx:208-278 | in every run whose pages call setters of the present render in mounted states that have run their effects, and updaters once what was read is rendered, and whose successive users' keys cannot clash: nobody finds what another wrote, and what a state shows after its effects and its render, or an updater starts from, holds nothing of another user |
| SessionHandover.HandingOverExactly | web/src/contexts/PageSessionStateContext.tsx:151-163 | under that use of setters, two users taking turns have a run that shows one what the other wrote if and only if their names normalise alike or one extends the other after a colon |
| SessionExamples.KeptSetterWrites | web/src/contexts/PageSessionStateContext.tsx:268-278 | a run in which a kept setter, called long after a change of user, stores a value under the former user's key and shows it to the present one |
| SessionExamples.KeptUpdaterMixes | web/src/contexts/PageSessionStateContext.tsx:268-278 | a run in which a kept setter with an updater stores the present user's value under the former's key |
| SessionExamples.UnmountedTimerFires | web/src/contexts/PageSessionStateContext.tsx:233-247 | a run in which a debounced setter, called after its state was unmounted, sets a timer that outlives a change between any two users |
| SessionExamples.UpdaterMixes | web/src/contexts/PageSessionStateContext.tsx:211-213 | a run in which an updater in the commit of a change stores the former user's value under the present user's key |
| SessionExamples.FormerIsStillShown | web/src/contexts/PageSessionStateContext.tsx:249-266 | after the commit of a change and before its effects a state shows the second user what the first has set |
| SessionExamples.OrdinaryUsers | web/src/contexts/pageSessionStorage.ts:14-16 | "a" and "b" are users for which these runs exist |
| SessionExamples.LateWriteIsFound | web/src/contexts/PageSessionStateContext.tsx:233-266 | a run in which a debounced write outlives a change between names that normalise alike and is found by the second user |
| SessionStores.ClearRemovesExactly | web/src/contexts/PageSessionStateContext.tsx:140-149 | a clear removes every entry of the user from both stores and leaves the entries of users that cannot clash |
| SessionExamples.ReloadSharesEntries | web/src/contexts/PageSessionStateContext.tsx:133-139 | after a reload a user finds the entries of another whose name normalises alike |
| SessionExamples.SpaceAndUnderscoreShare | web/src/contexts/pageSessionStorage.ts:14-16 | "a b" and "a_b" are such names |
| SessionCache.SessionCache.ReadStoredValue | web/src/contexts/PageSessionStateContext.tsx:71-131 | a value is restored exactly when a payload of the right version is found unexpired, `restore` gives a value and `validate` accepts it; otherwise the initial value is given and what was found is removed |
| SessionCache.SessionCache.MountHook | web/src/contexts/PageSessionStateContext.tsx:208-213 | the first render reads, and the reference starts with what was read |
| SessionCache.SessionCache.RunEffects | web/src/contexts/PageSessionStateContext.tsx:211-266 | the reference follows a value that has changed, and a state that is due reads again, as the state machine's event does |
| SessionCache.SessionCache.SetValue | web/src/contexts/PageSessionStateContext.tsx:233-278 | a setter, whoever's render made it and whether or not its state is mounted, persists under its own key at once or by a timer that replaces the one before |
| SessionCache.SessionCache.FireTimer | web/src/contexts/PageSessionStateContext.tsx:240-243 | the timer persists the value under the key it was scheduled for |
| SessionCache.SessionCache.ResetValue | web/src/contexts/PageSessionStateContext.tsx:280-292 | a reset forgets the entry under its own key, cancels the timer and shows the initial value |
| SessionCache.SessionCache.PersistValue | web/src/contexts/PageSessionStateContext.tsx:215-231 | memory always takes the payload, the browser's store if it is kept there and works |
| SessionCache.SessionCache.RemoveUser | web/src/contexts/pageSessionStorage.ts:88-101 | the key-collecting loop removes exactly the keys with the prefix |
| SessionCache.SessionCache.SettleUser | web/src/contexts/PageSessionStateContext.tsx:151-163 | after the states' effects the user before is cleared |
| SessionCache.SessionCache.ClearAllFor | web/src/contexts/PageSessionStateContext.tsx:140-149 | the entries of the user it is bound to go, and every state is to read again |
| Grouping.TwoLevelsArePartition | web/src/pages/BankDetailsPage.tsx:933-997 | both levels together hold every given choice key exactly once, with the choice that had it first |
| Grouping.GroupingIsAPartition | web/src/pages/BankDetailsPage.tsx:976-997 | grouping keeps every item once, names no group twice and leaves none empty |
| GroupingPlaces.PlacedExactly | web/src/pages/BankDetailsPage.tsx:918-997 | a choice stands in a second-level group if and only if it is the first with its key, its first label names the first level, and its second label, or its first where it has none, names the group |
| GroupingPlaces.KeyTellsApart | web/src/pages/BankDetailsPage.tsx:918-920 | keys are equal if and only if code and third label are |
| Grouping.BuildChoiceGroups | web/src/pages/BankDetailsPage.tsx:976-997 | groups in first-use order of their labels, members in order, repeated and missing choices dropped |
| Grouping.BuildSubGroups | web/src/pages/BankDetailsPage.tsx:933-954 | likewise for the second level, and the third-level mark exactly when a member has a third label |

## Left out

- The inside of `atomic_write` (temporary file, fsync, rename), path and symbolic-link checks, JSON text and argument parsing of the publisher.
- FrontendRuns.ServedBuildsAreRetained: the window is less the longest duration of a publish, because the code stamps retirement when a publish starts; `ReplacedBuildIsRetained` has the one publish's duration instead, and `WindowIsHonouredExactly` is the exact condition.
- FrontendResumption.RetriedPublishMatchesUncut: the retry reads the same clock value as the first try, because a later one stamps later and supports fewer versions; `RetriedLaterMatchesUncut` is about any later value.
- SHA-256, SSH, git, npm and generated shell text of `scripts/deploy_oa.py`; a hash is a function of the bytes it is fed.
- ReleaseTree.TreeVisitor.Visit: a directory comes as its sorted entries, so the sorting of one directory is not modelled.
- `inflateRawSync`: an entry with method 8 is given back as compressed octets, and the workbook reader refuses it.
- Zip.Read: names are octets, so the choice between UTF-8 and Latin-1 by flag bit 11 is not modelled; the writer always sets the bit.
- Sheet.SheetRoundTrip: of the texts that `Number` accepts only runs of digits are modelled, which is what the writer emits.
- Workbook.Create: the parts that hold no cells, the sheet's name among them, are arbitrary texts.
- The messages of errors, the tag drawer, the expansion of batches and all rendering of the batch page.
- Money.FormattingIsIdempotent: numbers and missing values are taken as the text that `String` makes of them.
- PaneWidths.OnPointerMove: floating-point error is not modelled.
- `useOptionalPageSessionState` outside a provider: one user, nothing to keep apart.
- `buildCategoryTree` and `displayedTransactionRange` of the bank details page: they would only add easy members.
- Thin context providers, base-path normalisers and cookie parsing: likewise.
