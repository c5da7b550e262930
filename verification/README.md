# Plane Radar: verified protocols

A Dafny 4.11 model of the parts of Plane Radar that have to be right whatever fails in between, with proofs.
`dafny verify dfyconfig.toml` checks everything.

| files | what they model |
|---|---|
| `StableRelease.dfy`, `AssetInventory.dfy` | publishing a verified draft under an annotated tag when every backend call may raise, with or without having taken effect; the fingerprint of a release's assets |
| `Installer.dfy` | the resumable installer: twelve phases, a record on the Mac and one on the target, crashes between any two writes, drift and its repair |
| `NightMode.dfy` | night intervals of all dates, seen through a three-date window, with sunrises and fallback mornings |
| `Recency.dfy`, `EnrichmentCache.dfy` | the enrichment cache: expiry and least-recent use over two maps with one serial counter, refining an abstract recency list |
| `FooterSearch.dfy`, `FooterLayout.dfy`, `FooterProgram.dfy` | the backtracking search for the best split of footer items into rows, fitting the rows, and the layout of the content the program shows |
| `ConfigText.dfy`, `DisplayNames.dfy`, `BootConfig.dfy`, `BootConfigLaws.dfy` | the boot-configuration editor: lines and endings, what the editor owns, where a selection goes, and what two selections in a row give |
| `RuntimeTypes.dfy`, `RuntimeModel.dfy`, `RuntimeWorkers.dfy`, `FrameCache.dfy` | the shared runtime snapshot with its guarded commits, the ADS-B worker and the settings service around it, and the frame cache keyed on its generation |
| `Ownership.dfy`, `Activation.dfy`, `ActivationLaws.dfy` | the ownership manifest as a history of three releases, and switching the installed release over a file system with crash points |
| `Backlight.dfy` | brightness ramps in integer arithmetic inside the colour and brightness state machine |
| `CaptureProtocol.dfy` | the framed capture stream, encoder and parser |
| `Prelude.dfy`, `Sorting.dfy` | optional values and stable sorting, shared by the rest |

Failures and other threads are data: a backend answers its n-th call from an arbitrary function, a write may be lost
before or after it took effect, a machine may stop after any number of durable steps, and a run of the shared model is
any sequence of commits. A statement for all such data is a statement about every run.

## Findings

Properties that do not hold as one would first state them are given with their exact condition:

- A drift repair that fails between its two writes leaves a pair of records that every later run refuses
  (`Installer.Installer.Repair`, `Installer.OnlyLaggingIsRefused`); a run that finds no drift never leaves one
  (`Installer.Installer.Run`).
- Selecting a display twice is not always selecting it once: a user's own `dtparam` line right below the last `[all]`
  is taken away by the second selection, and an unended `[all]` line with a bare carriage return changes the line
  endings (`BootConfigLaws.LastSelectionWins`, with both examples).
- The frame cache shows an outdated minute when the provider reports a UTC offset that is not a whole number of
  minutes (`FrameCache.KeyDecidesFrameExactly`), and after the generation saturates (`FrameCache.SaturatedKeysCollide`).
- An activation can be resumed after a crash exactly when every listed file it wrote is listed as written, or when it
  removed nothing yet and every listed file it did not write is there as listed and belongs to root
  (`ActivationLaws.CrashIsAcceptedExactly`). An installation that creates the settings lists them and hands them to
  the service, so there a crash once a listed file was changed is final (`ActivationLaws.ServiceSettingsDefeatProof`,
  `ActivationLaws.OrdinaryInstallationExample`). Elsewhere such a crash is final after the first removal of a retired
  release, while a listed file that was missing is still to be written, and with edited settings, although the first
  attempt tolerates both (`ActivationLaws.TolerationIsNotRepeated`, `ActivationLaws.MissingFileExample`,
  `ActivationLaws.EditedSettingsExample`).
- An activation leaves files that match the manifest it returns exactly when the settings' marker was ours before and
  every listed path is allowed or retired: the proof of an interrupted switch reads neither the marker's text nor the
  list of allowed paths (`ActivationLaws.CompletionMatchesManifest`, `ActivationLaws.ForeignMarkerExample`,
  `ActivationLaws.ForeignPathExample`).
- A brightness target that coincides with the interpolated level at the moment of the change may never be written
  (`Backlight.StuckOnlyInPassing`, with a run that gets there in `Backlight.TargetMetInPassing`), and
  percentages survive the conversion only on devices with a hundred levels or more (`Backlight.RoundTripExactly`).

## Model

| member | source | states |
|---|---|---|
| `StableRelease.LawfulHistoryIsSafe` | scripts/stable_release.py:537-725 | every world of a run that keeps the step discipline is safe: a public release always has the canonical remote tag |
| `StableRelease.NoUnsafeWorldEver` | scripts/stable_release.py:455-725 | no world any backend ever passes through, whatever its calls answered, has a public release, altered or not, without the canonical tag |
| `StableRelease.Backend.Do` | scripts/stable_release.py:809-1015 | a mutating call is done and returns, is done and raises, or is not done and raises; it may publish only under the canonical tag and delete the tag only when nothing is public |
| `StableRelease.Backend.RemoteTag` | scripts/stable_release.py:748-778 | reads the remote tag or raises; changes nothing |
| `StableRelease.Backend.GetRelease` | scripts/stable_release.py:841-843 | reads the release; a missing one raises like a failed request |
| `StableRelease.Backend.GetReleaseOptional` | scripts/stable_release.py:844-862 | reads the release; a missing one is an answer |
| `StableRelease.RemoveRelease` | scripts/stable_release.py:462-481 | one to three deletions, each followed by a lookup, until one finds the release absent or the third is over; proven exactly when the last lookup found it absent, and at once when no call misbehaves |
| `StableRelease.RemoveExactTag` | scripts/stable_release.py:483-503 | only the exact tag is ever deleted, only after the release is gone and only after it was seen; the answer is the tag as it is, none exactly when the last read raised |
| `StableRelease.CompensateRejectedPublication` | scripts/stable_release.py:455-518 | each way it ends says truthfully what is left and what was attempted last; without faults the release and our tags are gone, a foreign tag survives, and the message says which of these it is |
| `StableRelease.ReportRejection` | scripts/stable_release.py:505-518 | the local tag is dropped and the message says exactly which tags are left; that it is left means its removal was attempted and raised |
| `StableRelease.PublishVerifiedDraft` | scripts/stable_release.py:537-725 | accepts only with the release published under the canonical tag; says exactly which input is refused and which is taken down; every message is true of the world left and of the last attempt; with reliable reads a resumable state stays resumable; without faults it accepts exactly the resumable states and ends published, or with an altered release and all our tags gone |
| `StableRelease.PublishDraft` | scripts/stable_release.py:577-665 | refuses exactly a foreign or untaggable local tag, pushes when asked, then publishes |
| `StableRelease.PushExactTag` | scripts/stable_release.py:585-617 | fails exactly when the tag was observed absent or could not be read; the local tag is dropped only when it was observed absent, and the message says whether that worked |
| `StableRelease.JudgePush` | scripts/stable_release.py:592-617 | what is found after a push: nothing, another tag, which is left alone, or ours |
| `StableRelease.PublishUnderTag` | scripts/stable_release.py:619-665 | publishes under an observed tag and decides by re-reading: accepted exactly when both reads succeed and show it published, taken down exactly when a read failed or it came out altered |
| `StableRelease.JudgePublication` | scripts/stable_release.py:619-665 | what is found under any tag, whoever changed it: taken down, accepted or taken back |
| `StableRelease.JudgeTakenBack` | scripts/stable_release.py:674-693 | after the tag was deleted, every combination of release and tag that may be found has its own answer |
| `StableRelease.JudgeCleanedUp` | scripts/stable_release.py:708-725 | and after the local cleanup |
| `StableRelease.CompensateUnpublished` | scripts/stable_release.py:667-725 | takes back the pushed tag of a release that stayed a draft; which answer comes follows exactly from which of its calls failed |
| `StableRelease.CleanUpLocally` | scripts/stable_release.py:695-725 | drops the local tag and reports whether that worked, or that the state could not be read |
| `StableRelease.ConfirmPublished` | scripts/stable_release.py:432-452 | confirms exactly a published release under the canonical tag |
| `StableRelease.PublishWithRetries` | scripts/stable_release.py:537-725 | after any number of runs with ambiguous changes the state is resumable, and one run without faults publishes |
| `AssetInventory.Inventory` | scripts/stable_release.py:103-136 | accepts exactly the inventories that are acceptable (known distinct names, positive sizes within the total, digests) and returns them sorted by name |
| `AssetInventory.AcceptableMeans` | scripts/stable_release.py:103-136 | acceptable: every required name exactly once, nothing else, at most a gibibyte in all |
| `AssetInventory.WellFormedMeans` | scripts/stable_release.py:84-133 | an entry: a positive id, a required name, at most half a gibibyte, sha256 and 64 lower-case hexadecimal digits |
| `AssetInventory.NameLeqDecides` | scripts/stable_release.py:136-136 | names are ordered by the first character that differs, a beginning before what it begins |
| `AssetInventory.OrderedIsUnique` | scripts/stable_release.py:136-136 | two name-sorted inventories of the same assets with distinct names are equal |
| `AssetInventory.SerializedInjective` | scripts/stable_release.py:139-144 | inventories of separable rows with the same serialisation are equal |
| `AssetInventory.FingerprintTextIsCanonical` | scripts/stable_release.py:103-144 | two accepted inventories have the same fingerprint text exactly when they list the same assets, in whatever order reported |
| `AssetInventory.RequiredNamesArePlain` | scripts/stable_release.py:22-30 | no required asset name contains the field separator |
| `NightMode.WindowIsComplete` | src/night_mode.rs:63-92 | a night of any date that holds now is matched by yesterday's or today's |
| `NightMode.NextStartIsInWindow` | src/night_mode.rs:122-143 | the next start after now among all dates is today's or tomorrow's |
| `NightMode.NightEndsAtEnd` | src/night_mode.rs:95-121 | at the end of a night it is night exactly when some night starts at that second |
| `NightMode.AnEndIsNotInside` | src/night_mode.rs:63-92 | no night that started earlier outlasts the end of another |
| `NightMode.FallbacksAscend` | src/night_mode.rs:212-219 | fallback mornings ascend with the date |
| `NightMode.DayLastsUntilNextStart` | src/night_mode.rs:122-143 | a day lasts until the next start of any date |
| `NightMode.ResolvesToFirst` | src/night_mode.rs:197-210 | a local time resolves to the first instant at which the clock reads at least it: the change itself for a time that is skipped, the first occurrence for one that is repeated |
| `NightMode.SteadyClockIsRegular` | src/night_mode.rs:197-210 | a clock with any number of changes of offset satisfies the ordering assumptions from any instant on from which no change skips more than seven hours or carries the local date back |
| `NightMode.OneTransitionIsRegular` | src/night_mode.rs:197-210 | any single change of offset of at most seven hours that does not carry the local date back, from any instant on; a fixed offset is the case without a change |
| `NightMode.ValidatedSchedule` | src/night_mode.rs:160-191 | a schedule is accepted exactly when its version is 1, it has 17 rows, coordinates and zone exist and its rows are acceptable; its sunrises come sorted |
| `NightMode.CollectSunrises` | src/night_mode.rs:172-190 | rows are accepted exactly when dates are distinct and canonical and each sunrise is an instant of the calendar on its own local date; every row's sunrise is collected, as often as rows list it, and nothing else |
| `NightMode.EverySunriseCounts` | src/night_mode.rs:172-190 | an instant is listed as often as rows have it as their sunrise |
| `NightMode.NightIsReadOff` | src/night_mode.rs:63-92 | every date has exactly one night, read off the rows: from the chosen time to the least sunrise of any row later than that, and only with no later one to seven in the morning, of the next date if seven has passed |
| `NightMode.Window` | src/night_mode.rs:63-92 | the intervals of yesterday, today and tomorrow, ended by the first later sunrise or the fallback |
| `NightMode.FromWindow` | src/night_mode.rs:95-143 | of three intervals the latest that holds now decides, failing that the first still to start, failing that the display waits |
| `NightMode.WindowIsCorrect` | src/night_mode.rs:95-143 | two dates after the last irregular change of the zone the window's answer is correct for the nights of all dates, and there is no waiting |
| `NightMode.WindowReadsOff` | src/night_mode.rs:95-143 | what the window says is what the rows say |
| `NightMode.ShownNightIsNight` | src/night_mode.rs:95-121 | whatever the zone does, a night that is shown is the night of some date and lasts until the end announced |
| `NightMode.Display` | src/night_mode.rs:25-143 | disabled, waiting and usable input are told apart exactly; usable input gives the night read off the rows that holds now, the latest of the window, failing that the one awaited first, with period, brightness, colour, transition and status; once the schedule's zone has settled that is Night exactly when some night of any date holds now, with the first instant at which the period can change |
| `NightMode.NightLastsUntilEnd` | src/night_mode.rs:95-121 | it is night from now until the transition announced |
| `NightMode.FirstStartIsNext` | src/night_mode.rs:122-143 | it is day from now until the transition announced, and night at it |
| `Installer.OnlyLaggingIsRefused` | crates/planeradarctl/src/install.rs:333-395 | of the record pairs a request can leave, exactly those whose target lags behind the Mac are refused |
| `Installer.RepairPassesThroughLagging` | crates/planeradarctl/src/install.rs:372-390 | lowering the target before the Mac passes through a pair that is lagging and refused |
| `Installer.LateStepIsForward` | crates/planeradarctl/src/install.rs:553-592 | target-first writing keeps the pair equal or the target exactly one ahead |
| `Installer.EarlyStepIsResumable` | crates/planeradarctl/src/install.rs:553-592 | before the application is acquired only the Mac record moves |
| `Installer.FilesStayFitting` | src/install.rs:352-371 | owned files are recorded exactly from the phase that installs the application on |
| `Installer.EveryPairAllowed` | crates/planeradarctl/src/install.rs:326-437 | every durable pair of a run is one of the allowed shapes |
| `Installer.StreakMeans` | crates/planeradarctl/src/install.rs:397-437 | a streak of twelve confirmations is the twelve phases in order |
| `Installer.Installer.VerifyPhase` | crates/planeradarctl/src/install.rs:282-287 | a phase is confirmed, found drifted, or not verified, exactly as the answer says |
| `Installer.Installer.SaveTarget` | src/install.rs:342-376 | every record written to the target satisfies the target's own validator; the reply decides whether the write took effect and whether it is reported |
| `Installer.Installer.SaveMac` | crates/planeradarctl/src/state.rs:268-275 | the reply decides whether the Mac record is written and whether that is reported |
| `Installer.Installer.Persist` | crates/planeradarctl/src/install.rs:553-592 | target first, read back, then Mac, in that order of calls, each only if the one before was answered as it should be; success leaves both at the phase, a failure leaves one of the pairs the two writes pass through and says which |
| `Installer.Installer.PerformPhase` | crates/planeradarctl/src/install.rs:439-551 | one backend operation; performed exactly when its answer matches the request: identity, artifact and driver as asked for, an installation well formed, of the revision and digest requested, whose files it records; each refusal has its own error |
| `Installer.Installer.RunFromPhase` | crates/planeradarctl/src/install.rs:397-437 | performs, verifies and records the remaining phases in order; completes only with all of them confirmed and both records at Complete; never reports disagreement |
| `Installer.Installer.Run` | crates/planeradarctl/src/install.rs:326-395 | a lagging pair is refused and stays; otherwise exactly the planned calls are made, in order, up to the first answer that stops the run, which its outcome explains; success means twelve confirmations in order, agreeing records, every phase performed with a matching answer and the files of an installation of the revision and digest requested; a run leaves a lagging pair only when it found drift and a record could not be saved; a faultless run completes |
| `Installer.Installer.LoadRecords` | crates/planeradarctl/src/install.rs:327-341 | both records are read, the Mac's first; a failed read or a record of another target ends the run |
| `Installer.Installer.Reconcile` | crates/planeradarctl/src/install.rs:343-371 | a target that is ahead is caught up with only after every phase between was verified, in order |
| `Installer.Installer.FirstDrift` | crates/planeradarctl/src/install.rs:372-383 | finds the first recorded phase that no longer verifies |
| `Installer.Installer.Repair` | crates/planeradarctl/src/install.rs:383-390 | lowers both records to the phase before the drift; it leaves a lagging pair exactly when it fails with the target lowered and the Mac not, as it does when the reply to the target's write is lost |
| `Installer.Installer.Resume` | crates/planeradarctl/src/install.rs:372-395 | goes on after the last phase that still holds |
| `Installer.Installer.RunRepeatedly` | crates/planeradarctl/src/install.rs:326-437 | over any number of crashed runs without drift every durable pair is forward progress, no run is refused, and a faultless one completes |
| `Recency.RunStaysBounded` | src/flight_data.rs:78-188 | any history of lookups, records and purges leaves distinct keys within capacity |
| `Recency.HitIsLatestRecord` | src/flight_data.rs:78-157 | what is held for a key is its latest record, unexpired since |
| `Recency.InUseIsRetained` | src/flight_data.rs:78-188 | a key with fewer than capacity other keys used since stays until it expires |
| `Recency.TrimSpares` | src/flight_data.rs:206-217 | eviction takes the least recent keys |
| `EnrichmentCache.LeastRecentKey` | src/flight_data.rs:206-217 | the entry with the smallest serial is the least recent key |
| `EnrichmentCache.EvictLru` | src/flight_data.rs:206-217 | evicting down to capacity drops the least recent keys |
| `EnrichmentCache.RebaseAccessSerials` | src/flight_data.rs:177-188 | renumbering keeps the order of use and ends within the number of entries |
| `EnrichmentCache.EnrichmentCache.RemoveExpired` | src/flight_data.rs:159-162 | exactly the expired entries go, from both maps |
| `EnrichmentCache.EnrichmentCache.NextAccessSerial` | src/flight_data.rs:164-175 | the next number, or after the last one a number just above the entries renumbered; above every serial in use |
| `EnrichmentCache.EnrichmentCache.Renumber` | src/flight_data.rs:164-188 | rebasing both maps changes neither cache, so neither the next eviction |
| `EnrichmentCache.EnrichmentCache.Resolve` | src/flight_data.rs:78-117 | a hit is the latest unexpired record for the aircraft's key; what is pending is exactly what is wanted and not held |
| `EnrichmentCache.EnrichmentCache.RecordLookup` | src/flight_data.rs:119-157 | what was asked for and answered is recorded under both keys, within capacity |
| `EnrichmentCache.RecordOpIs` | src/flight_data.rs:129-204 | a value found is recorded for six hours, that there is none for ten minutes, and without a result nothing is |
| `EnrichmentCache.RecordedComesBack` | src/flight_data.rs:78-204 | what was recorded comes back, unless recorded anew or pushed out in between, exactly until its six hours or ten minutes are up, whatever other lookups and records come between |
| `EnrichmentCache.NormalizedGrows` | src/flight_data.rs:389-406 | a key takes the characters that pass, in upper case, until it is full |
| `EnrichmentCache.KeysAre` | src/flight_data.rs:190-406 | six hexadecimal digits for the aircraft, eight letters or digits for the flight |
| `FooterSearch.PartitionsAreSplits` | src/render/footer.rs:267-299 | every partition visited splits the items, in order, into that many non-empty rows |
| `FooterSearch.SplitIsVisited` | src/render/footer.rs:267-299 | every such split is visited |
| `FooterSearch.PartitionsAscend` | src/render/footer.rs:267-299 | partitions are visited in strictly ascending order of their row lengths |
| `FooterSearch.BeforeMeans` | src/render/footer.rs:267-299 | the order of partitions: by the first row of another length, the shorter first |
| `FooterSearch.FirstBestFacts` | src/render/footer.rs:301-321 | the accumulator holds the first feasible candidate with the least widest row |
| `FooterSearch.Search.ConsiderPartition` | src/render/footer.rs:301-321 | a candidate replaces the best only if feasible and strictly narrower |
| `FooterSearch.Search.EnumeratePartitions` | src/render/footer.rs:267-299 | the backtracking search considers exactly the partitions and restores its rows |
| `FooterSearch.BestOrderedRows` | src/render/footer.rs:242-265 | the result is the feasible split with the least widest row, first in order among ties; none exactly when no split is feasible |
| `FooterSearch.RowGrows` | src/render/footer.rs:196-222 | a row is as wide as its texts and the separators between them, at least with an ellipsis for each text that may be shortened |
| `FooterSearch.VisitedBestIsBest` | src/render/footer.rs:242-321 | best among the visited is best among all splits |
| `FooterLayout.FitWithEllipsis` | src/render/text.rs:47-89 | a text that fits, or nothing |
| `FooterLayout.FitIsLongest` | src/render/text.rs:47-89 | the text unchanged if it fits, otherwise the longest prefix not ending in an ellipsis that fits before one, nothing when not even the ellipsis fits |
| `FooterLayout.SanitizedIs` | src/render/text.rs:47-186 | what is drawn for each character, and an ellipsis for the 256th when there are more |
| `FooterLayout.FitRow` | src/render/footer.rs:323-351 | shortens permitted texts only, the condition's before the status'; a row whose minimum width fits comes out fitting |
| `FooterLayout.ShrunkIsLongest` | src/render/footer.rs:323-351 | a text is cut to the room the others leave: the longest cut that fits, or a bare ellipsis when none does |
| `FooterLayout.ConditionGoesFirst` | src/render/footer.rs:323-351 | a row that fits stays; otherwise the condition's text is cut, and that is all if the row then fits |
| `FooterLayout.StatusGoesLast` | src/render/footer.rs:323-351 | the status's text is cut only without a condition or after its text became a bare ellipsis |
| `FooterLayout.FittedRowFacts` | src/render/footer.rs:323-351 | a row whose minimum width fits is made to fit, and only texts that may be shortened are |
| `FooterLayout.SortByToneIsStable` | src/render/footer.rs:59-59 | sorting by tone keeps the order within each tone |
| `FooterLayout.ChooseRows` | src/render/footer.rs:67-97 | one row or the two preferred ones if they fit, else the best split into the fewest rows that can be fitted; none exactly when a single item is too wide |
| `FooterLayout.PreferredMeans` | src/render/footer.rs:70-87 | the preferred rows: everything about the weather above everything about the time |
| `FooterLayout.PreferredFitsWhen` | src/render/footer.rs:70-87 | they are taken whenever both exist and fit |
| `FooterLayout.TooWideNeverFits` | src/render/footer.rs:209-222 | an item wider than the rail makes every split infeasible |
| `FooterLayout.SinglesFeasible` | src/render/footer.rs:267-321 | items that fit one by one always have a feasible split |
| `FooterLayout.ChosenRowsCanFit` | src/render/footer.rs:323-351 | every row chosen can be fitted |
| `FooterLayout.LayoutFooter` | src/render/footer.rs:45-118 | the rows are the chosen ones, each fitted, and together hold every item in order, only texts that may be shortened changed; there is none exactly for empty content and when a single item is too wide, as long as no tone that may be shortened repeats |
| `FooterProgram.ContentIsUnique` | src/weather.rs:187-250 | the program's footer never has two items of a tone that may be shortened |
| `FooterProgram.ItemsAre` | src/weather.rs:187-250 | every part of the content becomes one item with its words and tone, the reading's before the clock's |
| `FooterProgram.LayoutProgramFooter` | src/render/footer.rs:45-118 | for the program's own content without condition: a layout, chosen and fitted, exactly when there is something to show and no single item is too wide |
| `ConfigText.SplitLinesPreservingEndings` | src/install.rs:2455-2478 | one pass over the newlines yields the lines with their endings |
| `ConfigText.JoinOfSplit` | src/install.rs:2455-2478 | joining the lines of a text gives the text back, and the lines are well formed |
| `ConfigText.SplitOfJoin` | src/install.rs:2455-2478 | splitting joined well-formed lines gives them back, up to which side a carriage return is counted on |
| `ConfigText.TrimIs` | src/install.rs:2535-2548 | trimming takes white space off both ends and nothing else |
| `ConfigText.ByteLengthAppend` | src/install.rs:2320-2331 | the length of a line in UTF-8 is the sum over its characters |
| `DisplayNames.FieldsJoinBack` | src/install.rs:2535-2548 | the fields of a text have no comma and joined with commas give it back |
| `DisplayNames.FieldsOfJoined` | src/install.rs:2535-2548 | and any list of texts without commas is the fields of its join |
| `DisplayNames.DeclarationIs` | src/install.rs:2535-2542 | a declaration is exactly dtoverlay=, a stock or versioned overlay name, and the end or a comma |
| `DisplayNames.IsDeclarationOf` | src/install.rs:2535-2542 | so is every such text, whatever follows the comma |
| `DisplayNames.VersionedMeans` | src/install.rs:2520-2533 | a versioned name: hyperpixel2r-, then a revision of 40 lower-case hexadecimal digits |
| `DisplayNames.SelectionIsWritable` | src/install.rs:2480-2533 | a selection is refused exactly for an unversioned overlay or an unknown or repeated parameter; otherwise its lines are spelled out: the declaration and its parameters, each of which reads back and fits |
| `DisplayNames.WritableFacts` | src/install.rs:2320-2331 | what the editor writes reads back unchanged and fits the boot loader |
| `DisplayNames.KindsExclude` | src/install.rs:2535-2548 | no line is two of declaration, parameter and all-sections header |
| `DisplayNames.VersionedIsPlain` | src/install.rs:2520-2533 | a versioned overlay name has no separator, space or control character and is short |
| `BootConfig.KeepUnowned` | src/install.rs:2250-2262 | the pass under a running flag keeps the lines the specification keeps |
| `BootConfig.KeptAreTheUnowned` | src/install.rs:2250-2262 | those are exactly the lines that are neither a declaration nor a parameter directly below an owned line |
| `BootConfig.InsertAll` | src/install.rs:2271-2286 | line-by-line insertion at a moving position places the block there |
| `BootConfig.Place` | src/install.rs:2264-2305 | the block goes right after the last all-sections header, which is closed or appended first |
| `BootConfig.ValidateBootConfig` | src/install.rs:2320-2331 | reports the first line longer than the boot loader reads |
| `BootConfig.SelectHyperpixelOverlay` | src/install.rs:2236-2318 | the edited text or the error of the specification; changed exactly when the text differs; in what is written no line other than the inserted declaration names an overlay of the display, with or without parameters after a comma |
| `BootConfigLaws.OutputReadsBack` | src/install.rs:2236-2318 | the output's lines are head, inserted lines and tail as assembled |
| `BootConfigLaws.OutputDeclaresOnce` | src/install.rs:2236-2318 | the output has exactly one declaration, the selected one |
| `BootConfigLaws.OutputPassesPreflight` | src/install.rs:1999-2027 | the output passes the display preflight |
| `BootConfigLaws.InsertedBelowLastHeader` | src/install.rs:2264-2305 | the inserted lines stand right below the last all-sections header of the output |
| `BootConfigLaws.UnownedLinesSurvive` | src/install.rs:2250-2305 | without the inserted block the output is the unowned input lines in order, unended ones at most closed, and a header if there was none |
| `BootConfigLaws.LimitIgnoresSelection` | src/install.rs:2311-2331 | only the user's own lines can break the length limit |
| `BootConfigLaws.AcceptedExactly` | src/install.rs:2306-2318 | the editor answers with a text exactly when the selection can be written and every line of the result fits |
| `BootConfigLaws.SelectionIsSafe` | src/install.rs:2236-2331 | an accepted selection passes the preflight, declares once, fits line by line, and so would any other valid selection |
| `BootConfigLaws.SelectionStandsAlone` | src/install.rs:2236-2318 | the accepted text has the selection's lines, spelled out, right below its last all-sections header, and no other line's trimmed text is dtoverlay= and an overlay of the display followed by the end or a comma |
| `BootConfigLaws.PreflightExactly` | src/install.rs:1999-2027 | the preflight accepts exactly a text without a declaration or with one whose fields are those of a stock or versioned overlay and supported parameters |
| `BootConfigLaws.LastEditWins` | src/install.rs:2236-2318 | editing twice equals editing once exactly when no parameter stands right below the last header and not (a bare-CR header closed with LF and several inserted lines) |
| `BootConfigLaws.LastSelectionWins` | src/install.rs:2236-2318 | the same for selections: select(select(x,a),b) = select(x,b) if and only if those conditions hold |
| `BootConfigLaws.ReselectionChangesNothing` | src/install.rs:2236-2318 | selecting the same display again changes nothing, under exactly the same conditions |
| `BootConfigLaws.ParameterBelowHeaderExample` | src/install.rs:2250-2262 | a user's parameter right below the header: every second selection differs |
| `BootConfigLaws.BareReturnExample` | src/install.rs:2264-2286 | a bare-CR header: every second selection of several lines differs |
| `RuntimeTypes.FilteredSubsequence` | src/model.rs:369-376 | filtering what is displayed keeps order and adds nothing |
| `RuntimeTypes.AllowedIsWithin` | src/adsb.rs:22-33 | an altitude passes exactly if it is known and within every bound that is set, and any does when none is |
| `RuntimeTypes.FilterCounts` | src/model.rs:369-376 | each aircraft stays as often as it was there, or goes altogether |
| `RuntimeModel.CommitKeepsCoherence` | src/model.rs:354-617 | every accepted commit keeps the snapshot an exact reading of what was accepted: the latest report, all of it that no later change of filter refused, exactly while place and range are those it was made for; readings, their errors, schedules and failures exactly while in force; enrichment of a key exactly while the key stayed displayed; a refused commit changes nothing |
| `RuntimeModel.EveryRunIsCoherent` | src/model.rs:354-617 | so does every interleaving of settings replacements and commits, however old their requests |
| `RuntimeModel.ReportsStep` | src/model.rs:354-498 | a report in force is displayed completely: each of its aircraft as often as reported, in order, unless a change of filter since refused it |
| `RuntimeModel.EnrichmentStep` | src/model.rs:650-668 | a key has enrichment exactly when it was recorded and has been displayed ever since, and then the latest |
| `RuntimeModel.SettingsReplaced` | src/model.rs:354-392 | what new settings leave, field by field: another query empties the display, another filter drops exactly what it refuses, another place the reading and the flag, other coordinates or no night mode the schedule |
| `RuntimeModel.DisplayedAlwaysPassFilter` | src/model.rs:354-498 | in every interleaving all aircraft displayed pass the altitude filter in force and enrichment keys are displayed keys |
| `RuntimeModel.GenerationMoves` | src/model.rs:670-673 | the generation stays the same exactly for refused commits or at saturation |
| `RuntimeModel.GenerationDeterminesSnapshot` | src/model.rs:670-673 | below saturation two moments of a run with one generation have one snapshot |
| `RuntimeModel.FlagStep` | src/model.rs:379-383 | the fetch flag says exactly whether a report was accepted since the radar last moved |
| `RuntimeModel.RuntimeModel.ReplaceSettings` | src/model.rs:354-392 | replacing settings is always accepted and leaves what the lemma above says |
| `RuntimeModel.RuntimeModel.RecordSolarScheduleIfCurrent` | src/model.rs:394-413 | a schedule is taken exactly when night mode is on at its coordinates and it is news; then it and no failure is held, all else unchanged |
| `RuntimeModel.RuntimeModel.PersistAndRecordSolarScheduleIfCurrent` | src/model.rs:415-440 | it is written to disk only while current; a failed write changes nothing; success leaves disk and model agreeing |
| `RuntimeModel.RuntimeModel.RecordSolarFailureIfCurrent` | src/model.rs:442-455 | a failure is taken exactly when current and new, all else unchanged |
| `RuntimeModel.RuntimeModel.RecordAircraftIfQuery` | src/model.rs:478-498 | a report is taken exactly when location, range and filter are still those fetched for; then exactly the aircraft reported are displayed, with its time, and enrichment is kept exactly for them |
| `RuntimeModel.RuntimeModel.RecordAdsbErrorIfQuery` | src/model.rs:593-609 | so is an error, which changes nothing else |
| `RuntimeModel.RuntimeModel.RecordEnrichmentIfCurrent` | src/model.rs:509-527 | enrichment is taken exactly for a displayed aircraft, current needs and a new value, under its key only |
| `RuntimeModel.RuntimeModel.RecordEnvironmentIfCurrent` | src/model.rs:543-557 | a reading is taken exactly for the current location while the footer needs it, and clears the error |
| `RuntimeModel.RuntimeModel.RecordEnvironmentErrorIfCurrent` | src/model.rs:572-585 | so is its error, which keeps the reading |
| `RuntimeModel.RuntimeModel.RecordBacklightAvailability` | src/model.rs:457-467 | availability is recorded exactly when it changed |
| `RuntimeModel.RuntimeModel.SetUrls` | src/model.rs:611-616 | addresses are replaced |
| `RuntimeModel.RuntimeModel.Bump` | src/model.rs:670-673 | the generation counts accepted commits and saturates |
| `RuntimeModel.RuntimeModel.Interleave` | src/model.rs:354-617 | whatever the other threads commit, the model ends as the run of their commits |
| `RuntimeWorkers.ParseAircraft` | src/adsb.rs:94-156 | the first max records that have a position, are wanted on the ground and pass the filter, in order, and only those |
| `RuntimeWorkers.HonestDisplay` | src/adsb.rs:94-156 | with reports that pass their own filter, what is displayed passes the current one |
| `RuntimeWorkers.BackoffIsCappedDoubling` | src/runtime.rs:198-209 | the retry interval doubles from three seconds and stops at thirty |
| `RuntimeWorkers.FetchesAreSpaced` | src/runtime.rs:198-223 | the next fetch starts one interval after the last one did, or at once when that took longer |
| `RuntimeWorkers.AdsbWorker.Pass` | src/runtime.rs:141-223 | how one turn ends follows exactly from the stop flag, the settings it asked with and those in force when it comes back; it commits its result exactly when the query is then still the one fetched, displays all it reported, and waits what the run of failures asks for less the time the turn took |
| `RuntimeWorkers.AdsbWorker.Work` | src/runtime.rs:141-223 | turn after turn until one is stopped; what is displayed passes the filter in force, exactly the turns that reported or failed are waited for, and each wait is what the run of failures then asks for less the time taken |
| `RuntimeWorkers.AdsbWorker.Count` | src/runtime.rs:172-197 | the failure count is the length of the current run of accepted failures, saturating |
| `RuntimeWorkers.RuntimeSettingsService.Commit` | src/runtime.rs:354-363 | a failed save leaves the running settings alone and tells nobody; otherwise disk, model and workers agree even when a worker was gone |
| `RuntimeWorkers.RuntimeSettingsService.CycleRange` | src/runtime.rs:336-352 | cycles the range of the latest settings inside the same guard |
| `FrameCache.StaleTestsAgree` | src/render/radar.rs:112-116 | the renderer's staleness test and the key's agree |
| `FrameCache.StateIs` | src/app.rs:423-434 | which screen is shown |
| `FrameCache.KeyIs` | src/app.rs:219-241 | what the key is made of: the minute and the age of the reading count only where they are shown |
| `FrameCache.SceneIs` | src/app.rs:243-285 | what is drawn on it, and exactly when it cannot be |
| `FrameCache.FooterShows` | src/weather.rs:187-250 | the footer has an item exactly when it is switched on and there is a reading, is stale after 45 minutes, or says that there is none |
| `FrameCache.ClockShows` | src/weather.rs:228-318 | the hour, minute and day shown, in Zulu or by the reading's offset, and when there is none |
| `FrameCache.EqualKeysEqualFrames` | src/app.rs:219-285 | with the clock in step, equal keys are drawn equal |
| `FrameCache.KeyDecidesFrameExactly` | src/app.rs:219-241 | the key decides the frame if and only if the clock is in step: shown local time needs an offset of whole minutes |
| `FrameCache.MidnightInsideMinute` | src/weather.rs:304-318 | with any other offset a local midnight falls inside a minute of the key |
| `FrameCache.SaturatedKeysCollide` | src/app.rs:219-241 | at a saturated generation every snapshot has another that shares its key and is drawn differently, on the radar with other units on its range label, one commit away if it can be drawn |
| `FrameCache.PlaneRadarApp.HandleGesture` | src/app.rs:177-196 | a tap on the radar cycles the range of the settings then in force, whatever was committed since they were last seen and however the save ends; a tap on the settings page closes it, a long press opens it |
| `FrameCache.PlaneRadarApp.RefreshVisibleAirports` | src/app.rs:287-310 | the airport list is that of its key, looked up only for another key |
| `FrameCache.PlaneRadarApp.RenderFrame` | src/app.rs:243-285 | drawing through both caches gives what drawing from scratch gives, and an unchanged background is neither looked up nor drawn again |
| `FrameCache.PlaneRadarApp.Draw` | src/app.rs:379-396 | a frame is handed out exactly when the key is another one and can be drawn; after a step the frame held is the one a redraw would give, below saturation and with the clock in step |
| `FrameCache.PlaneRadarApp.ApplyPolicy` | src/app.rs:359-377 | the backlight gets the policy the schedule held gives for the moment, and exactly a changed availability is committed and the snapshot taken anew before drawing |
| `FrameCache.PlaneRadarApp.Step` | src/app.rs:329-406 | a whole step: all gestures in order, other threads' commits, the night policy of the snapshot then seen, the backlight and what it reports, and a frame exactly when the key changed; quitting or stopping draws nothing |
| `Ownership.EvictOldest` | src/install.rs:1047-1057 | the eviction loop ends and drops the oldest releases until there is room for one |
| `Ownership.ReleaseIndexes` | src/install.rs:1037-1046 | the indexes of the release entries, first one first |
| `Ownership.ReleasesAre` | src/install.rs:1037-1046 | everything below the releases directory counts as a release |
| `Ownership.ProspectiveApplicationOwnership` | src/install.rs:1018-1082 | the new manifest, exactly when its size is in range and its paths are distinct |
| `Ownership.CheckOwnership` | src/install.rs:622-637 | accepts exactly one to 64 distinct paths; whether they are allowed is not asked |
| `Ownership.SelectionMovesToBack` | src/install.rs:1018-1082 | selecting moves the release to the back of the last three and leaves every other owned entry where it was |
| `Ownership.HistoryIsLastThreeUses` | src/install.rs:1018-1082 | after any number of activations the manifest lists the last three distinct releases by last use, other entries unchanged |
| `Ownership.ProspectiveIsDistinct` | src/install.rs:1018-1082 | paths stay unique |
| `Ownership.ProspectiveIsValid` | src/install.rs:622-637 | from a manifest without repetitions only the size limit can refuse the new one, and a manifest of allowed paths stays one |
| `Activation.NoProblemExactly` | src/install.rs:1298-1361 | the verifier finds no problem exactly when the manifest holds |
| `Activation.VerifyOwnedManifest` | src/install.rs:1298-1361 | no problem is reported exactly when the manifest holds, and otherwise it is the first in order |
| `Activation.FirstEntryIsReported` | src/install.rs:1327-1361 | of the entries the first that is wrong is reported, by its path when its file has drifted, as an invalid manifest otherwise |
| `Activation.MarkerMeans` | src/install.rs:1313-1326 | settings without their marker or the marker without them are not ours; a marker with another text has drifted |
| `Activation.DriftIsTolerated` | src/install.rs:1215-1296 | the precondition is met exactly when the manifest holds or all that is wrong is drift that the record of an interrupted switch between these releases, from this very manifest, explains |
| `Activation.AcceptedAreIntact` | src/install.rs:1215-1269 | where the precondition is met, every listed file other than the settings and those every switch rewrites is missing or as listed |
| `Activation.Target.RetireReleases` | src/install.rs:988-1013 | intact retired releases are removed in order; the drift check before each cannot fire |
| `Activation.Target.Activate` | src/install.rs:931-1016 | a refusal precedes the first write and says exactly why; a stop leaves a prefix of the steps; otherwise all steps were taken and the prospective manifest is returned; the proof it may rest on wants every listed file to be root's |
| `ActivationLaws.CompletionMatchesManifest` | src/install.rs:931-1016 | from every start the precondition accepts, forward or back: the written files exist, retired releases are gone, nothing else is touched, and the files match the manifest returned if and only if the marker was ours before and every listed path is allowed or retired |
| `ActivationLaws.AllowedAfter` | src/install.rs:1018-1082 | the new manifest lists only allowed paths if and only if the old one does but for what is retired |
| `ActivationLaws.ForeignMarkerPasses` | src/install.rs:1232-1269 | when every listed file is as listed but the marker has another text, the attempt passes if and only if root owns the settings, and then the manifest does not hold after it |
| `ActivationLaws.ForeignMarkerExample` | src/install.rs:1232-1361 | a concrete such start, with settings of root's |
| `ActivationLaws.ForeignPathExample` | src/install.rs:1215-1361 | a binary with the candidate's content listed before a path that is not allowed: the attempt passes and the manifest returned does not hold |
| `ActivationLaws.AcceptedExactly` | src/install.rs:1215-1269 | with the switch recorded, files are accepted exactly when every listed file is as listed or missing, or every one is there, root's, and with prior or candidate content |
| `ActivationLaws.CrashIsAcceptedExactly` | src/install.rs:1215-1296 | from every start whose manifest holds: after a crash the next attempt is accepted if and only if every listed file written so far is listed as written, or nothing was removed yet and every other listed file is there as listed and root's |
| `ActivationLaws.CompleteStartIsEvident` | src/install.rs:1253-1268 | with no listed file missing or edited, a crash before the first removal leaves the evidence for a switch under way exactly when every listed file is root's |
| `ActivationLaws.ServiceSettingsDefeatProof` | src/install.rs:1253-1258 | with listed settings that belong to the service, the next attempt is accepted if and only if every listed file written so far is listed as written |
| `ActivationLaws.OrdinaryInstallationExample` | src/install.rs:1253-1660 | the six files an installation lists, complete and unedited: after a crash behind the new binary the switch is neither gone on with nor taken back |
| `ActivationLaws.TolerationIsNotRepeated` | src/install.rs:1215-1296 | a listed file missing or settings edited at the start, and a crash after some other listed file was changed: the first attempt was accepted and the next is refused |
| `ActivationLaws.EditedSettingsExample` | src/install.rs:1215-1296 | edited settings and a crash after the new binary is written: the next attempt is refused |
| `ActivationLaws.MissingFileExample` | src/install.rs:1215-1269 | a tolerated missing service file and a crash after the new binary is written: the next attempt is refused |
| `ActivationLaws.PartWayIsAcceptedExactly` | src/install.rs:1232-1269 | any mixture of start, prior and candidate content is accepted, for going on and for going back, exactly when no listed file drifts, or none is missing and listed settings are root's and unedited |
| `ActivationLaws.RemovalDefeatsProof` | src/install.rs:1253-1268 | after the first removal some listed file has neither prior nor candidate content, so nothing proves an interrupted switch any more |
| `ActivationLaws.RestartConverges` | src/install.rs:973-1013 | starting over after a crash ends where an uninterrupted attempt would |
| `ActivationLaws.CrashesAreRecovered` | src/install.rs:931-1016 | any number of crashes comes to one at the furthest step reached: the next attempt is accepted exactly when it is after that one, and the one that completes leaves the files of a single attempt |
| `ActivationLaws.TwoCrashesAreOne` | src/install.rs:931-1013 | two attempts that stop leave what one that stops at the later of the two steps leaves |
| `ActivationLaws.AttemptsAreRecovered` | src/install.rs:931-1296 | from complete files, after any sequence of attempts on and back that stop before a removal, the next is accepted either way if and only if all listed files are root's or none has drifted, and completing it leaves the files of the manifest it returns |
| `ActivationLaws.ReleaseEntriesCarryDigest` | src/install.rs:1060-1063 | manifests an activation writes record for each release the digest its path carries |
| `Backlight.LevelsFit` | src/backlight.rs:299-312 | no intermediate value leaves u64 and a percentage gives a level of the device |
| `Backlight.LevelIsNearest` | src/backlight.rs:362-369 | a percentage gives the level nearest to it, or the largest 32-bit number |
| `Backlight.PercentIsNearest` | src/backlight.rs:299-312 | a level is shown as the percentage nearest to it |
| `Backlight.PercentRoundTrip` | src/backlight.rs:362-369 | percent to level and back is the identity with at least a hundred levels |
| `Backlight.RoundTripExactly` | src/backlight.rs:299-369 | and only then: every percentage survives if and only if the device has a hundred levels or more |
| `Backlight.AdjustmentFits` | src/backlight.rs:329-354 | the scaled difference fits u64 and the adjustment never exceeds the difference |
| `Backlight.RampStaysBetween` | src/backlight.rs:329-360 | a ramp starts at its start, ends at its target after two seconds and stays between |
| `Backlight.RampIsLinear` | src/backlight.rs:329-360 | and moves in a straight line: at every instant within half a level of it |
| `Backlight.RampIsMonotonic` | src/backlight.rs:329-354 | later is never further from the target |
| `Backlight.BacklightController.ApplyColorRequest` | src/backlight.rs:244-255 | full colour is shown against a request for red exactly while red waits for the ramp |
| `Backlight.BacklightController.FailedUpdate` | src/backlight.rs:274-296 | a failure shows red at once and asks for a report exactly when the last one was thirty seconds ago or never |
| `Backlight.BacklightController.Retarget` | src/backlight.rs:208-216 | a new target starts a ramp from the level interpolated now |
| `Backlight.BacklightController.Advance` | src/backlight.rs:225-238 | the level due is written, or nothing changes |
| `Backlight.BacklightController.UpdateNow` | src/backlight.rs:187-242 | one tick, exactly: when the device counts as available, the level written, the ramp begun, kept or ended, when red still waits, and when a failure is reported |
| `Backlight.StuckOnlyInPassing` | src/backlight.rs:208-242 | a tick that succeeds leaves a target nothing will write exactly when a new target is met in passing by a level never written |
| `Backlight.TargetMetInPassing` | src/backlight.rs:208-242 | two ticks of a new controller that end with a target no tick will write |
| `Backlight.Hold` | src/backlight.rs:187-242 | ticks holding one policy on a device that answers all succeed, do not disturb the ramp and end at the target in the colour asked for |
| `CaptureProtocol.BigEndianRoundTrips` | src/capture.rs:519-531 | four bytes and a length determine each other |
| `CaptureProtocol.BigEndianBytes` | src/capture.rs:519-531 | the most significant byte comes first |
| `CaptureProtocol.FramingIsExact` | src/capture.rs:525-536 | a frame is taken exactly when the input starts with one |
| `CaptureProtocol.EncodeProtocol` | src/capture.rs:496-523 | refused exactly when a JSON part is too long for its frame; otherwise the bytes parse back to the snapshot if and only if it is acceptable |
| `CaptureProtocol.ParsedIsAcceptable` | src/capture.rs:177-213 | what parses is acceptable and is the whole input: frame, picture, frame |
| `CaptureProtocol.ValidityMeans` | src/capture.rs:425-460 | a plain file with one link, the permissions named, one byte to eight mebibytes and a digest of 64 lower-case hexadecimal digits |
| `CaptureProtocol.AcceptableStreamParses` | src/capture.rs:177-213 | any framing of an acceptable snapshot parses to it |
| `CaptureProtocol.EncodedParsesBackExactly` | src/capture.rs:177-523 | what was encoded parses back to itself if and only if it is acceptable |
| `CaptureProtocol.ReencodingIsStable` | src/capture.rs:177-523 | what was parsed encodes and parses to the same snapshot |
| `CaptureProtocol.DisagreementIsChanged` | src/capture.rs:199-206 | with a picture of the announced size, the answer is a change exactly when all parts are well formed but disagree |

## Left out

- StableRelease.Backend.Do: the three-way outcome stands for the GitHub and git subprocesses behind the backend; identities, timestamps and record files are not modelled, and neither are creating and verifying the draft.
- StableRelease.PublishVerifiedDraft: third parties that change the release or the tag during a run are not modelled; messages are told apart, their wording is not.
- AssetInventory.FingerprintTextIsCanonical: states equality of the text that is hashed, not of the hash; JSON field types beyond a missing or malformed asset are one failure.
- NightMode.Display: a zone is two functions; within two local dates of a change that skips or repeats a date a night outside the window may be missed, only what the window says and `NightMode.ShownNightIsNight` hold there; the range of the calendar library other than its first and last second is not modelled.
- Installer.Installer.PerformPhase: the twelve backend operations are reduced to an answer and its checks; hostnames, timeouts and status text are not modelled.
- Installer.Installer.SaveTarget: a durable write is one atomic step; JSON, permissions and hex shapes of the records are not modelled.
- EnrichmentCache.EnrichmentCache.Resolve: the plausibility of a route for an aircraft's position is a given function.
- FooterSearch.BestOrderedRows: widths are reals measured by a given non-negative function; rounding of 32-bit floats is not modelled.
- FooterProgram.LayoutProgramFooter: the words for a reading and for a time of day are given functions.
- FooterLayout.FitWithEllipsis: glyph rasterisation is replaced by the same width function.
- BootConfig.SelectHyperpixelOverlay: locking, backups and the atomic replacement of the file are not modelled.
- RuntimeModel.CommitKeepsCoherence: the unguarded recorders (`record_aircraft`, `record_adsb_error`, `record_enrichment_if_aircraft`, `record_environment_if_location`, `record_environment_error_if_location`) are not modelled, no worker uses them; coordinates are reals, so NaN is excluded.
- RuntimeModel.RuntimeModel.PersistAndRecordSolarScheduleIfCurrent: the cache file is reduced to whether it was written and whether that succeeded.
- RuntimeWorkers.AdsbWorker.Pass: the channel and shutdown are reduced to whether the worker is stopped before or after the fetch, and a wait to its length; the weather, solar and flight-data workers appear only through their commits.
- RuntimeWorkers.ParseAircraft: a record is reduced to whether it has a position, whether it is on the ground, and the aircraft it describes; JSON number and string handling is not modelled.
- FrameCache.PlaneRadarApp.Step: a frame is the data the rasterisers read; touch recognition, the debug frame, shutdown and the setting's schema version are not modelled; a date is its day number, so the wording of date and time is not modelled.
- Ownership.CheckOwnership: the hex shape of digests, the absolute shape of paths and the semantic-version shape of release directories are not modelled; a path is one of the names of the program, a release, something else below the releases, or any other.
- Activation.Target.Activate: every file is taken to be a plain one with one link and root's, but for the settings, which pass their own check and belong to root or to the service; directories, flushing, the ELF check of the artifact and something other than a plain file at a path to be written are not modelled; digests and file texts are given functions.
- Backlight.BacklightController.UpdateNow: reading and writing the device files is reduced to what the device answers in one tick.
- CaptureProtocol.ParsedIsAcceptable: JSON and SHA-256 are given functions; publishing and polling the picture file are not modelled.
- HTTP, TLS, SSH, systemd, apt, driver scripts, the web pages, SDL, pixel drawing, great-circle geometry and route confidence are not part of this model.
- Settings validation, geocoding, airport data, touch gestures, preflight and smoke tests would only add single-branch members.
