# Avorelo verification

A Dafny model of the parts of Avorelo that change a user's repository or decide what leaves it, with proofs about
whole runs of them. `dafny verify dfyconfig.toml` checks everything.

| part | modules | main results |
|---|---|---|
| Claude Code hook installer | `JsonObjects`, `HookSettings`, `HookInstaller`, `HookRuns`, `HookRoundTrip`, `ForeignHooks` | backups are clean in every run; exact conditions, for all commands and every clock, under which activations and uninstall give the settings file back, and under which they keep all foreign hooks; install is exact and idempotent |
| Recursion guard | `RecursionGuard` | what a whole tree of nested hook calls returns, and that the flag never sticks |
| Public export | `SourceTree`, `ExportPlan`, `ExportChecks`, `ExportWriter`, `PublicExport` | the walk is complete and exact, deny wins in the plan, a written export keeps to the policy if and only if the policy wants four fixed names, the manifest agrees with the destination if and only if two names are not included, the outcome does not depend on listing order |
| Managed instruction block | `ManagedBlock`, `RunEntryBlock`, `KeptText` | refresh, create and append; a second call reports unchanged if and only if the markers were settled; the exact files of which any number of calls keeps the text outside the markers |
| Activation | `Repository`, `SafeRepairs`, `RunEntry`, `RunEntryTwice`, `ActivationReports` | retries converge, a further run does nothing, repairs and run entry commute, the second run entry changes nothing if and only if the markers were settled; the reports agree with what changed |
| DCO checker | `CommitLog`, `SignOff` | print/parse round trip, one meaning for every way to match the trailer, verdicts |
| Smaller pieces | `SiteText`, `SiteLaws`, `AdapterRegistry`, `FireLog` | laws that determine the prose stripper, its fixed points, unique stable ranking, partition, counts and fold laws |
| Shared | `Text`, `Collections`, `StringOrder`, `StableSort` | searching and splitting, mapping, string order, sorting with a unique result |

Code that changes state step by step is a class or a method with loops, proved equal to a function of its inputs and
its old state; the lemmas are about those functions. The lemmas on runs (`HookRuns`, `HookRoundTrip`) step through the same functions
that the methods of `HookTarget` are proved to compute, so they speak of every sequence of method calls.

## How things are represented

- JSON is modelled at value level: a settings file is unparseable bytes, or an object with ordered keys. Hook groups are
  kept whole, because a group counts as Avorelo's as soon as one of its entries matches.
- What a predicate or function of the model means is stated a second time, in words that do not go through it: lemmas with
  names in `Meaning`, `InFull`, `InOrder` or `Reported`, `ForeignHooks`, `SiteLaws`, and the postconditions that the methods
  give beside the one that names their specification.
- Strings are sequences of Unicode scalar values; the order of JavaScript's `<` and `sort()` (UTF-16 code units) is
  defined on them by `StringOrder.Rank`.
- A regular expression that the code spells out (the hook recogniser, the sign-off trailer, the email shape, the five
  prose passes) is modelled concretely: as a predicate on whole matches, and as a function that finds the match, with
  lemmas tying the two together. Regular expressions that come from policy files are parameters.
- Clock readings, failing file system calls (`fails`), directory listings, hashing, JSON printing, detection and install
  results, and `JSON.parse` of log lines are parameters, so each result holds for all of them.
- `Array.prototype.sort` is the function `StableSort.Sort`; `StableSort.StableArrangementUnique` shows that any stable
  sort gives the same result.

## Where the code and its documentation disagree

The model follows the code.

- That any number of activations and then uninstall leave all foreign hooks in place
  (`src/avorelo/adapters/claude-code/index.ts:118-122`) does not hold of every state. `HookRoundTrip.ForeignHooksKept` is
  exact for all commands and every clock, and `HookRoundTrip.RecognisedKeepsForeign` says what it comes to when all commands
  mention avorelo: the promise holds exactly when the first activation takes a backup that sorts behind the stored ones, or
  there is no stored one, or the last of them has the foreign hooks of the current file. Two runs that
  lose hooks: one was added by hand between two activations (`HookRoundTrip.HookAddedBetweenActivationsIsLost`), and the
  clock was set back, which loses the whole file (`HookRoundTrip.ClockSetBackLosesFile`).
- That the last backup name is the most recent one (`index.ts:130-134`) depends on the length of the time stamps;
  `HookRuns.NewestByStringSort` is exact, `HookRuns.RolloverSortsLast` shows that it fails whenever the stamps gain a digit,
  and `HookRuns.ShorterStampSortsLast` is the case of September 2001.
- The reason code tells whether a backup was taken (`index.ts:96`) only for a file that is missing or parses without Avorelo
  groups: `HookInstaller.ReasonCodeTellsBackup` is exact. `HookInstaller.ActivatedFileMisreported` and
  `HookInstaller.UnparseableFileMisreported` are the two ways in which it misleads.
- That run entry is idempotent (`src/avorelo/capabilities/activation/activation-run-entry.ts:1-3`) fails for files with a
  marker alone or with the end marker first; `ManagedBlock.SecondCallUnchanged` is exact.
- That content outside the markers is kept (the same lines) fails only for files with a start marker and no end marker, from
  the second call on, and there exactly when the text from that marker on is not a beginning of the block:
  `KeptText.OutsideKept` is exact for every number of calls, and `ManagedBlock.StrayStartSwallows` says what is lost. With
  the end marker first the file grows without bound (`ManagedBlock.BackwardGrowsForever`), but nothing is lost.
- The denylist, the allowlist and the list of paths that must never appear govern the plan, but `package.json`,
  `docs/project-history.md`, the mode's own file and the manifest are in every export, whatever those lists say
  (`tools/create-public-export.ts:578-618`): `PublicExport.UnwantedInExport` and `PublicExport.KeepsToPolicy` are exact, and
  `PublicExport.ForbiddenPathExported` is an export of a forbidden path.
- The manifest is meant to describe the export (`tools/create-public-export.ts:27-28`), but a final export whose source
  includes a `LICENSE` lists that path twice and counts one file too many, as the repository's own
  `PUBLIC-EXPORT-MANIFEST.json:22-23` and `PUBLIC-EXPORT-MANIFEST.json:5` show. `ExportWriter.ManifestAgrees` gives the exact
  condition, `ExportWriter.ModeFileListedTwice` what the manifest then holds, and `ExportWriter.LicenseListedTwice` an
  instance.

## Model

| member | source | states |
|---|---|---|
| HookSettings.BuiltCommandRecognised | src/avorelo/adapters/claude-code/index.ts:24-32 | for every base and lifecycle event, the command that is built matches the recogniser if and only if its base mentions avorelo in any letter case |
| ForeignHooks.RecognisedCommands | src/avorelo/adapters/claude-code/index.ts:30-32 | for every command: it is recognised if and only if, up to letter case, it is some text, "avorelo", some text, "lifecycle-hook" and some text |
| ForeignHooks.BasesThatName | src/avorelo/adapters/claude-code/index.ts:24-32 | a base mentions avorelo if and only if, up to letter case, it has "avorelo" in it |
| ForeignHooks.LetterCase | src/avorelo/adapters/claude-code/index.ts:32 | letter case is that of the twenty-six letters and of nothing else |
| ForeignHooks.RecognisedGroups | src/avorelo/adapters/claude-code/index.ts:32 | a group is recognised if and only if one of its entries has such a command |
| ForeignHooks.ForeignGroups | src/avorelo/adapters/claude-code/index.ts:91 | filtering keeps each other group as often as it stood there, and none of the recognised ones |
| ForeignHooks.InstallKeeps | src/avorelo/adapters/claude-code/index.ts:88-95 | an install takes no group without such a command from any event |
| ForeignHooks.NotTakenAway | src/avorelo/adapters/claude-code/index.ts:118-157 | after any activations and an uninstall that restores nothing, every group without such a command is still under its event |
| ForeignHooks.ConfigInFull | src/avorelo/adapters/claude-code/index.ts:34-43 | the six groups in full: the events in order, one command each, and the matcher on the two tool events only |
| HookSettings.InstalledExactly | src/avorelo/adapters/claude-code/index.ts:88-95 | each lifecycle event ends with its foreign groups in their old order and then exactly one built group; other events, settings and the order of keys are unchanged, and only missing keys are added |
| HookSettings.InstalledIdempotent | src/avorelo/adapters/claude-code/index.ts:88-95 | installing twice with one recognised command gives the settings of installing once |
| HookSettings.InstalledRecognised | src/avorelo/adapters/claude-code/index.ts:76-95 | right after an install the backup guard sees the settings as activated if and only if the command base mentions avorelo |
| HookSettings.StrippedExactly | src/avorelo/adapters/claude-code/index.ts:140-149 | stripping leaves no Avorelo group and keeps all foreign groups, keys and other settings, in order |
| HookSettings.StrippedCleanUnchanged | src/avorelo/adapters/claude-code/index.ts:140-149 | stripping settings without Avorelo groups is the identity |
| HookInstaller.HookTarget.BuildHookConfig | src/avorelo/adapters/claude-code/index.ts:34-43 | the loop yields one group for each of the six events, in order, with the matcher on the two tool events only |
| HookInstaller.HookTarget.InstallHooks | src/avorelo/adapters/claude-code/index.ts:45-97 | the new settings and backups and the report, for every old state; refused, with nothing changed, for the home directory, inside the global .claude, and without approval, in this order |
| HookInstaller.GoesAhead | src/avorelo/adapters/claude-code/index.ts:45-58 | an install goes ahead if and only if it is approved and the target is neither the home directory nor its .claude nor inside that |
| HookInstaller.ReportedBackup | src/avorelo/adapters/claude-code/index.ts:76-86 | the reported backup name is the one under which the old file is stored, and without one the backups are unchanged |
| HookInstaller.ReasonCodeTellsBackup | src/avorelo/adapters/claude-code/index.ts:96 | the reason code says whether a backup was taken if and only if the file is missing or parses without Avorelo groups |
| HookInstaller.ActivatedFileMisreported | src/avorelo/adapters/claude-code/index.ts:96 | on every activated file a backup is reported that was not taken |
| HookInstaller.UnparseableFileMisreported | src/avorelo/adapters/claude-code/index.ts:96 | on every unparseable file the backup that was taken is not reported |
| HookInstaller.HookTarget.Uninstall | src/avorelo/adapters/claude-code/index.ts:123-157 | restores the backup with the greatest name, whatever the listing order, then strips; reason codes for all cases |
| HookInstaller.HookTarget.StripHooks | src/avorelo/adapters/claude-code/index.ts:143-148 | the loop over the events filters exactly the events that are present |
| HookInstaller.HookTarget.ValidateInstall | src/avorelo/adapters/claude-code/index.ts:101-116 | the three outcomes, with the missing events in order and the problem in words |
| HookInstaller.MissingMeaning | src/avorelo/adapters/claude-code/index.ts:110-114 | the missing events are exactly those without a recognised group, in order |
| HookInstaller.LastSortedIsNewest | src/avorelo/adapters/claude-code/index.ts:132-134 | for any listing of the folder, the last name after filtering and sorting is the greatest backup name |
| HookInstaller.OnlyBackupsRestored | src/avorelo/adapters/claude-code/index.ts:132 | only names that begin with "settings-" are restored, and there is none only if no name does |
| HookRuns.BackupInvariant | src/avorelo/adapters/claude-code/index.ts:76-86 | over every run of installs, uninstalls and arbitrary outside rewrites that starts without backups, each stored backup is unparseable or has no Avorelo group |
| HookRuns.NewestByStringSort | src/avorelo/adapters/claude-code/index.ts:132-134 | for t1 < t2 the backup of t1 sorts before that of t2 if and only if t1, padded with zeros to the length of t2, is at most t2; always so for equally many digits |
| HookRuns.RolloverSortsLast | src/avorelo/adapters/claude-code/index.ts:83 | for every number of digits, the first backup with one digit more sorts before the last one without |
| HookRuns.ShorterStampSortsLast | src/avorelo/adapters/claude-code/index.ts:83 | so for the stamps 999999999999 and 1000000000000 |
| HookRoundTrip.RoundTrip | src/avorelo/adapters/claude-code/index.ts:118-157 | from every state with clean backups, which every reachable state is, for all commands and every clock: any positive number of activations and then uninstall give back the settings file if and only if it existed without Avorelo groups (or did not parse) and what is restored is the backup of the first activation, or an older one of the same content |
| HookRoundTrip.ForeignHooksKept | src/avorelo/adapters/claude-code/index.ts:118-157 | likewise, every foreign group under every event is kept, in order, if and only if every command is recognised, when there is no backup to restore, and otherwise what is restored is the backup of the first activation, or an older one with the same foreign groups |
| HookRoundTrip.AfterRoundTrip | src/avorelo/adapters/claude-code/index.ts:129-149 | what uninstall makes of the file, by the activation whose backup it restores |
| HookRoundTrip.NamesAre | src/avorelo/adapters/claude-code/index.ts:76-86 | the backup names after any activations: the old ones, and the stamps of the first activation if the file needs a backup and of each later one if the command before was not recognised |
| HookRoundTrip.OtherEventsUntouched | src/avorelo/adapters/claude-code/index.ts:140-149 | for all commands, when nothing is restored, all groups under events outside the lifecycle stay, whatever they look like |
| HookRoundTrip.RecognisedRoundTrip | src/avorelo/adapters/claude-code/index.ts:118-157 | with commands that all mention avorelo, whatever the clock: the file comes back if and only if it needs a backup, and no stored name sorts behind the first activation's or the last stored backup has the same content |
| HookRoundTrip.RecognisedKeepsForeign | src/avorelo/adapters/claude-code/index.ts:118-157 | with such commands, whatever the clock: the foreign hooks are kept if and only if the file needs a backup and it sorts last, or there is no stored backup, or the last stored one has the same foreign groups |
| HookRoundTrip.ClockAscends | src/avorelo/adapters/claude-code/index.ts:83 | a clock that does not go back, with stamps of equally many digits, gives backup names that ascend |
| HookRoundTrip.RoundTripInOrder | src/avorelo/adapters/claude-code/index.ts:118-157 | what the condition comes to with ascending names, for all commands: the file needs a backup and every command but the last mentions avorelo |
| HookRoundTrip.ForeignHooksKeptInOrder | src/avorelo/adapters/claude-code/index.ts:118-157 | likewise for the foreign hooks, by whether the file needs a backup and whether one is stored |
| HookRoundTrip.OlderBaselineReturns | src/avorelo/adapters/claude-code/index.ts:129-138 | whatever the clock, when the file needs no backup or the one taken does not sort last, uninstall returns to the last stored backup |
| HookRoundTrip.HookAddedBetweenActivationsIsLost | src/avorelo/adapters/claude-code/index.ts:118-157 | a run, for every recognised command, every foreign group and any two times, in which the group is lost |
| HookRoundTrip.ClockSetBackLosesFile | src/avorelo/adapters/claude-code/index.ts:83 | a run, for any two contents that need a backup and a second stamp that is smaller, in which the second content is lost |
| HookRuns.UninstallLeavesNoAvorelo | src/avorelo/adapters/claude-code/index.ts:118-157 | after uninstall no Avorelo group is left, in any state whatever |
| HookRuns.UninstallIdempotent | src/avorelo/adapters/claude-code/index.ts:118-157 | a second uninstall changes nothing, in any state whatever |
| HookRuns.InstallIdempotent | src/avorelo/adapters/claude-code/index.ts:56-97 | activating again with the same recognised command changes neither settings nor backups |
| HookRuns.InstallValidates | src/avorelo/adapters/claude-code/index.ts:101-116 | after an install validation finds every event if the command mentions avorelo, and misses every event otherwise |
| RecursionGuard.HookProcess.HandleLifecycleHook | src/avorelo/adapters/claude-code/index.ts:166-228 | for every tree of nested calls, in words: a call under the flag is allowed, with its own reason code, and leaves the flag; otherwise all nested calls are skipped and the flag is cleared, also on a throw; events other than PreToolUse are allowed with exit code 0, and every event's verdict, exit code, reason codes, classes and correction are given |
| RecursionGuard.OutermostAnswers | src/avorelo/adapters/claude-code/index.ts:172-224 | the answer of every outermost call: when it throws, and each of its fields by event |
| RecursionGuard.SkipIsSkip | src/avorelo/adapters/claude-code/index.ts:168-170 | the answer of every skipped call |
| RecursionGuard.NestedCallsByEvent | src/avorelo/adapters/claude-code/index.ts:176-221 | which work, and so which nested calls, each event causes, the session first |
| RecursionGuard.ExitCodeMatchesVerdict | src/avorelo/adapters/claude-code/index.ts:191-224 | the exit code is 0 if and only if the verdict is allow |
| RecursionGuard.SessionOnlyTightens | src/avorelo/adapters/claude-code/index.ts:191-204 | a tool is allowed if and only if the gate allows it and the session asks for no approval; other verdicts of the gate stand, with exit code 2 |
| RecursionGuard.HookProcess.HandleInTurn | src/avorelo/adapters/claude-code/index.ts:166-228 | of handler calls made one after another none is skipped, each gives its own answer, however many before it threw, and the flag ends clear |
| ManagedBlock.Refresh | src/avorelo/capabilities/activation/activation-run-entry.ts:64-84 | with both markers, start first: all text before the start and behind the end marker is kept around the current block, and a second call reports unchanged |
| ManagedBlock.RefreshTrims | src/avorelo/capabilities/activation/activation-run-entry.ts:72-79 | white space around the block given to a call is dropped when it replaces another |
| ManagedBlock.CreateOrAppend | src/avorelo/capabilities/activation/activation-run-entry.ts:54-93 | from a missing file or a text with neither marker: the text and the action in full, with one empty line between the old text and the block; the block's markers are the first in the result, and the next call reports unchanged |
| ManagedBlock.SecondCallUnchanged | src/avorelo/capabilities/activation/activation-run-entry.ts:46-94 | for every file, the second call reports unchanged if and only if the file was missing, had neither marker, or had both with the start first |
| ManagedBlock.StrayStartSwallows | src/avorelo/capabilities/activation/activation-run-entry.ts:64-92 | with a start marker alone, the second call replaces all text from it to the appended block |
| ManagedBlock.StrayEndTurnsBackward | src/avorelo/capabilities/activation/activation-run-entry.ts:86-92 | with an end marker alone, the first call leads to a file whose end marker comes first |
| ManagedBlock.BackwardGrows | src/avorelo/capabilities/activation/activation-run-entry.ts:67-80 | with the end marker first, a call inserts the block, repeats the text between the markers and leaves the end marker first |
| ManagedBlock.BackwardGrowsForever | src/avorelo/capabilities/activation/activation-run-entry.ts:67-80 | the length of that file after any number of calls: it grows by the same positive amount each time |
| ManagedBlock.NoOverlap | src/avorelo/capabilities/activation/activation-run-entry.ts:8-9 | occurrences of the two markers never overlap, in any text |
| RunEntryBlock.RunEntryBlockIsABlock | src/avorelo/capabilities/activation/activation-run-entry.ts:8-29 | the real markers and block meet the hypothesis of all the lemmas above |
| RunEntryBlock.RunEntrySecondCall | src/avorelo/capabilities/activation/activation-run-entry.ts:46-94 | the exact condition for the real block |
| KeptText.OutsideKept | src/avorelo/capabilities/activation/activation-run-entry.ts:46-94 | for every file and every number of calls: the text outside the markers stays the beginning and the end of the file if and only if there are fewer than two calls, or no start marker, or an end marker, or the text from the start marker on is a beginning of the block |
| KeptText.RunEntryKeepsText | src/avorelo/capabilities/activation/activation-run-entry.ts:46-94 | the same for the real block and markers |
| KeptText.StartAloneBecomes | src/avorelo/capabilities/activation/activation-run-entry.ts:64-92 | the file with a start marker alone after any number of calls from the second on |
| KeptText.BackwardKept | src/avorelo/capabilities/activation/activation-run-entry.ts:67-80 | with the end marker first, the texts before and from the start marker stay at the two ends of the file, after any number of calls |
| KeptText.EndAloneKept | src/avorelo/capabilities/activation/activation-run-entry.ts:67-92 | with an end marker alone the old text stays the beginning of the file, after any number of calls |
| KeptText.LoneStartSurvives | src/avorelo/capabilities/activation/activation-run-entry.ts:64-92 | a file that is just the start marker has no end marker and is still kept by any number of calls |
| Repository.Workspace.Mkdir | src/avorelo/capabilities/activation/activation-repair.ts:31-37 | makes the directory and its ancestors, or fails and changes nothing |
| Repository.Workspace.Write | src/avorelo/capabilities/activation/activation-repair.ts:49-60 | replaces one file, or fails and changes nothing |
| SafeRepairs.RunSafeRepairs | src/avorelo/capabilities/activation/activation-repair.ts:15-66 | files, directories and the full list of repair records, for any set of failing calls |
| SafeRepairs.RepairGitignore | src/avorelo/capabilities/activation/activation-repair.ts:74-102 | the record of the branch taken and the new text, for every old .gitignore |
| SafeRepairs.RepairedAt | src/avorelo/capabilities/activation/activation-repair.ts:15-66 | what a run with any failing calls leaves at each path: it touches only its directories, .gitignore and the contract |
| SafeRepairs.GitignoreOnce | src/avorelo/capabilities/activation/activation-repair.ts:86-98 | a repaired .gitignore needs no repair and starts with the old text |
| SafeRepairs.GitignoreMeaning | src/avorelo/capabilities/activation/activation-repair.ts:68-98 | a repair is needed if and only if the file does not mention Avorelo; then the text is given in full, and .avorelo/ is one of its lines |
| SafeRepairs.AllThere | src/avorelo/capabilities/activation/activation-repair.ts:18-60 | after a clean run the eight directories, the .gitignore and the contract are there, and an old contract is kept |
| SafeRepairs.GitignoreKept | src/avorelo/capabilities/activation/activation-repair.ts:96-101 | after any run the old .gitignore is a prefix of the new one |
| SafeRepairs.RetryConverges | src/avorelo/capabilities/activation/activation-repair.ts:15-66 | a run with any failing calls and then a clean run leave what one clean run leaves, up to the contract's time stamp |
| SafeRepairs.FurtherRunAppliesNothing | src/avorelo/capabilities/activation/activation-repair.ts:15-66 | after a clean run every repair is not needed and nothing changes, even if calls would fail |
| RunEntry.InstallBlock | src/avorelo/capabilities/activation/activation-run-entry.ts:46-94 | the new repository and the reported surface for every branch and every failing call |
| RunEntry.InstallRunEntry | src/avorelo/capabilities/activation/activation-run-entry.ts:96-175 | the new repository, the surfaces and advisories in order, and when it counts as installed |
| RunEntry.InstallCursorRule | src/avorelo/capabilities/activation/activation-run-entry.ts:113-142 | the rule file is created only where .cursor exists and it does not |
| RunEntry.EntryAt | src/avorelo/capabilities/activation/activation-run-entry.ts:96-175 | what a run leaves at each path: it touches only four files and two directories |
| RunEntry.RepairsCommuteWithRunEntry | src/avorelo/capabilities/activation/activation-run-entry.ts:96-175 | repairs and run entry in either order leave the same directories and the same text at every path, whatever calls fail |
| RunEntryTwice.UpdateChangesText | src/avorelo/capabilities/activation/activation-run-entry.ts:64-92 | a call on an existing file reports unchanged if and only if it leaves the text as it was |
| RunEntryTwice.RunEntryIdempotent | src/avorelo/capabilities/activation/activation-run-entry.ts:96-175 | a second run leaves every directory and every file but its own contract as they are if and only if the markers in CLAUDE.md, and in AGENTS.md if present, were settled |
| ActivationReports.SurfaceTellsTheTruth | src/avorelo/capabilities/activation/activation-run-entry.ts:46-94 | for every old file and every failing call: created is reported if and only if the file appeared, updated if and only if an existing file changed, and unchanged or blocked if and only if it did not change |
| ActivationReports.NoChangeUnreported | src/avorelo/capabilities/activation/activation-repair.ts:15-102 | no repair is reported as applied if and only if the run left every directory and file as it was, whatever calls fail |
| ActivationReports.SurfaceReasons | src/avorelo/capabilities/activation/activation-run-entry.ts:46-94 | the reason given with every action of an instruction file |
| ActivationReports.SurfacesReported | src/avorelo/capabilities/activation/activation-run-entry.ts:96-142 | the surfaces of a run, in order, by what was there before |
| ActivationReports.AdviceReported | src/avorelo/capabilities/activation/activation-run-entry.ts:108-147 | the advisories of a run, in order, by what was there before |
| ActivationReports.CleanRunInstalls | src/avorelo/capabilities/activation/activation-run-entry.ts:165 | a run in which nothing fails counts as installed |
| ActivationReports.RecordsInOrder | src/avorelo/capabilities/activation/activation-repair.ts:29-63 | ten repair records, in order, with identifiers, labels and paths, and a reason exactly on failure for the directories |
| SourceTree.WalkAll | tools/create-public-export.ts:139-149 | the recursive method appends the walked paths, in listing order, to what the accumulator holds |
| SourceTree.WalkFinds | tools/create-public-export.ts:139-149 | every file with no ancestor in HARD_SKIP_DIRS is found under its path |
| SourceTree.WalkIsSound | tools/create-public-export.ts:139-149 | everything found is such a file |
| SourceTree.WalkFindsOnce | tools/create-public-export.ts:139-149 | with distinct names in each directory every path is found once |
| SourceTree.ListingOrder | tools/create-public-export.ts:139-149 | trees that differ only in listing order, at any depth, hold the same files |
| SourceTree.SameLeaves | tools/create-public-export.ts:139-149 | trees with the same files give the same walk up to order |
| ExportPlan.MatchesAllowlist | tools/create-public-export.ts:151-158 | true if and only if some file rule has the path, or the path is the directory of some tree rule, a slash, and a rest |
| ExportPlan.DeniedByPath | tools/create-public-export.ts:160-178 | the category of the first prefix rule that names the path or a directory above it, or else of the first pattern that matches it and has no exception that it begins with |
| ExportPlan.AllowedMeaning | tools/create-public-export.ts:151-158 | what the allowlist admits, without reference to string prefixes |
| ExportPlan.DeniedMeaning | tools/create-public-export.ts:160-178 | what the denylist denies, likewise |
| ExportPlan.GeneratedMeaning | tools/create-public-export.ts:488-490 | a generated file is planned for if and only if a rule declares it for the mode |
| ExportPlan.PrefixDenialCoversDescendants | tools/create-public-export.ts:164-169 | a path denied by a prefix takes everything below it along |
| ExportPlan.BuildPlan | tools/create-public-export.ts:468-501 | the loop computes the plan of the sorted paths |
| ExportPlan.ClassesPartition | tools/create-public-export.ts:475-486 | included, dropped and excluded together are the walked paths, with multiplicity |
| ExportPlan.ClassMeaning | tools/create-public-export.ts:475-486 | the class of each path in both directions: deny wins over allow |
| ExportPlan.CategoryMeaning | tools/create-public-export.ts:475-480 | an excluded path carries the category of the first rule that denies it |
| ExportPlan.AllowlistGrowth | tools/create-public-export.ts:475-486 | growing the allowlist changes nothing about excluded paths and only adds to the included ones |
| ExportPlan.DenylistGrowth | tools/create-public-export.ts:475-486 | growing the prefix denylist only shrinks what is included |
| ExportPlan.ClassesSorted | tools/create-public-export.ts:475-486 | each of the three classes lists its paths in ascending order |
| ExportPlan.ClassesWalked | tools/create-public-export.ts:475-486 | and only paths that were walked |
| ExportPlan.PlanIgnoresOrder | tools/create-public-export.ts:468-501 | the plan does not depend on the order of the walk |
| ExportChecks.ScanContent | tools/create-public-export.ts:193-228 | the loops collect, per file and rule in order, one hit with a sample of at most 40 characters |
| ExportChecks.VerifyPlan | tools/create-public-export.ts:503-539 | the five checks contribute their errors in order |
| ExportChecks.PassesExactlyWhen | tools/create-public-export.ts:503-539 | there are no errors if and only if no included path is forbidden or inside a forbidden directory, none has docs/legal in it, every expected path is included or generated, no symlink escapes, and no text of at most 8000000 bytes violates a rule that the path is not exempt from |
| ExportChecks.ScanMeaning | tools/create-public-export.ts:204-226 | the scan tells exactly the violations, each with its file, rule, category and the first forty characters of what was found |
| ExportChecks.ForbiddenTold | tools/create-public-export.ts:507-513 | each forbidden path that the plan has a file for is told, with the first such file |
| ExportChecks.MissingTold | tools/create-public-export.ts:520-526 | exactly the expected paths that are neither included nor generated are told |
| ExportWriter.ExportRun.WriteExport | tools/create-public-export.ts:541-621 | for every plan and every earlier destination: which text stands at every path afterwards, and the manifest entries |
| ExportWriter.WrittenTextAt | tools/create-public-export.ts:561-618 | the text at every path: the manifest, the mode's own file and the rewritten package.json, the rewritten lockfile exactly if it is included, the source's text for other included paths, the history that the export makes if none is included, and nothing else |
| ExportWriter.ManifestMeaning | tools/create-public-export.ts:606-615 | the commit, mode, dropped count and category counts of the manifest |
| ExportWriter.CountsAreRight | tools/create-public-export.ts:601-604 | the summary counts each excluded path once under its category, and has exactly the categories that occur |
| ExportWriter.WritesDistinct | tools/create-public-export.ts:561-598 | no path is written twice if and only if the mode's own file is not included |
| ExportWriter.StrictlySorted | tools/create-public-export.ts:605 | the entries ascend strictly if and only if no path was written twice, and none is lost |
| ExportWriter.ManifestAgrees | tools/create-public-export.ts:541-621 | sorted entries, the file count, the exact set of paths and the hash of each file present all hold if and only if neither the mode's file nor the manifest's own name is included |
| ExportWriter.ModeFileListedTwice | tools/create-public-export.ts:561-618 | for every plan that includes the mode's own file: its path is listed exactly twice, once with the hash of the source's text and once with that of the text that is there, every other path at most once, and the file count exceeds the files beside the manifest by one |
| ExportWriter.LicenseListedTwice | tools/create-public-export.ts:595-612 | a final export of a lone LICENSE counts four files where there are three, and does not agree |
| PublicExport.CreateExport | tools/create-public-export.ts:642-691 | refusal of missing final values, walk, plan, checks, dry run, refusal of the source root and writing in order, and what is reported; only a written export touches the destination |
| PublicExport.WrittenExactlyWhen | tools/create-public-export.ts:642-685 | an export is written if and only if final values are there if needed, the plan has no errors, it is no dry run, and the destination is not the source root |
| PublicExport.Deterministic | tools/create-public-export.ts:27-28 | trees with the same files give the same plan and the same errors, or the same destination and manifest |
| PublicExport.ListingOrderIsIrrelevant | tools/create-public-export.ts:27-28 | the same for trees that differ in listing order at any depth |
| PublicExport.IncludedOnce | tools/create-public-export.ts:468-501 | no path is included twice |
| PublicExport.DestinationMeaning | tools/create-public-export.ts:541-621 | apart from the files that the export makes itself, the destination holds exactly the unskipped files of the tree that are allowed and not denied, with their own text |
| PublicExport.DestinationText | tools/create-public-export.ts:541-621 | every text in the destination from the tree and the policy, at every path |
| PublicExport.DestinationPaths | tools/create-public-export.ts:561-618 | the paths of the destination are the included ones and the fixed names |
| PublicExport.UnwantedInExport | tools/create-public-export.ts:541-621 | a path that is denied or forbidden, or neither allowed nor declared as generated, is in a written export if and only if it is package.json, docs/project-history.md, the mode's own file or the manifest |
| PublicExport.KeepsToPolicy | tools/create-public-export.ts:541-621 | a written export has no unwanted path if and only if none of those four is unwanted |
| PublicExport.ForbiddenPathExported | tools/create-public-export.ts:578 | an export of an empty tree that passes the checks and holds the forbidden package.json |
| PublicExport.ExportAgrees | tools/create-public-export.ts:541-621 | manifest agreement from the tree, if and only if the tree has no included file of the two names |
| CommitLog.GitCommits | tools/check-dco.ts:66-79 | the loop returns the records of all chunks, skips blank ones and throws on a chunk without NUL |
| CommitLog.LogRoundTrip | tools/check-dco.ts:66-79 | for all commits with git's hashes: printing them and parsing the log gives them back if and only if no body holds the record separator |
| CommitLog.RecordMeaning | tools/check-dco.ts:72-77 | a record in general: hash and parents without the white space around them, and all behind the second NUL as body |
| CommitLog.ParentsAnySpacing | tools/check-dco.ts:77 | the parents are the words of their field, whatever white space stands between and around them |
| CommitLog.ChunkSkipped | tools/check-dco.ts:72-75 | a chunk is passed over if and only if it is blank or its hash is missing |
| CommitLog.LogThrows | tools/check-dco.ts:71-77 | parsing throws if and only if some chunk is neither blank nor divided by a NUL |
| SignOff.ReadingsAgree | tools/check-dco.ts:26-36 | every way to read a line by the trailer pattern gives the trimmed name and email that are extracted |
| SignOff.MatchedHasReading | tools/check-dco.ts:26-36 | a line is accepted only if there is such a reading |
| SignOff.ExtractSignoffs | tools/check-dco.ts:29-36 | the loop yields the trailers of the lines, in order |
| SignOff.HasValidSignoff | tools/check-dco.ts:39-44 | true if and only if some trailer has a name and an email-shaped address |
| SignOff.VerdictsAreRight | tools/check-dco.ts:20-62 | verdicts are in order, and a commit passes if and only if it has two or more parents or some line of it reads as a valid trailer; a reason is given exactly on failure |
| SignOff.ReasonMeaning | tools/check-dco.ts:50-60 | the reason of every failure, from the first line that reads as a trailer, or that there is none |
| SignOff.TrailersInOrder | tools/check-dco.ts:29-36 | the sign-offs are those of exactly the lines that read as trailers, in order |
| SignOff.LinesMeaning | tools/check-dco.ts:31 | the lines are what stands between the line breaks of the body |
| SignOff.EmailMeaning | tools/check-dco.ts:27 | an address is three words without white space or "@", with "@" and a full stop between them |
| SignOff.FallbackUnreachable | tools/check-dco.ts:54-58 | the reason "malformed sign-off" is never given |
| SiteText.TagLenSpec | tools/site-truth.ts:28 | the tag matcher finds a tag if and only if some prefix of the text is one |
| SiteText.EntityLenSpec | tools/site-truth.ts:29 | a prefix of a text is an entity if and only if it is the one that the matcher finds |
| SiteText.SpaceLenSpec | tools/site-truth.ts:30 | the white-space matcher takes the whole run |
| SiteText.ElementLenSpec | tools/site-truth.ts:26-27 | the lazy matcher takes the shortest element if there is one |
| SiteText.ProseIsNormal | tools/site-truth.ts:24-31 | for every page no part of the result is a tag or an entity, and each white-space run is one space |
| SiteText.FixedExactlyWhenNormal | tools/site-truth.ts:24-31 | the texts that the stripper leaves alone are exactly the normal ones |
| SiteText.ProseIdempotent | tools/site-truth.ts:24-31 | stripping twice is stripping once |
| SiteLaws.ProseKeepsLaws | tools/site-truth.ts:24-31 | five laws: the first script, then style, then tag, then entity, and any white-space run, is worth one space; and normal texts stay |
| SiteLaws.LawsDetermine | tools/site-truth.ts:24-31 | any function that keeps the laws is the stripper, so they determine its result on every page |
| SiteText.ScriptRemoved | tools/site-truth.ts:26 | the first script element of a page counts as one space, whatever it holds |
| SiteText.StyleRemoved | tools/site-truth.ts:27 | the first style element counts as one space when no script opens before its end |
| AdapterRegistry.DetectAllAdapters | src/avorelo/adapters/registry.ts:31-41 | the loop and the sort give the sorted list of detected adapters |
| AdapterRegistry.DetectedMeaning | src/avorelo/adapters/registry.ts:33-38 | exactly the adapters whose detection succeeds are listed |
| AdapterRegistry.DetectedInOrder | src/avorelo/adapters/registry.ts:32-38 | the detected adapters stand in registry order |
| AdapterRegistry.TierOrder | src/avorelo/adapters/registry.ts:11-16 | the comparison follows the order of the four tiers |
| AdapterRegistry.RankingIsUnique | src/avorelo/adapters/registry.ts:31-41 | a list is the ranking if and only if it descends by tier and keeps ties in registry order |
| AdapterRegistry.GetBestAdapter | src/avorelo/adapters/registry.ts:43-46 | the first of the ranking, or none |
| AdapterRegistry.BestIsFirstOfHighestTier | src/avorelo/adapters/registry.ts:43-46 | the best adapter is the first in registry order of the highest detected tier |
| AdapterRegistry.InstallAll | src/avorelo/adapters/registry.ts:48-68 | the loop sorts the adapters into installed and skipped and collects the warnings |
| AdapterRegistry.InstallPartition | src/avorelo/adapters/registry.ts:48-68 | installed are exactly the adapters whose install succeeds and that are not a generic one beside others, skipped all the rest, by position, and both keep the order |
| AdapterRegistry.WarningsKept | src/avorelo/adapters/registry.ts:57-67 | the warnings are those of the adapters that are not bypassed, one after the other, in order |
| FireLog.SummarizeFireLog | tools/live-activation-dogfood-runner.ts:72-93 | the loop computes the summary, and a raw leak is reported if and only if a class leaked |
| FireLog.SummaryOfConcatenation | tools/live-activation-dogfood-runner.ts:72-93 | the summary of two logs in a row is the pointwise sum and ordered union of their summaries |
| FireLog.PreToolUseIsEventCount | tools/live-activation-dogfood-runner.ts:84-85 | the counter equals the count of that event in the table |
| FireLog.LeakMeaning | tools/live-activation-dogfood-runner.ts:87-91 | a class is reported if and only if it is a raw class of some parsed entry |
| FireLog.LeaksDistinct | tools/live-activation-dogfood-runner.ts:76-92 | no class is reported twice |
| FireLog.CountsMeaning | tools/live-activation-dogfood-runner.ts:77-86 | the total counts the lines that parse, and the two tables, under each name, the lines with that event or verdict |
| StringOrder.SortStringsCanonical | tools/create-public-export.ts:475 | sorting strings depends on the multiset alone |
| StringOrder.LeqIsByUnits | tools/create-public-export.ts:475 | the order of strings is that of their lists of UTF-16 code units |
| StringOrder.DecimalMeans | src/avorelo/adapters/claude-code/index.ts:83 | a numeral stands for its number and has no leading zero |
| StringOrder.NumeralOrder | src/avorelo/adapters/claude-code/index.ts:83 | string order against numeric order of decimal numerals, of any two lengths |
| StableSort.StableArrangementUnique | src/avorelo/adapters/registry.ts:39 | there is only one stable arrangement, so the result does not depend on the sorting algorithm |

## Left out

- PublicExport.Deterministic: names are distinct in each directory and hold no slash, as in a file system.
- RunEntry.RepairsCommuteWithRunEntry: the repository root exists, and every directory has its ancestors, as in a file system; a path that is a file where a directory is needed is not modelled.
- ExportWriter.ExportRun.WriteExport: a path that would have to be a file and a directory at once, such as an included `LICENSE/x` beside the generated `LICENSE`, is not modelled; there the program throws.
- PublicExport.DestinationPaths: for the same reason, holds of exports in which no such path occurs.
- PublicExport.CreateExport: which symbolic links escape and whether a fresh Git repository can be made are parameters.
- FireLog.SummarizeFireLog: the tables are maps, so an event or verdict with the name of an inherited property, such as `constructor` or `toString`, is counted like any other; the program makes a string of it.
- FireLog.SummaryOfConcatenation: likewise.
- JSON text formatting (with the constant generator version of the manifest), ill-typed settings (null, arrays for objects), integer-like keys, `__proto__` and keys that objects inherit, which also concerns the categories of excluded paths; unpaired surrogates.
- Path resolution and real paths (targets and home directories come resolved), symbolic links, and the check for links that leave the repository.
- A write that fails half way, and files that change between a check and the use of its result.
- Error texts of the operating system (one constant stands for them), latency.
- Paths are in POSIX form, so `toPosix` is the identity.
- Policy regular expressions, secret detection, the content of generated and rewritten files, command-line arguments and final-mode values.
- The constants `guardAvailable` and `preflightAvailable`, `updatedToolOutput`, `uninstallAll` and `getAdapterById`, which are constants or only pass values on.
- The dogfood programs, the control router and the static tables of the repository.
