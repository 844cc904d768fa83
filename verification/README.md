# KiteTerm core, modelled in Dafny

KiteTerm is an Electron terminal manager. Each saved workspace opens as a tab.
A tab holds a binary tree of split panes, and every pane runs a shell in a
pseudo-terminal (PTY) owned by the main process. This project models the parts
of KiteTerm whose behaviour is logic rather than presentation, and proves
properties of that model:

- **Pane tree** (`PaneTree`, `Tabs`). This covers the renderer's
  `PaneNode` tree and the operations on it:
  - splitting, with its in-flight guard and its four-pane cap;
  - closing a pane, and closing the split in one direction;
  - the tab status derived from the panes;
  - cycling through tabs, and going to a tab by number.

  Node identity (`===` on tree nodes) is modelled by a node's path from the
  root. The tree is exclusively owned by its tab, so each node sits at exactly
  one path. The asynchronous spawn in the middle of a split separates two
  steps, `SplitStart` and `SplitFinish`.
- **Crash/auto-restart policy** (`Restart`). This is a pure transition function
  over the events: exit, backoff fired, spawn done, stability timer fired,
  Enter, manual restart and tab closed. The 2 s and 30 s timers are flags in the
  state, and their firing is an event.
- **PTY registry** (`Pty`). The main process's map from pane id to its process:
  spawn (kill first, environment cleaning, defaults), write, resize, kill,
  kill-by-workspace-prefix, kill-all, the exit handler, and the delayed
  startup command. A launch's success or failure, and a process's exit, are
  inputs.
- **Workspace store** (`Store`): create, update, delete and reorder on the
  persisted workspace list.
- **Claude metrics** (`Metrics`). This covers:
  - the file-name sanitiser;
  - the tail-follower, which reports only appended lines;
  - the ordering rules of the analytics summary. Rows are ordered by most
    recent activity. The history holds distinct days, ascending.
- **In-window shortcuts** (`Shortcuts`): the key-event classifier, including
  JavaScript's `parseInt` on the key name.
- **Window** (`Window`): validating the saved window position against the
  connected displays, closing to the tray, and the quit sequence.
- **Quick switcher** (`Fuzzy`): the fuzzy matcher.

`Wrappers` (the `Option` type) and `Strings` (decimal rendering, ASCII case
mapping, split/join, substring search) are shared support.

Three behaviours of the code are worth stating plainly, since the model
follows them as written:
- `closePaneById` (src/renderer/index.ts:399-421) always activates the first
  leaf of the surviving sibling. It does so even when the closed pane was not
  the active one.
- A process exit does not cancel the tab's 30 s stability timer. The timer is
  cancelled only by a manual restart, by Enter on a dead pane, and by closing
  the tab. The program's own comment at src/renderer/index.ts:1484 says the
  timer is meant to reset the count once a process has run for 30 s; see
  "## Findings".
- After a split, the new pane becomes active only once its spawn has come
  back (src/renderer/index.ts:368-369). `SplitFinish` activates it whatever
  happened meanwhile, as `setActivePane` (src/renderer/index.ts:211-226) does.

## Model

| member | source | states |
|---|---|---|
| `PaneTree.Leaves` | src/renderer/index.ts:202-205 | `findAllLeaves` lists exactly the leaves, left to right, one per id |
| `PaneTree.FindPath` | src/renderer/index.ts:197-200 | a pane id is found exactly when some leaf carries it; the path leads to that leaf and no earlier leaf carries the id |
| `PaneTree.FindPaneById` | src/renderer/index.ts:197-200 | the search finds a leaf with the id exactly when the id occurs in the tree |
| `PaneTree.UniqueConcat` | src/renderer/index.ts:168-171 | the ids of two leaf lists are distinct exactly when each list's ids are and the lists share none |
| `PaneTree.IdsAround` | src/renderer/index.ts:202-205 | the leaves of a tree are those left of any subtree, the subtree's own, then those right of it |
| `PaneTree.ReplaceAt` | src/renderer/index.ts:375-393 | replacing the node at a path puts the replacement there and keeps the sibling subtree and the split's direction |
| `PaneTree.ReplaceAtFrame` | src/renderer/index.ts:383-393 | replacing one subtree leaves every subtree on a diverging path unchanged |
| `PaneTree.ReplaceAtIds` | src/renderer/index.ts:375-393 | after a replacement the leaf ids are those before, the replacement's, then those after, in order |
| `PaneTree.LeafAtPathInLeaves` | src/renderer/index.ts:202-205 | a leaf reached by a path is among the listed leaves |
| `PaneTree.UniqueLeafPath` | src/renderer/index.ts:197-200 | with distinct ids, two paths to leaves with the same id are the same path, so id lookup and node identity agree |
| `PaneTree.InSubtree` | src/renderer/index.ts:488-492 | a leaf reached by a path is contained in the tree |
| `PaneTree.CloseInNode` | src/renderer/index.ts:494-506 | removal finds a parent split exactly when the tree is a split holding the id; the removed leaf's parent is replaced by its sibling |
| `PaneTree.Without` | src/renderer/index.ts:424-426 | removing an id keeps exactly the other ids |
| `PaneTree.WithoutAbsent` | src/renderer/index.ts:424-426 | removing an id that is not there changes nothing |
| `PaneTree.WithoutConcat` | src/renderer/index.ts:424-426 | removal distributes over concatenation |
| `PaneTree.CloseInNodeIds` | src/renderer/index.ts:494-506 | with distinct ids, removing a pane leaves exactly the other panes, in order, one fewer, still distinct |
| `PaneTree.FindParentSplit` | src/renderer/index.ts:466-486 | a split that is found is an ancestor of the pane with the requested direction |
| `PaneTree.AncestorSide` | src/renderer/index.ts:466-486 | an ancestor split below the root lies on the side whose subtree contains the pane |
| `PaneTree.FindParentSplitDeepest` | src/renderer/index.ts:466-486 | whenever some ancestor split has the direction, one is found, and it is the deepest such ancestor |
| `PaneTree.FindParentSplitNone` | src/renderer/index.ts:466-486 | with no ancestor split in the direction, nothing is found |
| `Tabs.PaneId` | src/renderer/index.ts:172 | a pane id starts with its workspace id followed by a colon, and goes on past it |
| `Tabs.PaneIdInjective` | src/renderer/index.ts:168-172 | pane ids of one workspace differ whenever their indices do |
| `Tabs.StartupPaneIsInitial` | src/renderer/index.ts:538-541 | the ":pane-0" suffix test picks exactly the workspace's initial pane |
| `Tabs.NewTab` | src/renderer/index.ts:646-664 | a new tab has the single active pane `pane-0`, counter 0, and satisfies the layout invariant |
| `Tabs.SplitStart` | src/renderer/index.ts:332-373 | a split is refused exactly while one is in flight, at four panes, or without an active pane; otherwise the new tree is the old one with the active leaf's position replaced by a split of that leaf and a new leaf whose id uses the next counter value |
| `Tabs.SplitStartFrame` | src/renderer/index.ts:362-363 | a split leaves every subtree beside the active pane's position as it was |
| `Tabs.NextIdFresh` | src/renderer/index.ts:345-346 | the next counter value gives an id that no pane and no earlier index carries |
| `Tabs.SplitStartValid` | src/renderer/index.ts:332-373 | a split keeps the layout invariant: distinct issued ids, at most four panes, an active pane |
| `Tabs.SplitIdsNeverRepeat` | src/renderer/index.ts:345-346 | a split never reissues an id issued earlier in the tab |
| `Tabs.SetStatus` | src/renderer/index.ts:508-534 | setting one pane's status changes that leaf only |
| `Tabs.SplitFinish` | src/renderer/index.ts:367-372 | when the spawn returns, the guard is released and the new pane becomes active; the panes are unchanged |
| `Tabs.SplitFinishValid` | src/renderer/index.ts:367-372 | finishing a split whose new pane still exists keeps the layout invariant |
| `Tabs.ClosePane` | src/renderer/index.ts:395-422 | an unknown id does nothing; the only pane closes the tab; otherwise the pane is killed, its sibling takes its parent's place, and the sibling's first leaf becomes active |
| `Tabs.ClosePaneValid` | src/renderer/index.ts:395-422 | closing removes exactly that pane, keeps the order of the others, and keeps the layout invariant |
| `Tabs.CloseSplitDirection` | src/renderer/index.ts:431-464 | the nearest ancestor split in the direction is replaced by the child holding the active pane; the other child's panes are the ones killed; every other subtree and the active pane stay |
| `Tabs.UniqueDropHalf` | src/renderer/index.ts:431-464 | dropping one child's ids keeps the remaining ids distinct |
| `Tabs.CloseSplitDirectionValid` | src/renderer/index.ts:431-464 | the panes before equal the survivors plus the killed panes (at least one killed); the active pane survives; the invariant holds |
| `Tabs.Strongest` | src/renderer/index.ts:801-806 | the chosen status ranks at least as high as every pane's and is one of them |
| `Tabs.TabStatus` | src/renderer/index.ts:800-806 | running iff some pane runs; starting iff none runs and some starts; dead iff every pane is dead; idle iff none runs or starts and some is idle |
| `Tabs.AllDead` | src/renderer/index.ts:804 | the statuses are all dead exactly when every pane is dead |
| `Tabs.JsRem` | src/renderer/index.ts:1561 | JavaScript's `%`: the remainder has the dividend's sign, lies below the divisor in magnitude, is the dividend itself below the divisor, and with the quotient rounded toward zero rebuilds the dividend |
| `Tabs.CycleTab` | src/renderer/index.ts:1557-1563 | next wraps from the last tab to the first, previous from the first to the last; with no active tab, next picks the first tab and previous the second-to-last |
| `Tabs.CycleTabRoundTrip` | src/renderer/index.ts:1557-1563 | cycling forward then back returns to the starting tab |
| `Tabs.GoToTab` | src/renderer/index.ts:1565-1570 | a tab is selected exactly when the index is below the tab count |
| `Restart.EffectiveMax` | src/renderer/index.ts:1474 | `maxRestarts \|\| 3`: a missing or zero setting means three; any other setting is used as it is |
| `Restart.Step` | src/renderer/index.ts:1466-1508 | the count rises only on an exit that schedules a restart, by one, with the pane dead and the backoff armed; otherwise it can only drop, and then to zero; a closed tab stays closed and starts no spawn; a spawn that starts shows the pane as starting |
| `Restart.StepFixed` | src/renderer/index.ts:1466-1508 | the corrected policy cancels the stability timer on exit and otherwise behaves as written |
| `Restart.ExitPolicy` | src/renderer/index.ts:1470-1495 | on exit the pane is dead; the restart is scheduled and counted exactly when auto-restart is on and the count is below the effective maximum, otherwise the pane waits for Enter |
| `Restart.StepKeepsBudget` | src/renderer/index.ts:1474-1475 | no event raises the count past a bound at or above the effective maximum |
| `Restart.ClosedTabDropsRespawn` | src/renderer/index.ts:1478-1479 | a backoff firing after the tab closed spawns nothing |
| `Restart.StabilityResets` | src/renderer/index.ts:1478-1489 | the stability timer armed by an automatic respawn resets the count to zero when it fires |
| `Restart.ManualRestartResets` | src/renderer/index.ts:1222-1240 | a manual restart, and Enter on a dead pane, zero the count and disarm the stability timer |
| `Restart.FixedBudgetHolds` | src/renderer/index.ts:1466-1508 | under the corrected policy a crash loop gets at most the effective maximum of automatic restarts |
| `Restart.AsWrittenBudgetExceeded` | src/renderer/index.ts:1466-1508 | as written, with `maxRestarts = 2`, a crash loop gets three automatic restarts |
| `Restart.AsWrittenTail` | src/renderer/index.ts:1482-1489 | with the count at two and the previous respawn's stability timer still armed, the timer resets the count, so the next exit schedules one more restart |
| `Restart.FixedBudgetExample` | src/renderer/index.ts:1466-1508 | the same events under the corrected policy give two restarts, then the pane waits for Enter |
| `Restart.TabStep` | src/renderer/index.ts:1202-1215 | creating a workspace adds its tab; closing a tab removes exactly that workspace from the map (the map is keyed by workspace id, 666 and 768) |
| `Restart.ClosedTabNeverReturns` | src/renderer/index.ts:1479 | once a workspace's tab is closed, no later event of the same page gives it a tab again, so a pending backoff's `tabs.has(tabId)` stays false; tabs are added only at page load (1742) and for a new workspace, whose UUID is fresh |
| `Pty.IsSessionMarker` | src/main/pty-manager.ts:30 | a variable is a session marker exactly when its upper-cased name starts with CLAUDE |
| `Pty.BlockedIsPrefixed` | src/main/pty-manager.ts:27-33 | both blocked names already satisfy the CLAUDE-prefix rule |
| `Pty.CleanEnv` | src/main/pty-manager.ts:28-33 | exactly the inherited variables that are not session markers are kept, unchanged |
| `Pty.BuildEnv` | src/main/pty-manager.ts:35-41 | the forced color variables win; otherwise the request's variables override the cleaned inherited ones |
| `Pty.ForcedAreNotMarkers` | src/main/pty-manager.ts:27-41 | the two forced variables are never session markers |
| `Pty.MarkersOnlyFromOverrides` | src/main/pty-manager.ts:27-41 | a session marker reaches the child only when the workspace's own environment sets it |
| `Pty.Kill` | src/main/pty-manager.ts:109-120 | only an alive entry is acted on: its process is killed and only that entry is removed |
| `Pty.Spawn` | src/main/pty-manager.ts:14-89 | the old process is killed first; a failed launch registers nothing and reports the message or "Failed to spawn PTY"; a launch registers one new process for the pane, with the requested shell or the default one, the requested size or 120 by 30 for a zero dimension, and the cleaned environment |
| `Pty.Write` | src/main/pty-manager.ts:91-96 | data reaches the registered process exactly when it is alive, appended to its input; nothing else changes |
| `Pty.Resize` | src/main/pty-manager.ts:98-107 | an alive process takes the new size unless the resize throws; nothing else changes |
| `Pty.WriteCommand` | src/main/pty-manager.ts:142-148 | the command is written followed by a carriage return |
| `Pty.Exit` | src/main/pty-manager.ts:71-81 | as written, the exit handler deletes whatever entry is registered under the pane id |
| `Pty.ExitFixed` | src/main/pty-manager.ts:71-81 | corrected, the entry is deleted only while it still names the exiting process |
| `Pty.VictimsAdd` | src/main/pty-manager.ts:122-136 | the set of processes a kill loop reaches grows one visited key at a time |
| `Pty.KillStep` | src/main/pty-manager.ts:122-136 | visiting one more key of the kill loop removes and kills it exactly when it is selected and alive |
| `Pty.KillSelected` | src/main/pty-manager.ts:122-136 | killing every selected key leaves exactly the unselected entries, unchanged, and marks exactly their processes killed |
| `Pty.KillForWorkspace` | src/main/pty-manager.ts:128-136 | every entry of the workspace (its id, or its id followed by a colon) is killed; no other is touched |
| `Pty.KillAll` | src/main/pty-manager.ts:122-126 | no alive entry stays registered; every registered process is marked killed |
| `Pty.EmptyConsistent` | src/main/pty-manager.ts:12 | the empty registry is consistent |
| `Pty.KillConsistent` | src/main/pty-manager.ts:109-120 | kill keeps the registry consistent with the processes |
| `Pty.SpawnConsistent` | src/main/pty-manager.ts:14-89 | spawn keeps the registry consistent with the processes |
| `Pty.WriteResizeConsistent` | src/main/pty-manager.ts:91-107 | write and resize keep the registry consistent |
| `Pty.ExitFixedConsistent` | src/main/pty-manager.ts:71-81 | the corrected exit handler keeps the registry consistent: no running process loses its entry |
| `Pty.ExitWellFormed` | src/main/pty-manager.ts:71-81 | the handler as written keeps every entry pointing at a live process of that pane |
| `Pty.ExitAgreesWhenCurrent` | src/main/pty-manager.ts:71-81 | the two handlers agree whenever the exiting process is still the registered one |
| `Pty.LateExitOrphansRespawn` | src/main/pty-manager.ts:20-21 | as written, respawn then the late exit of the killed process leaves the new process running but unregistered; writes and kills miss it |
| `Pty.LateExitKeepsRespawn` | src/main/pty-manager.ts:71-83 | corrected, the new process stays registered and the registry stays consistent |
| `Pty.BelongsTo` | src/main/pty-manager.ts:132 | an id belongs to a workspace exactly when it starts with the workspace id and either ends there or goes on with a colon |
| `Pty.BelongsToExactly` | src/main/pty-manager.ts:130-136 | for colon-free workspace ids, the prefix rule picks exactly that workspace's panes |
| `Store.ApplyPatch` | src/main/store.ts:52 | each field the update sets replaces the stored one, each field it leaves out is kept, and the id is forced back |
| `Store.ApplyNoChange` | src/main/store.ts:52 | an empty update leaves the workspace as it was |
| `Store.ApplyPatchLastWins` | src/main/store.ts:52 | applying the same update twice is applying it once |
| `Store.Ids` | src/main/store.ts:50 | the ids of the list, position by position |
| `Store.IndexOf` | src/main/store.ts:50 | `findIndex`: the first position holding the id, or none exactly when no workspace has it |
| `Store.Find` | src/main/store.ts:67 | `find`: the first stored workspace with the id, or none exactly when no workspace has it |
| `Store.Create` | src/main/store.ts:40-46 | the new workspace is the caller's data with the fresh id, appended after the unchanged list |
| `Store.CreateKeepsUnique` | src/main/store.ts:40-46 | a fresh id keeps the ids distinct |
| `Store.Update` | src/main/store.ts:48-55 | an unknown id returns null and changes nothing; otherwise only the first workspace with the id is patched |
| `Store.UpdateKeepsIds` | src/main/store.ts:48-55 | updating never changes any workspace's id |
| `Store.Filter` | src/main/store.ts:59 | the kept list is never longer, and is shorter exactly when some workspace has the id |
| `Store.FilterMembers` | src/main/store.ts:59 | exactly the workspaces with other ids are kept |
| `Store.Delete` | src/main/store.ts:57-63 | the result is true exactly when the id was present; exactly the other workspaces remain |
| `Store.FilterUnique` | src/main/store.ts:57-63 | with distinct ids, deleting removes exactly one workspace and keeps the order |
| `Store.FilterAbsent` | src/main/store.ts:57-63 | deleting an absent id leaves the list as it was |
| `Store.Reorder` | src/main/store.ts:65-69 | the result holds only stored workspaces whose ids were requested, at most one per requested id |
| `Store.ReorderConcat` | src/main/store.ts:65-69 | reordering by concatenated id lists concatenates the results |
| `Store.ReorderMultiset` | src/main/store.ts:65-69 | requesting the same ids in another order yields the same workspaces |
| `Store.ReorderIdentity` | src/main/store.ts:65-69 | requesting every id in stored order gives the list back |
| `Store.FindStored` | src/main/store.ts:67 | with distinct ids, looking up a stored id finds that workspace |
| `Store.ReorderOne` | src/main/store.ts:67 | reordering by a single stored id yields that workspace |
| `Store.ReorderPrefix` | src/main/store.ts:65-69 | reordering by a prefix of the stored ids yields that prefix of the list |
| `Store.ReorderPermutes` | src/main/store.ts:65-69 | with distinct ids, reordering by a permutation of the ids permutes the list: nothing lost, nothing duplicated |
| `Metrics.Sanitize` | src/main/claude-metrics.ts:18 | every one of `: < > " \| ? *` becomes `_`; every other character is kept |
| `Metrics.SanitizeIsSafe` | src/main/claude-metrics.ts:18 | a sanitised name contains none of those characters |
| `Metrics.SanitizeIdempotent` | src/main/claude-metrics.ts:18 | sanitising twice is sanitising once |
| `Metrics.SanitizeSafeIsIdentity` | src/main/claude-metrics.ts:18 | a name without those characters is left as it is |
| `Metrics.MetricsFileName` | src/main/claude-metrics.ts:16-20 | the file name is the sanitised id followed by `.jsonl` |
| `Metrics.SelectedAccepted` | src/main/claude-metrics.ts:77 | every position a filter selects lies in the list and holds a kept element |
| `Metrics.SelectedIncreasing` | src/main/claude-metrics.ts:77 | a filter selects positions in strictly increasing order |
| `Metrics.SelectedComplete` | src/main/claude-metrics.ts:77 | every position holding a kept element is selected |
| `Metrics.BlankIsEmptyTrim` | src/main/claude-metrics.ts:77 | a line is dropped exactly when `trim()` leaves nothing of it |
| `Metrics.Reported` | src/main/claude-metrics.ts:77-90 | every reported entry comes from a non-blank line that parses; there are no more entries than lines |
| `Metrics.ReportedConcat` | src/main/claude-metrics.ts:77-90 | reporting two runs of lines is reporting each in turn |
| `Metrics.ReportedSelected` | src/main/claude-metrics.ts:77-90 | the reported entries are the parses of exactly the non-blank lines that parse, in line order |
| `Metrics.ReportedSnoc` | src/main/claude-metrics.ts:77-90 | the report of a run of lines ends with the report of its last line, if that line is non-blank and parses |
| `Metrics.ReportedEmpty` | src/main/claude-metrics.ts:77-90 | nothing is reported exactly when no line is non-blank and parses |
| `Metrics.ReportedLast` | src/main/claude-metrics.ts:77-90 | the last report is the parse of the last line that is non-blank and parses |
| `Metrics.EntriesIn` | src/main/claude-metrics.ts:76-77 | a text without a line break is one line: one entry when it is non-blank and parses, none otherwise |
| `Metrics.ChunkedEntries` | src/main/claude-metrics.ts:76-77 | text read in two pieces, split at a line break, yields the same entries as read at once |
| `Metrics.ReadNewBytes` | src/main/claude-metrics.ts:64-94 | the offset never moves back; an unreadable, unchanged or shrunk file reports nothing; otherwise exactly the entries after the offset are reported and the offset moves to the end |
| `Metrics.StartWatcher` | src/main/claude-metrics.ts:44-62 | a watched workspace is not watched twice; a new watcher starts at the current file size |
| `Metrics.OnChange` | src/main/claude-metrics.ts:79-82 | the latest entry becomes the last one newly read, if any |
| `Metrics.OnChangeLatest` | src/main/claude-metrics.ts:76-82 | after a read of new text, the latest entry is the parse of its last non-blank line that parses, unchanged when there is none; the offset moves to the end |
| `Metrics.OnlyAppendedReported` | src/main/claude-metrics.ts:60-74 | content present when watching starts is never reported; an appended stretch is reported in full |
| `Metrics.TwoReadsReportAppended` | src/main/claude-metrics.ts:64-94 | two change events over whole appended lines report exactly the entries of everything appended, in order |
| `Metrics.ShrunkNotReread` | src/main/claude-metrics.ts:67 | a file at or below the offset reports nothing and leaves the watcher as it was |
| `Metrics.DayOf` | src/main/claude-metrics.ts:319 | a timestamp's day is the UTC day that contains it: the day starts at or before it and the next day starts after it |
| `Metrics.Scan` | src/main/claude-metrics.ts:303-328 | a file's figures are those of its last entry that carries metrics, each missing figure read as 0 or empty; its last-active time is the latest such entry's timestamp, or 0; a line without metrics is skipped, because reading its figures throws |
| `Metrics.ScanUsesLastEntry` | src/main/claude-metrics.ts:305-312 | an earlier entry's cost is replaced, not added; an appended entry without metrics changes nothing |
| `Metrics.MeasuredMembers` | src/main/claude-metrics.ts:305-309 | the entries the figure loops accept are exactly those whose `metrics` is present |
| `Metrics.ScanOnlyMeasured` | src/main/claude-metrics.ts:303-328 | the scan of a file is the scan of its entries that carry metrics |
| `Metrics.Days` | src/main/claude-metrics.ts:332-339 | the distinct days on which entries were written, each once |
| `Metrics.Stem` | src/main/claude-metrics.ts:294 | the workspace id is the file name without its `.jsonl` suffix |
| `Metrics.StatsFor` | src/main/claude-metrics.ts:330-357 | a file's session count is its number of distinct days over every parsed line, metrics or not, at least one when it has any entry; cost, model, line counts and last-active time are the scan's |
| `Metrics.UnmeasuredOnlyCountsDay` | src/main/claude-metrics.ts:303-339 | a line without metrics adds its day to the session count when that day is new, and leaves every other figure of the row as it was |
| `Metrics.InsertBy` | src/main/claude-metrics.ts:377-378 | insertion into a sorted list keeps it sorted and adds exactly that element |
| `Metrics.ConsSorted` | src/main/claude-metrics.ts:377-378 | an element with a key no greater than any of a sorted list can go in front of it |
| `Metrics.SortBy` | src/main/claude-metrics.ts:377-378 | sorting by a key gives a sorted permutation |
| `Metrics.Rows` | src/main/claude-metrics.ts:282-357 | there are never more rows than directory entries |
| `Metrics.Row` | src/main/claude-metrics.ts:293-357 | a file's row carries the file name without `.jsonl` as its id; its name is the stored name when that is non-empty, and the id otherwise; its session count is the number of distinct days of all parsed lines; its cost, model, line counts and last-active time are the scan's |
| `Metrics.PickedAtSelected` | src/main/claude-metrics.ts:282-357 | filtering then mapping gives the mapped elements at exactly the selected positions, in order |
| `Metrics.RowsFollowFiles` | src/main/claude-metrics.ts:282-357 | one row per readable `.jsonl` file, in directory order: the k-th row is the row of the k-th such file |
| `Metrics.RowsMembers` | src/main/claude-metrics.ts:282-357 | a row is listed exactly when it is the row of some readable `.jsonl` file |
| `Metrics.AllEntries` | src/main/claude-metrics.ts:360-369 | the entries of all readable files, and only those |
| `Metrics.GetAnalytics` | src/main/claude-metrics.ts:248-381 | per-workspace rows are a permutation of the file rows, most recently active first; the history holds every day an entry with metrics was written, and no other, strictly ascending |
| `Metrics.DistinctSortedIsStrict` | src/main/claude-metrics.ts:373-375 | sorting distinct days gives a strictly ascending sequence |
| `Metrics.DistinctCountsOne` | src/main/claude-metrics.ts:373-375 | a list of distinct days holds each day at most once |
| `Shortcuts.DigitRun` | src/main/shortcuts.ts:41 | the digit prefix that `parseInt` reads: digits up to the first non-digit |
| `Shortcuts.ParseInt` | src/main/shortcuts.ts:41 | the key name is NaN exactly when no digit follows the white space and optional sign |
| `Shortcuts.Unsigned` | src/main/shortcuts.ts:41 | an optional leading sign is dropped |
| `Shortcuts.DigitsValueOfNatToString` | src/main/shortcuts.ts:41 | reading back a number's decimal text gives the number |
| `Shortcuts.ParseIntRoundTrip` | src/main/shortcuts.ts:41 | `parseInt` of a number's decimal text, followed by any non-digit text, is that number |
| `Shortcuts.DigitRunPrefix` | src/main/shortcuts.ts:41 | the digit run of digits followed by a non-digit is exactly those digits |
| `Shortcuts.LetterKeyIsNaN` | src/main/shortcuts.ts:41 | a key name starting with a letter, such as "Tab" or "R", is NaN |
| `Shortcuts.TabNumber` | src/main/shortcuts.ts:41-45 | a key names a tab exactly when it parses to 1 through 9, and the tab is that number less one |
| `Shortcuts.Classify` | src/main/shortcuts.ts:24-54 | a request is sent, with the default suppressed, only for a key-down with Ctrl or Cmd and only for Tab, a key naming tab 1 to 9, or Shift+R; go-to-tab names one of the first nine tabs, the parsed key minus one, and with Ctrl or Cmd such a key always goes to that tab; restart needs Shift |
| `Shortcuts.TabCycles` | src/main/shortcuts.ts:30-38 | Ctrl+Tab cycles forward, Ctrl+Shift+Tab backward |
| `Shortcuts.SingleDigitParses` | src/main/shortcuts.ts:41 | a one-digit key name parses to its digit |
| `Shortcuts.DigitSelectsTab` | src/main/shortcuts.ts:40-46 | Ctrl+1 through Ctrl+9 go to the first through ninth tab |
| `Shortcuts.OtherDigitsIgnored` | src/main/shortcuts.ts:24-46 | Ctrl+0, and a digit without Ctrl or Cmd, do nothing |
| `Shortcuts.RestartNeedsShift` | src/main/shortcuts.ts:48-53 | Ctrl+Shift+R restarts; Ctrl+R alone does nothing |
| `Shortcuts.GoToTabTarget` | src/main/shortcuts.ts:40-46 | a go-to-tab request selects the tab at that index when there are enough tabs, and none otherwise |
| `Window.AnyDisplayHolds` | src/main/index.ts:24-32 | `displays.some(...)` holds exactly when some display contains the point |
| `Window.ValidPosition` | src/main/index.ts:21-33 | a saved position is valid exactly when both coordinates are saved and the point lies on a display, left/top edges included and right/bottom edges excluded |
| `Window.CreatePlacement` | src/main/index.ts:35-41 | the saved size is always used; the saved position only when valid, and then both coordinates; minimum 600 by 400 |
| `Window.OffScreenIsDropped` | src/main/index.ts:21-39 | a position on no display is not passed on |
| `Window.NoDisplayNoPosition` | src/main/index.ts:21-39 | without displays, or without a saved coordinate, no position is passed |
| `Window.FirstLaunchPlacement` | src/main/store.ts:9-15 | a fresh configuration opens at 1200 by 800 and the window system places it |
| `Window.OnClose` | src/main/index.ts:94-99 | closing hides the window to the tray unless the app is quitting, and closes it when it is |
| `Window.BeforeQuit` | src/main/index.ts:137-142 | quitting raises the flag, removes tray and shortcuts, and leaves no alive process registered |
| `Window.CloseHidesToTray` | src/main/index.ts:94-99 | before quitting, closing keeps the window open and the terminals untouched, and closing again changes nothing |
| `Window.QuitThenClose` | src/main/index.ts:94-142 | after the quit sequence, closing the window goes through and no live process is registered |
| `Fuzzy.Greedy` | src/renderer/index.ts:1335-1343 | the greedy scan matches at most the query's length and the text's length |
| `Fuzzy.EmbeddingTail` | src/renderer/index.ts:1335-1343 | an in-order match not using the first character is an in-order match in the rest of the text |
| `Fuzzy.GreedyComplete` | src/renderer/index.ts:1335-1343 | whenever the query occurs in order in the text, the greedy scan matches all of it |
| `Fuzzy.GreedySound` | src/renderer/index.ts:1335-1343 | when the greedy scan matches all of the query, the query occurs in order in the text |
| `Fuzzy.FuzzyMatch` | src/renderer/index.ts:1325-1346 | an empty query matches with score 0; a substring hit scores 100 minus its first position; otherwise the query matches exactly when its characters occur in the text in order, ten points per matched character |
| `Fuzzy.SubstringEmbeds` | src/renderer/index.ts:1330-1332 | a substring hit is also an in-order match, so the two rules agree |
| `Fuzzy.ShortcutKeepsVerdict` | src/renderer/index.ts:1330-1345 | a query is a substring hit or fully found by the scan exactly when it occurs in order, so the shortcut changes only the score |
| `Strings.NatToString` | src/renderer/index.ts:172 | the decimal text of a number: digits only, one digit exactly below ten |
| `Strings.NatToStringInjective` | src/renderer/index.ts:172 | different numbers have different decimal texts |
| `Strings.TrimStart` | src/main/shortcuts.ts:41 | `parseInt` skips exactly the leading white space |
| `Strings.ToLower` | src/renderer/index.ts:1327-1328 | lower-casing keeps the length and lowers each character |
| `Strings.Split` | src/main/claude-metrics.ts:77 | a split gives at least one piece, and no piece holds the separator |
| `Strings.JoinSplit` | src/main/claude-metrics.ts:77 | joining the pieces of a split gives the text back |
| `Strings.SplitJoin` | src/main/claude-metrics.ts:77 | splitting joined separator-free pieces gives the pieces back |
| `Strings.SplitConcat` | src/main/claude-metrics.ts:77 | splitting two texts around a separator splits each |
| `Strings.IndexOf` | src/renderer/index.ts:1331-1332 | `indexOf` gives the first occurrence, or none exactly when there is none |

## Left out

- DOM, xterm.js and terminal I/O are not modelled. This includes rendering,
  focus, scrollback save/restore, unread badges and the status bar. They
  change no state the model tracks.
- Dragging the split ratio and layout serialisation are not modelled. A split
  is created with ratio 0.5. No round-trip is claimed for saved layouts.
- Timers and asynchrony are events, not clocks. This covers the 2 s backoff,
  the 30 s stability timer, the startup command's delay and the pending
  spawn. Any interleaving of events is allowed.
- node-pty, IPC and the window system are inputs. A launch outcome, an exit,
  a failed resize and the list of displays are parameters.
- The `onData` forwarding of PTY output is not modelled. It never changes the
  registry.
- `getActivePtyIds`, `isPtyAlive`, `getLatestMetrics`, `saveWindowState`,
  `setActiveTab` and `stopMetricsWatcher` are single map or store accesses and
  are not modelled separately.
- The hook installation, the auth status and the Anthropic API client are
  left out. They are file-system and network work.
- Plugins are left out.
- `Strings.ToLower`: JavaScript's `toLowerCase`, and the `trim()` white-space
  set (`Strings.IsSpace`), are modelled for ASCII only. Unicode case mapping
  and Unicode white space are not modelled.
- `Fuzzy.FuzzyMatch`: positions and lengths count characters, whereas
  JavaScript's `indexOf` and string indexing count UTF-16 code units
  (src/renderer/index.ts:1331-1332, 1337-1341). A character outside the Basic
  Multilingual Plane, such as an emoji, is one unit here and two there, so
  scores of texts holding such characters differ.
- `Metrics.ReadNewBytes`: a file's bytes are characters. UTF-8 decoding, and a
  multi-byte character cut by a read boundary, are not modelled.
- `Metrics.Scan` and `Metrics.GetAnalytics`: a timestamp's ISO date is its UTC
  day number. Invalid dates, which make `toISOString` throw, are not modelled.
  Such a line still sets the figures in the first loop but counts neither as a
  session nor as a history day.
  String order of `YYYY-MM-DD` agrees with day order only for years 0 to 9999.
- `Metrics.GetAnalytics`: the cost totals and the per-day cost shares are
  floating-point sums and are left out. The row totals are left out too.
  Their ordering properties are stated. Distinct file names per workspace are
  assumed.
- `Metrics.SortBy`: its stability, as with `Array.prototype.sort`, is not
  stated. Only sortedness and permutation are proved.
- `Store.ApplyPatch`: an update cannot set a field to `undefined`. Absent
  fields are kept.
- `Store.Create`: the UUID is a parameter. Its freshness is a precondition of
  `Store.CreateKeepsUnique`.
- `Restart.ClosedTabDropsRespawn`: the flag `tabOpen` never becomes true
  again. The backoff's guard tests the workspace id, not the tab object
  (src/renderer/index.ts:1479), so it matters that a closed workspace gets no
  tab back while a timer of the same page can fire. `Restart.ClosedTabNeverReturns`
  proves this, assuming that a new workspace's UUID (src/main/store.ts:41) was
  never a tab's id in this page.
- `Restart.Step` models one pane per tab. The tab's restart count and
  stability timer are shared by all its panes, and this is not modelled. A
  timer is a flag, so re-arming an armed timer is one timer.
- `Tabs.GoToTab` takes a non-negative index. Its only caller, the shortcut
  classifier, sends 0 to 8 (`Shortcuts.Classify`).
- `Pty.KillForWorkspace`: the contract does not list which processes are
  marked killed. `Pty.KillSelected` states that, for any selection.
- `Pty.Exit`: the registry's `isAlive` flag on an entry that has already been
  removed is not modelled. Nothing reads it afterwards.

## Findings

| source | as written | input that shows it | evidently intended | confidence | as-written member | corrected member |
|---|---|---|---|---|---|---|
| src/main/pty-manager.ts:71-81 | the exit handler deletes the registry entry by pane id, whichever process it now names | spawn pane P, spawn P again (the first process is killed), then the first process's exit event arrives | delete the entry only while it still belongs to the exiting process | not executed | `Pty.LateExitOrphansRespawn` | `Pty.LateExitKeepsRespawn` |
| src/renderer/index.ts:1466-1489 | a process exit does not cancel the stability timer armed by the previous automatic respawn, so the timer can reset the count after that process died | `maxRestarts = 2`: the first process exits; after the 2 s backoff the respawn succeeds; that process dies 28 to 30 s after its respawn, so the 30 s stability timer fires during the next 2 s backoff and resets the count; the next respawn's process exits too; three automatic restarts in all | the count resets only after a process stayed up for 30 s; at most `maxRestarts` automatic restarts in a crash loop | not executed | `Restart.AsWrittenBudgetExceeded` | `Restart.FixedBudgetHolds` |
