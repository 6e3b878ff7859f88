# Verification of the axan core

A Dafny 4.11 model of the parts of axan whose correctness is not visible from reading one function, and proofs about
them.  `dafny verify dfyconfig.toml` verifies everything.

## What is modelled

**The launch-entry forest and its editor** (`Forest`, `Walk`, `Surgery`, `LaunchEntries`, `DepthScan`, `StartupEdits`,
`StartupRun`, `StartupSteps`, `StartupSafety`, `IdWalk`, `StartupEditor`, `StartupLimits`, `LaunchExpansion`).  The
Startup tab keeps a forest of shells as a flat list of rows with ids and parent ids, edited in place.  `Forest` says,
on resolved parent indices, what a pre-order list is; `Walk` proves the stack-driven depth-first walk for arbitrary,
also cyclic, pointers, including that the result is the only one possible; `Surgery` and `DepthScan` prove what
indent, outdent, removal and the exchange of sibling subtrees do to such a list, and when the capped depth scan finds
a subtree. `LaunchEntries`, `StartupEdits` and `StartupRun` lift this to rows with string ids and to a state machine
of list and stored setting.  `StartupSteps` says row by row what each step does.  `IdWalk` is the walk by id on any
list at all, also with repeated ids, and says exactly when it ends. `StartupEditor` is the editor itself as a class:
every loop and every callback, each proved equal to its step of the state machine. `StartupSafety` says what every run
keeps, and exactly when a step does not; `StartupLimits` holds the runs that show it. `LaunchExpansion` is the
start-up side, up to the theorem that the tabs show the forest the editor displays.

**The URL patterns** (`Regex`, `Addresses`, `Ipv6`, `Ipv6Groups`, `Brackets`).  Regular expressions with bounded
repetition, negative lookahead and recursion as sets of words; the IPv4 and IPv6 fragments against the grammar of
section 3.2.2 of RFC 3986; the recursive path fragment against a stack automaton for brackets.

**The settings bridge** (`BridgeCache`).  The write-through cache in front of a settings store in another process, as
a class and as a function of the replies, against stores that lag or fail arbitrarily and against one that obeys.

**The TOML mirror** (`TomlText`, `SettingsToml`, `SettingsFile`, `ProfileFile`, `ProfileImport`).  The printers, a
decoder for the printed subset written after TOML v1.0.0, and the sparse, transactional importers.

**The icon registry** (`IconRegistry`, `HandWrittenRegistry`, `IconImport`) with its hand-written printer, parser and
importer, and **the search history** (`SearchHistory`).

## Assumptions

- The state machine assumes that ids of rows are distinct and not empty and that minted ids are fresh, also with
  respect to dangling parent ids.  Ids come from a UUID generator, and loading backfills empty ones, but an imported
  file can repeat ids.  The methods of the re-sort and of loading are proved without that assumption, on every list on
  which the walk ends and emits no row twice; when it ends is `IdWalk.WalkEndsIff`.
- Bus replies, file sizes, whether an image can be rendered, the shell, the home directory and minted ids are
  parameters.  The sort of the icon names is any rearrangement into byte order.
- A schema is given as the list of its keys in the order they are printed, with bare key names, typed defaults, and
  the range or enumeration of each key.  The settings library refuses a value outside of it; all keys are writable.

## Where code and comments differ, and other findings

- The comment at `linux/src/profile-editor.cc:1226-1230` says that re-sorting keeps pre-order true at all times.
  Removal does not re-sort.  It keeps pre-order if and only if the row is a leaf, its subtree ends the list or a root
  follows it (`Surgery.RemovePreOrderIff`, with a concrete failure in `StartupLimits.RemoveCanBreakPreOrder`); a move
  keeps it if and only if the depth cap of 128 does not truncate the moved block (`StartupEdits.MovePreOrderIff`).
  `StartupRun.StepPreOrderIff` says that these are the only two exceptions, and
  `StartupLimits.DeepMoveCanBreakPreOrder` is such a move.
- Clicks can lose rows.  After a removal that breaks pre-order, a move can put a child before its parent, and an
  indent can then close a cycle, whose rows the re-sort drops and the save forgets
  (`StartupLimits.IndentCanLoseRows`).  Loading a list whose parents form a cycle, from an imported file for instance,
  drops the rows on and below the cycle and writes the loss back (lines 1960 to 1961).  With distinct ids nothing else
  loses rows: the exact conditions are `StartupSafety.MoveParentFirstIff` and `StartupSafety.StepConservesIff`.
- The editor can hang.  The importer (`linux/src/profile-toml.cc:297-316`) takes any ids, and loading mints ids only
  for entries without one.  With an entry x and a second entry x below x the walk of the re-sort never ends
  (`StartupLimits.TwoEntriesHang`); it ends if and only if no chain of children by id meets a row twice
  (`IdWalk.WalkEndsIff`).
- The comment above removal (`linux/src/profile-editor.cc:1188-1194`) says that saving drops the children of a removed
  row.  Saving makes them roots (lines 1873 to 1876), and so does the model.
- The comment in the indent callback expects the re-sort to move the row.  From pre-order it never moves anything
  (`StartupSteps.IndentStep`).
- Up and then down does not restore the list when dangling parent ids let a move jump over more than one subtree
  (`StartupLimits.UpThenDownCanDiffer`), nor when the depth cap cuts the subtree it jumped over
  (`StartupLimits.DeepUpThenDownCanDiffer`); the exact condition, at every depth, is `StartupEdits.UpThenDown`.
- A value outside the range or enumeration of its key is refused by the settings library, but the importer ignores
  that (`linux/src/axan-toml.cc:422-426`): the import succeeds, the key is reported as changed, on every repetition
  again, and the old value stays (`SettingsToml.RefusedValueIsReportedAgain`; exactly when,
  `SettingsToml.ImportTwice`).
- Ids minted while loading are not stored unless the re-sort changes the list; the next save stores them.  Without a
  save in between, the next load gives the same entries other ids (`StartupSafety.UnstoredIdsChange`).
- The TODO at `linux/src/terminal-regex.hh:76` asks for a stricter IPv6 check.  The pattern is exact already.
- `read` and `read_user_value` share a cache slot, so a value from below the user layer, once read, passes for a user
  value.  The cached backend agrees with the store if and only if no such value exists
  (`BridgeCache.AgreesIffSingleLayer`).  Asking for the writability of a key forgets its cached value.
- An unsigned 64-bit setting of 2^63 or more makes the exported file unreadable, and so does a control character other
  than newline and tab in a launch entry or uuid; both conditions are exact.
- An empty launch-entry list is not exported, so importing the file leaves the entries of the target as they are.
- Keys that an import changed before it failed are reported although the change is reverted.
- The search history keeps nine texts, not ten, because the clamp keeps eight before an insertion.

## Model

| member | source | states |
|---|---|---|
| Forest.PreOrderIffNonCrossing | linux/src/profile-editor.cc:1211-1228 | A list of parent indices is a pre-order walk (parents first, every subtree one contiguous run) if and only if no parent edge jumps out of a subtree that is still open |
| Forest.EndIsSubtreeEnd | linux/src/profile-editor.cc:1374-1390 | In such a list the descendants of a row are exactly the rows up to the next row whose parent lies before it |
| Forest.PreOrderEnd | linux/src/profile-editor.cc:1374-1376 | That end is the only index that delimits the descendant set |
| Forest.CappedDepth | linux/src/profile-editor.cc:1158-1175 | The depth walk ends for every parent map, cyclic ones included, after at most the cap many steps |
| Forest.CappedDepthIsDepth | linux/src/profile-editor.cc:1158-1175 | Where parents come first, the walk yields the number of ancestors, cut at the cap |
| Forest.CappedDepthBelowCap | linux/src/profile-editor.cc:1158-1175 | For any parent map the walk stays below the cap if and only if it reaches a root within the cap |
| Forest.DescendantIsDeeper | linux/src/profile-editor.cc:1374-1376 | Every proper descendant is strictly deeper |
| Forest.RowAfterSubtreeIsNoDeeper | linux/src/profile-editor.cc:1374-1390 | The row right after a subtree is no deeper than the subtree root |
| Walk.FrontierStep | linux/src/profile-editor.cc:1293-1303 | Popping a row and pushing its children keeps the walk invariant: rows once, parents first, no crossing edge, siblings in list order, nothing reachable forgotten |
| Walk.WalkOf | linux/src/profile-editor.cc:1284-1304 | From any parent pointers the stack walk ends, with a pre-order walk of the reachable rows |
| Walk.WalkIsUnique | linux/src/profile-editor.cc:1211-1240 | Parent pointers and list order admit exactly one such walk |
| Walk.WalkEmitsRooted | linux/src/profile-editor.cc:1284-1304 | A row is emitted if and only if it hangs below a root: rows on or below a parent cycle are dropped, no others |
| Walk.WalkIsFullIffAcyclic | linux/src/profile-editor.cc:1284-1304 | No row is dropped if and only if the parent pointers are acyclic |
| Walk.PreOrderIsFixed | linux/src/profile-editor.cc:1234-1238 | The walk of a list in pre-order is the list itself |
| Walk.FixedIsPreOrder | linux/src/profile-editor.cc:1234-1238 | Only a list in pre-order is its own walk |
| Surgery.SiblingBlockFacts | linux/src/profile-editor.cc:1392-1397 | Where parents can lie around two adjacent sibling blocks of a pre-order list |
| Surgery.SwapKeepsNonCrossing | linux/src/profile-editor.cc:1392-1446 | Putting a whole subtree in front of an earlier sibling keeps pre-order |
| Surgery.SwapOfBareRootCrosses | linux/src/profile-editor.cc:1392-1446 | Putting a row there without its children breaks pre-order |
| Surgery.IndentKeepsPreOrder | linux/src/profile-editor.cc:1497-1501 | Nesting a row under the row before it keeps pre-order as it stands |
| Surgery.OutdentWalk | linux/src/profile-editor.cc:1524-1531 | After a row is handed to its grandparent, the re-sort moves its subtree right behind the rest of the old parent subtree, and moves nothing else |
| Surgery.OutdentDepth | linux/src/profile-editor.cc:1509-1531 | Outdent lowers the depth of exactly the rows of the moved subtree, each by one |
| Surgery.RemoveKeepsParentFirst | linux/src/profile-editor.cc:1195-1209 | Removing any row keeps parents before children |
| Surgery.RemovePreOrderIff | linux/src/profile-editor.cc:1195-1209 | Removing a row keeps pre-order if and only if it is a leaf, its subtree ends the list, or a root follows its subtree |
| Surgery.RootsAndLeavesAreRemovable | linux/src/profile-editor.cc:1195-1209 | Leaves and roots always meet that condition |
| Surgery.AppendRootKeepsPreOrder | linux/src/profile-editor.cc:2016-2018 | A new root at the end keeps pre-order |
| LaunchEntries.IndexOf | linux/src/profile-editor.cc:1141-1156 | A hash table filled front to back answers with the last row that has the id |
| LaunchEntries.EffectiveParent | linux/src/profile-editor.cc:1257-1274 | A row is a root if and only if its parent id is empty or names no row; otherwise its effective parent is the last row with that id |
| LaunchEntries.PickParents | linux/src/profile-editor.cc:1325-1340 | Rearranging whole rows rearranges the effective parents with them |
| LaunchEntries.SetParentParents | linux/src/profile-editor.cc:1497-1497 | Overwriting one parent id redirects that row and no other |
| LaunchEntries.ReorderedIsReordering | linux/src/profile-editor.cc:1211-1304 | For every list with distinct non-empty ids, whatever its parent ids: the re-sort yields exactly the rows reachable from the roots, each once, in pre-order, siblings in their old relative order |
| LaunchEntries.ReorderingIsUnique | linux/src/profile-editor.cc:1211-1304 | No other list has these properties, so they determine the re-sort |
| LaunchEntries.ReorderingKeepsParent | linux/src/profile-editor.cc:1211-1304 | Every emitted row keeps its effective parent |
| LaunchEntries.ReorderFixedIffPreOrder | linux/src/profile-editor.cc:1306-1323 | The re-sort leaves a list alone if and only if it is in pre-order |
| LaunchEntries.ReorderIsPermutationIffAcyclic | linux/src/profile-editor.cc:1241-1304 | The re-sort is a permutation of the list if and only if the parents are acyclic |
| DepthScan.SubtreeScan | linux/src/profile-editor.cc:1376-1390 | The depth scan ends past its row and inside the list, for every parent map |
| DepthScan.DepthScanExact | linux/src/profile-editor.cc:1374-1390 | In every pre-order list the capped depth scan returns the end of the descendant set if and only if the row is above depth 128 or a leaf; otherwise it returns the bare row |
| DepthScan.NeighbouringSiblings | linux/src/profile-editor.cc:1350-1372 | Between two neighbouring children of one parent lies exactly the subtree of the first |
| DepthScan.SwapKeepsDepth | linux/src/profile-editor.cc:1392-1397 | Exchanging sibling blocks changes no depth |
| DepthScan.SwapFacts | linux/src/profile-editor.cc:1392-1446 | A subtree put in front of an earlier sibling: pre-order and depths stay, and both subtrees end where they should |
| DepthScan.ScansAfterSwap | linux/src/profile-editor.cc:1376-1446 | After a move the depth scan finds both exchanged subtrees again |
| StartupEdits.PrevSibling | linux/src/profile-editor.cc:1350-1372 | Upwards, the nearest earlier row with the same stored parent id, or none |
| StartupEdits.NextSibling | linux/src/profile-editor.cc:1350-1372 | Downwards, the nearest later row with the same stored parent id, or none |
| StartupEdits.MoveBlocks | linux/src/profile-editor.cc:1406-1436 | Which two blocks a move exchanges, in terms of the depth scan and the sibling scan; none when there is no sibling |
| StartupEdits.MoveIsPermutation | linux/src/profile-editor.cc:1392-1455 | From every state, a move permutes whole rows and so changes no parent id |
| StartupEdits.MovePreOrderIff | linux/src/profile-editor.cc:1392-1455 | From pre-order, a move keeps pre-order if and only if the depth cap hides no child of the block it cuts out |
| StartupEdits.MoveExchangesSiblings | linux/src/profile-editor.cc:1350-1446 | Without dangling parent ids the row jumped over is the neighbouring sibling, and a move exchanges its subtree with exactly the rows cut out; those are the whole subtree if and only if the depth cap of 128 hides no child of the row |
| StartupEdits.UpThenDown | linux/src/profile-editor.cc:1392-1455 | At every depth, up and then down restores the list if and only if the row followed directly upon the rows that the capped depth scan takes for the subtree it jumped over |
| StartupEdits.UpThenDownRestores | linux/src/profile-editor.cc:1350-1355 | When no parent id dangles, it does so if and only if the row jumped over is above depth 128 or a leaf |
| StartupSteps.IndentStep | linux/src/profile-editor.cc:1479-1507 | From pre-order, the indent click changes one parent id, to that of the row before; no row moves, the forest stays in pre-order, and the first row stays as it is |
| StartupSteps.IndentFromAnywhere | linux/src/profile-editor.cc:1483-1507 | From any list with distinct ids it is the re-sort of the list with that one change |
| StartupSteps.OutdentStep | linux/src/profile-editor.cc:1509-1538 | From pre-order, the outdent click moves the whole subtree right behind the rest of the old parent subtree and changes one parent id, to that of the old parent; the result is in pre-order |
| StartupSteps.OutdentStepParent | linux/src/profile-editor.cc:1523-1530 | Afterwards the parent of the row is its old parent's parent, or none, and the row is the next sibling of its old parent |
| StartupSteps.OutdentOfRootStep | linux/src/profile-editor.cc:1515-1525 | Without parent id nothing changes; of a row whose parent id dangles only that id is cleared |
| StartupSteps.OutdentStepLevels | linux/src/profile-editor.cc:1509-1531 | Every row of the outdented subtree rises exactly one level; every other row keeps its level |
| StartupSteps.OutdentFromAnywhere | linux/src/profile-editor.cc:1515-1531 | From any list with distinct ids it is the re-sort of the list with that one parent id changed |
| StartupSteps.AddStep | linux/src/profile-editor.cc:2015-2025 | Add puts one empty root behind the rows there are, which stay as they are |
| StartupSteps.RemoveStep | linux/src/profile-editor.cc:1188-1209 | Remove takes one row out of the list; its children become roots and every other row keeps its parent |
| StartupSteps.EditStep | linux/src/profile-editor.cc:1177-1186 | An edit overwrites what can be typed into one row: not its id, not its parent, not its place, and no other row |
| StartupSteps.MoveStep | linux/src/profile-editor.cc:1392-1461 | A move exchanges the block of the row with the rows from the nearest sibling on in that direction, from every state; without sibling nothing happens |
| StartupSteps.MoveStepExchangesSiblings | linux/src/profile-editor.cc:1350-1446 | From pre-order without dangling parent ids that is an exchange of adjacent sibling subtrees, unless the second is 128 levels deep and has children |
| StartupSteps.LoadStep | linux/src/profile-editor.cc:1914-1962 | A load takes over every stored entry, minted ids for those without, re-sorts, and stores the result if that changed it |
| StartupSteps.SavedIsStoredForm | linux/src/profile-editor.cc:1868-1899 | What is saved are the rows in order with all fields, the parent id only where a row has that id |
| StartupSteps.SavedRowsHaveIds | linux/src/profile-editor.cc:1864-1872 | A row is saved if and only if it has an id |
| StartupSteps.ClickStores | linux/src/profile-editor.cc:1137-1538 | After every click that changes the rows the setting is their stored form |
| StartupRun.SavedParents | linux/src/profile-editor.cc:1868-1899 | Saving keeps the forest, the order and every field, and stores no dangling parent id |
| StartupRun.BackfillKeepsForest | linux/src/profile-editor.cc:1938-1951 | Loading gives every entry an id; ids there are, all other fields and the effective parents stay |
| StartupRun.LoadHeals | linux/src/profile-editor.cc:1955-1962 | For any stored list with distinct ids after backfill the editor ends in pre-order; when it re-sorts, it stores a list without dangling parents, parents first, that a second load neither reorders nor rewrites |
| StartupRun.StepKeepsNames | linux/src/profile-editor.cc:1137-1538 | Every step, from every state with distinct non-empty ids, keeps ids distinct and non-empty |
| StartupRun.StepPreOrderIff | linux/src/profile-editor.cc:1226-1230 | From pre-order, a step leads to pre-order if and only if it is not a move of a block that the cap truncates and not a removal outside the condition above |
| StartupRun.RemoveKeepsParentsFirst | linux/src/profile-editor.cc:1195-1209 | Removing any row whatever leaves every parent before its children |
| StartupRun.RunKeepsNames | linux/src/profile-editor.cc:1137-1538 | Over every run of edits, loads and outside writes, ids stay distinct and non-empty |
| StartupSafety.MoveParentFirstIff | linux/src/profile-editor.cc:1392-1455 | From parents before children, a move keeps that order if and only if no row of the block it cuts out has its parent in the block it jumps over |
| StartupSafety.PreOrderMovesAreSafe | linux/src/profile-editor.cc:1392-1455 | Every move from pre-order meets that condition, also one that the depth cap truncates |
| StartupSafety.ResortsToPreOrder | linux/src/profile-editor.cc:1226-1230 | From every state with distinct ids, load, indent below another row and outdent of a row with a parent id end in pre-order |
| StartupSafety.StepParentFirstIff | linux/src/profile-editor.cc:1137-1538 | A step keeps parents before children if and only if it is not a move outside that condition |
| StartupSafety.RunKeepsParentFirst | linux/src/profile-editor.cc:1137-1538 | Over every run whose moves meet it, removals of any row included, parents come before children |
| StartupSafety.MovesInOrderAreSafe | linux/src/profile-editor.cc:1226-1230 | A run whose moves all start in pre-order is such a run |
| StartupSafety.RunEndsInPreOrder | linux/src/profile-editor.cc:1226-1230 | Whatever happened before: if since the last re-sort every move and removal met its exact condition, the list is a pre-order walk |
| StartupSafety.StepKeepsAcyclic | linux/src/profile-editor.cc:1137-1538 | Every step from every acyclic state, in whatever order the rows are, leads to an acyclic state |
| StartupSafety.RunKeepsAcyclic | linux/src/profile-editor.cc:1137-1538 | Over every run without exception the forest has no cycle |
| StartupSafety.RedirectAcyclicIff | linux/src/profile-editor.cc:1479-1483 | Re-parenting a row closes a cycle if and only if the new parent is the row or lies below it |
| StartupSafety.IndentKeepsRowsIff | linux/src/profile-editor.cc:1479-1501 | From any acyclic state, indent loses no row if and only if the row above does not lie below the row; it loses none while parents come first |
| StartupSafety.LoadConservesIff | linux/src/profile-editor.cc:1914-1962 | A load keeps every stored entry if and only if the stored parents are acyclic; what it loses it also drops from the setting |
| StartupSafety.StepConservesIff | linux/src/profile-editor.cc:1137-1538 | From every acyclic state a step, loads included, loses, invents or rewrites no row, except as clicked, if and only if it is neither such an indent nor a load of a setting with a cycle |
| StartupSafety.StepConserves | linux/src/profile-editor.cc:1137-1538 | While parents come before children no click does, and a load does only if the setting has a cycle |
| StartupSafety.ReloadConserves | linux/src/profile-editor.cc:1868-1962 | Loading back what was saved keeps every row if and only if the saved list was acyclic |
| StartupSafety.StepStaysSettled | linux/src/profile-editor.cc:1137-1538 | Once the setting is the stored form of the rows, it stays so over every click and every load |
| StartupSafety.LoadSettlesIff | linux/src/profile-editor.cc:1914-1962 | A load leaves the setting so if and only if it writes the list back, or found every id present and no parent id dangling |
| StartupSafety.UnstoredIdsChange | linux/src/profile-editor.cc:1938-1962 | When a load re-sorts nothing it writes nothing, and the next load gives the entries without id other ids |
| StartupSafety.RowSurvives | linux/src/profile-editor.cc:1137-1538 | Over every run with safe moves, a row is still there, unchanged, unless it was edited or removed or a setting was loaded that has a cycle or does not hold the row as it was |
| StartupSafety.RowSurvivesSessions | linux/src/profile-editor.cc:1137-1962 | When no other program writes the setting, a row that is neither edited nor removed is still there, unchanged, over every run with safe moves and any number of loads |
| StartupEditor.Editor.BuildIdMap | linux/src/profile-editor.cc:1141-1156 | The table of ids resolves every id as the specification does |
| StartupEditor.Editor.DepthOf | linux/src/profile-editor.cc:1162-1175 | The loop ends and computes the capped depth |
| StartupEditor.Editor.FindSibling | linux/src/profile-editor.cc:1356-1372 | The scan in either direction finds the sibling of the specification |
| StartupEditor.Editor.SubtreeEnd | linux/src/profile-editor.cc:1376-1390 | The scan computes the specified end; a start outside the list is returned unchanged |
| StartupEditor.Editor.Relocate | linux/src/profile-editor.cc:1438-1455 | Taking rows out back to front and inserting them one by one exchanges two adjacent blocks |
| StartupEditor.Editor.MoveRow | linux/src/profile-editor.cc:1397-1461 | Moving a row is the move step of the state machine, save included |
| StartupEditor.Editor.KnownIds | linux/src/profile-editor.cc:1257-1264 | The set of known ids is the set of ids of the rows |
| StartupEditor.Editor.CollectKids | linux/src/profile-editor.cc:1266-1282 | For every list the buckets hold, in list order, the rows with that parent id; orphans go with the roots |
| StartupEditor.Editor.WalkRows | linux/src/profile-editor.cc:1284-1304 | On every list on which the walk ends, the stack loop computes it |
| StartupEditor.Editor.ReorderToPreOrder | linux/src/profile-editor.cc:1241-1348 | On every list on which the walk ends without emitting a row twice the rows are put into the order of the walk, and the result says whether that changed it; with distinct ids that is the re-sort |
| StartupEditor.Editor.Save | linux/src/profile-editor.cc:1842-1904 | The setting becomes the stored form of the rows |
| StartupEditor.Editor.LoadEntries | linux/src/profile-editor.cc:1914-1966 | Rows with backfilled ids, put into the order of the walk, written back when that changed it; with distinct ids after backfill that is the load step |
| StartupEditor.Editor.AddClicked | linux/src/profile-editor.cc:2007-2025 | Add is the add step |
| StartupEditor.Editor.EntryChanged | linux/src/profile-editor.cc:1177-1186 | A field edit is the edit step |
| StartupEditor.Editor.RemoveClicked | linux/src/profile-editor.cc:1195-1209 | Remove is the remove step: no re-sort, then save |
| StartupEditor.Editor.IndentClicked | linux/src/profile-editor.cc:1483-1507 | Indent is the indent step |
| StartupEditor.Editor.OutdentClicked | linux/src/profile-editor.cc:1512-1538 | Outdent is the outdent step |
| IdWalk.WalkEndsIff | linux/src/profile-editor.cc:1284-1304 | For every list, repeated and empty ids included: the walk ends if and only if no chain from a root to children by id meets a row twice |
| IdWalk.VisitsSettle | linux/src/profile-editor.cc:1293-1303 | Once the stack is empty, more turns emit nothing, so the output of a walk that ends is well defined |
| IdWalk.NamedWalkEnds | linux/src/profile-editor.cc:1284-1304 | With distinct non-empty ids it ends for all parent ids, emits no row twice, and emits the one pre-order walk of the reachable rows |
| IdWalk.VisitStep | linux/src/profile-editor.cc:1293-1303 | One turn of the stack loop is one step of the abstract walk |
| LaunchExpansion.ParentTab | linux/src/terminal-options.cc:1507-1519 | A parent resolves to an earlier tab or to none, for any list at all |
| LaunchExpansion.ExpandEntries | linux/src/terminal-options.cc:1369-1533 | Without explicit user intent and with entries, one window with one tab per entry: every parent index lies in -1 up to the own index, exactly the first tab is active, fields as configured; otherwise nothing changes |
| LaunchExpansion.TabShowsEntry | linux/src/terminal-options.cc:1463-1520 | Field by field: name, icon, colour, target as in the entry or absent, home for a leading tilde, the command in the shell of the user that then takes its place, the parent only if earlier; no other tab has these properties |
| LaunchExpansion.TriggersIff | linux/src/terminal-options.cc:1369-1385 | The list is expanded if and only if there is one window with one tab and neither says what to run or where |
| LaunchExpansion.SavedExpandsIff | linux/src/terminal-options.cc:1427-1530 | What the editor saves expands to the forest it displays if and only if its rows list parents first |
| LaunchExpansion.LoadShowsForest | linux/src/terminal-options.cc:1427-1530 | After a load, the setting expands to the displayed forest, rewritten or not |
| LaunchExpansion.StepShowsForestIff | linux/src/terminal-options.cc:1427-1530 | While parents come first, a step keeps setting and displayed forest together if and only if it is not a move that puts a child before its parent |
| LaunchExpansion.RunShowsForest | linux/src/terminal-options.cc:1427-1530 | End to end: after every run whose moves put no child before its parent, rows of any kind removed, tab i hangs below tab j exactly when row j is the effective parent of row i |
| LaunchExpansion.OrderlyMovesShowForest | linux/src/terminal-options.cc:1427-1530 | So it does after every run whose moves all start in pre-order |
| StartupLimits.RemoveCanBreakPreOrder | linux/src/profile-editor.cc:1226-1230 | Pre-order does not hold at all times: a concrete list and removal that break it |
| StartupLimits.IndentCanLoseRows | linux/src/profile-editor.cc:1284-1304 | A run of six clicks after a load, at whose end an indent drops three rows from the list and from the setting |
| StartupLimits.UpThenDownCanDiffer | linux/src/profile-editor.cc:1350-1372 | A run after which up and down again leaves a different order, because parent ids dangle |
| StartupLimits.DeepUpThenDownCanDiffer | linux/src/profile-editor.cc:1376-1390 | A list in pre-order without dangling parent ids on which it does so, because of the depth cap |
| StartupLimits.DeepMoveCanBreakPreOrder | linux/src/profile-editor.cc:1162-1175 | A loaded list more than 128 levels deep on which one move breaks pre-order |
| StartupLimits.DuplicateIdsDiverge | linux/src/profile-editor.cc:1293-1303 | The walk never ends when a root shares its id with a row that is stored as a child of that id |
| StartupLimits.TwoEntriesHang | linux/src/profile-editor.cc:1938-1961 | A stored list of two entries that loading leaves as it is and on which the walk never ends |
| StartupLimits.RepeatedIdsCanEnd | linux/src/profile-editor.cc:1284-1304 | Repeated ids alone do no harm: a list with two equal ids is walked in order |
| Addresses.OctetPatterns | linux/src/terminal-regex.hh:68-68 | The five alternatives match exactly the decimal numerals 0 to 255 without superfluous zeros, as dec-octet of RFC 3986 does |
| Addresses.S4IsOctet | linux/src/terminal-regex.hh:66-68 | S4 is dec-octet wherever no digit follows |
| Addresses.V4Address | linux/src/terminal-regex.hh:70-71 | IPv4address of section 3.2.2 of RFC 3986 denotes the dotted quads |
| Ipv6.Ipv4PatternIsRfc3986 | linux/src/terminal-regex.hh:70-71 | IPV4 accepts exactly IPv4address of RFC 3986 |
| Ipv6.Ipv6PatternIsRfc3986 | linux/src/terminal-regex.hh:79-101 | IPV6, with its ten alternatives, colon-counting lookaheads and embedded IPv4, accepts exactly IPv6address of section 3.2.2 of RFC 3986 |
| Ipv6.Ipv6InContext | linux/src/terminal-regex.hh:74-104 | Whatever follows: an address is matched if and only if no dot, colon or hexadecimal digit follows it; the counting lookaheads do not see past its end |
| Ipv6.Ipv4InContext | linux/src/terminal-regex.hh:67-71 | Whatever follows: a dotted quad is matched if and only if no digit follows it |
| Ipv6Groups.GroupHasValue | linux/src/terminal-regex.hh:80-80 | A group is one to four hexadecimal digits of either case, and so a number below 65536 |
| Ipv6Groups.ValueHasGroup | linux/src/terminal-regex.hh:80-80 | Every number below 65536 is a group, written in lower or in upper case |
| Ipv6Groups.CaseDoesNotMatter | linux/src/terminal-regex.hh:80-104 | Changing the case of the letters A to F never changes whether a text is matched, whatever follows it |
| Brackets.MatchIsNeutral | linux/src/terminal-regex.hh:137-138 | Every word the recursive pattern matches leaves the bracket stack as it was, whatever is open |
| Brackets.BalancedIsMatched | linux/src/terminal-regex.hh:137-138 | Every balanced word is matched, with nesting no deeper than its length |
| Brackets.AsciiPathInnerIsBalanced | linux/src/terminal-regex.hh:131-138 | The same for the ASCII reading of the class of path characters |
| Brackets.PathInnerIsBalanced | linux/src/terminal-regex.hh:131-138 | PATH_INNER accepts exactly the words that a stack automaton for ( ) [ ] accepts, for any class of other path characters |
| Brackets.WrappedIsAccepted | linux/src/terminal-regex.hh:137-138 | A path may be put between two brackets if and only if they are of the same kind |
| Brackets.PathCharsArePchars | linux/src/terminal-regex.hh:132-132 | The class holds exactly the pchars of RFC 3986 but brackets, and slash, question mark, hash and bar; so no blank, control character, quote or angle bracket |
| BridgeCache.Backend.EnsureEntry | linux/src/terminal-settings-bridge-backend.cc:115-121 | Always replaces the whole entry |
| BridgeCache.Backend.InsertValue | linux/src/terminal-settings-bridge-backend.cc:123-132 | The entry holds the value and nothing else |
| BridgeCache.Backend.InsertWritable | linux/src/terminal-settings-bridge-backend.cc:134-142 | The entry holds the writability and nothing else |
| BridgeCache.Backend.RemovePath | linux/src/terminal-settings-bridge-backend.cc:144-160 | Clears the values of exactly the keys under the path, in any hash-table order, and keeps their writability |
| BridgeCache.Backend.RemoveValue | linux/src/terminal-settings-bridge-backend.cc:162-169 | The entry is emptied |
| BridgeCache.Backend.RemoveWritable | linux/src/terminal-settings-bridge-backend.cc:171-177 | The entry is emptied |
| BridgeCache.Backend.GetWritableKey | linux/src/terminal-settings-bridge-backend.cc:191-219 | Answer and new cache of get_writable, for any reply of the bus |
| BridgeCache.Backend.ReadKey | linux/src/terminal-settings-bridge-backend.cc:221-268 | Answer and new cache of read, for any reply |
| BridgeCache.Backend.ReadUserValue | linux/src/terminal-settings-bridge-backend.cc:270-313 | Answer and new cache of read_user_value, for any reply |
| BridgeCache.Backend.ResetKey | linux/src/terminal-settings-bridge-backend.cc:315-334 | New cache after reset |
| BridgeCache.Backend.WriteKey | linux/src/terminal-settings-bridge-backend.cc:376-404 | New cache after write: the value is cached whether or not the call succeeds |
| BridgeCache.Backend.WriteFlattened | linux/src/terminal-settings-bridge-backend.cc:406-459 | New cache after write_tree, item by item, directory resets included |
| BridgeCache.StepKeepsNeverBoth | linux/src/terminal-settings-bridge-backend.cc:115-142 | No key ever has both a cached value and a cached writability |
| BridgeCache.RunKeepsNeverBoth | linux/src/terminal-settings-bridge-backend.cc:115-142 | Over every run of operations, with any replies, no key comes to have both |
| BridgeCache.TreeCachesLast | linux/src/terminal-settings-bridge-backend.cc:423-439 | The last item of a tree that concerns a key decides what is cached for it |
| BridgeCache.ReadYourWrites | linux/src/terminal-settings-bridge-backend.cc:468-473 | After a write of v to k every read of k answers v, whatever the store replies meanwhile, until k is written, reset, covered by a directory reset or asked for its writability |
| BridgeCache.ReadYourTreeWrites | linux/src/terminal-settings-bridge-backend.cc:423-439 | The same for a value, or its absence, written through a tree whose last item for the key it is |
| BridgeCache.WritabilityForgetsValue | linux/src/terminal-settings-bridge-backend.cc:197-212 | Asking for the writability of a key always forgets its cached value |
| BridgeCache.FailedReplies | linux/src/terminal-settings-bridge-backend.cc:191-313 | A failed call means not writable and no value, and leaves nothing in the cache |
| BridgeCache.MistypedReplies | linux/src/terminal-settings-bridge-backend.cc:221-313 | A value of another type counts as no answer |
| BridgeCache.WritabilityIsRepeated | linux/src/terminal-settings-bridge-backend.cc:191-219 | Once answered, the writability of a key is what every later question gets, whatever the bus says then, until the key is read, written or reset |
| BridgeCache.ReadIsRepeated | linux/src/terminal-settings-bridge-backend.cc:221-313 | Once answered, a value or its absence is what every later read gets, whatever the bus says then, until an operation that ends the memory of it |
| BridgeCache.DirectoryIsReset | linux/src/terminal-settings-bridge-backend.cc:144-160 | After a tree item whose key ends in a slash no key that extends it has a cached value, unless a later item sets it |
| BridgeCache.DirectoryResetIsExact | linux/src/terminal-settings-bridge-backend.cc:144-160 | Such a reset forgets the values of exactly the keys that start with it, and no writability |
| BridgeCache.StepCoheres | linux/src/terminal-settings-bridge-backend.cc:191-459 | Against a store that applies every write, each operation keeps the cache coherent and answers like the store |
| BridgeCache.CoherentRunAgrees | linux/src/terminal-settings-bridge-backend.cc:191-459 | Over every run from a coherent cache, all answers are those of the store |
| BridgeCache.AgreesIffSingleLayer | linux/src/terminal-settings-bridge-backend.cc:221-313 | Over every run from an empty cache, cached and direct answers agree if and only if no value of the right type comes from below the user layer |
| BridgeCache.LayeredRunDisagrees | linux/src/terminal-settings-bridge-backend.cc:270-279 | With such a value, three operations suffice for a wrong answer |
| SearchHistory.History.RemoveItem | linux/src/terminal-search-popover.cc:114-135 | Removes the first occurrence, and reports whether there was one |
| SearchHistory.History.Clamp | linux/src/terminal-search-popover.cc:137-152 | Keeps one row fewer than asked for |
| SearchHistory.History.Insert | linux/src/terminal-search-popover.cc:154-175 | The store after one insertion, short texts and disabled history included |
| SearchHistory.StoreIsRecentHistory | linux/src/terminal-search-popover.cc:114-175 | After any run of insertions the store has no duplicates and is the first nine texts of the unbounded most-recently-used history |
| SearchHistory.InsertionIsRecorded | linux/src/terminal-search-popover.cc:154-175 | Only texts of four characters or more are recorded, and only while the history is on; a recorded text comes first |
| SearchHistory.HistoryMembers | linux/src/terminal-search-popover.cc:154-175 | The unbounded history holds exactly the texts that were recorded |
| SearchHistory.LatestFirst | linux/src/terminal-search-popover.cc:114-175 | It lists them latest first, so the store is the nine texts recorded last |
| IconRegistry.WriteRegistry | linux/src/axan-icons-toml.cc:114-134 | The printer loop writes the header and one line per name |
| IconRegistry.ParseItems | linux/src/axan-icons-toml.cc:153-176 | The parser loop ends on every input, with the entries or an unterminated-string error |
| IconRegistry.ParseRegistry | linux/src/axan-icons-toml.cc:136-177 | Finds the array behind the first icons and reads it; a text without that word or a bracket after it has no entries |
| IconRegistry.ArrayIsFound | linux/src/axan-icons-toml.cc:117-121 | The header mentions icons before the array, yet the array is the one that is parsed |
| IconRegistry.RegistryRoundTrip | linux/src/axan-icons-toml.cc:114-177 | Parsing what was written returns the written names if and only if none contains a quote |
| HandWrittenRegistry.HandWrittenIsRead | linux/src/axan-icons-toml.cc:136-177 | A file changed by hand, with blanks, commas and comments anywhere between the names and any text around the array, is read as its quoted names |
| HandWrittenRegistry.NoWordNoIcons | linux/src/axan-icons-toml.cc:136-177 | A file without the word icons has none |
| HandWrittenRegistry.NoBracketNoIcons | linux/src/axan-icons-toml.cc:136-177 | Neither has a file without an opening bracket |
| IconImport.Scan | linux/src/axan-icons-toml.cc:232-266 | The loop accepts, rejects with the reason, or passes over each file of the directory |
| IconImport.ConsideredIff | linux/src/axan-icons-toml.cc:240-247 | A file is looked at if and only if it is an SVG and not hidden |
| IconImport.ProblemIs | linux/src/axan-icons-toml.cc:68-113 | Valid are the files named after an icon, of 1 to 102400 bytes, that can be rendered; any other is rejected for the first of these that fails |
| IconImport.IconAmongIff | linux/src/axan-icons-toml.cc:232-266 | The registry names are those of such files |
| IconImport.IconsAt | linux/src/axan-icons-toml.cc:254-265 | The accepted names are exactly the stripped names of the valid files |
| IconImport.RejectsAt | linux/src/axan-icons-toml.cc:248-264 | The rejected files are exactly the SVG files that fail a check, each with the first check it fails |
| IconImport.StripIsInjective | linux/src/axan-icons-toml.cc:54-62 | Stripping the extension merges no two file names |
| IconImport.ImportedRegistry | linux/src/axan-icons-toml.cc:209-292 | Whatever the directory order and the sort: the registry is strictly ascending without duplicates, holds exactly the icons of the valid files, and is parsed back exactly |
| TomlText.QuoteString | linux/src/axan-toml.cc:60-88 | The loop prints the quoted form of the string |
| TomlText.PrintArray | linux/src/axan-toml.cc:152-162 | The loop prints the array of quoted strings |
| TomlText.QuoteBriefly | linux/src/profile-toml.cc:86-99 | The loop prints the briefly quoted form |
| TomlText.QuoteRoundTrip | linux/src/axan-toml.cc:60-88 | Every string survives quoting and decoding after the String section of TOML v1.0.0 |
| TomlText.QuotedIsPlain | linux/src/axan-toml.cc:60-88 | A quoted string contains no raw control character, so it cannot end its line, nor a comment |
| TomlText.BriefQuoteRoundTrip | linux/src/profile-toml.cc:86-99 | The brief quoting survives if and only if the string has no control characters besides newline and tab; otherwise the text cannot be decoded |
| TomlText.EscapesAreToml | linux/src/axan-toml.cc:60-88 | The decoder reads the escape sequences of TOML v1.0.0 by code point and no others |
| TomlText.UnicodeEscape | linux/src/axan-toml.cc:77-81 | A u escape is the code point in four hexadecimal digits |
| TomlText.IntRoundTrip | linux/src/axan-toml.cc:108-117 | A printed integer reads back if and only if it fits a signed 64-bit TOML integer |
| TomlText.ArrayRoundTrip | linux/src/axan-toml.cc:152-162 | Every string array survives printing and decoding |
| TomlText.PairLine | linux/src/axan-toml.cc:280-288 | A line of key, alignment, value and comment reads as that pair |
| TomlText.CommentLine | linux/src/axan-toml.cc:275-277 | A comment line is a no-op on import |
| SettingsToml.ToVariantIsMeaning | linux/src/axan-toml.cc:297-360 | A TOML value is taken if and only if it is of the kind of the expected type, and then gives the one setting it stands for: itself, or for an integer out of range the congruent one |
| SettingsToml.ToVariantIsTyped | linux/src/axan-toml.cc:297-360 | What the importer takes over is of the type of the key, C casts included |
| SettingsToml.NodeRoundTrip | linux/src/axan-toml.cc:297-360 | The TOML form of a set value converts back to the value |
| SettingsToml.ValueRoundTrip | linux/src/axan-toml.cc:97-166 | Printing and reading a set value gives it back; an unsigned value from 2^63 on cannot be read at all |
| SettingsToml.FormatVariant | linux/src/axan-toml.cc:97-166 | Prints the literal of the value, nothing for an unset one |
| SettingsToml.PrintsNothingIffUnset | linux/src/axan-toml.cc:267-278 | The printer yields an empty text exactly for unset maybes, so exactly these become comments |
| SettingsToml.EmitKey | linux/src/axan-toml.cc:252-289 | One line per key, with the note of the default when the value differs from it |
| SettingsToml.NoteIffModified | linux/src/axan-toml.cc:280-288 | A line carries the note if and only if the value is not the default, and the note shows the default or that it is unset |
| SettingsToml.EqualsSignsAlign | linux/src/axan-toml.cc:244-281 | The equals signs of a table stand in one column |
| SettingsToml.WidthFits | linux/src/axan-toml.cc:244-250 | The column is that of the widest name that is exported |
| SettingsToml.EmitSchemaScalars | linux/src/axan-toml.cc:225-291 | The exporter writes one aligned line per key that is not skipped |
| SettingsToml.ExportDecodes | linux/src/axan-toml.cc:225-291 | Exported lines decode to exactly the set keys with their values; they cannot be decoded if and only if some value is not representable |
| SettingsToml.ImportIsExact | linux/src/axan-toml.cc:374-428 | An import succeeds if and only if no pair is mistyped; then a key of the table has its value if and only if the range or enumeration of the key admits it or it was there already, all other keys (absent, unknown, skipped, refused) keep theirs, and the reported keys are exactly those that differed, each once |
| SettingsToml.ImportFailsIff | linux/src/axan-toml.cc:374-428 | An import fails if and only if some known key that is not skipped has a TOML value of another kind than its type takes |
| SettingsToml.ImportSetsKey | linux/src/axan-toml.cc:397-426 | A successful import gives a key of the table the value its TOML value stands for, unless the key may not have it, and reports it if and only if it is new |
| SettingsToml.ImportLeavesKey | linux/src/axan-toml.cc:374-395 | Every absent, skipped or unknown key keeps its value and is not reported |
| SettingsToml.RangeIsEnforced | linux/src/axan-toml.cc:417-426 | A column count is taken over if and only if it lies in 16 to 511 |
| SettingsToml.EnumerationIsEnforced | linux/src/axan-toml.cc:417-426 | A cursor shape is taken over if and only if it is block, ibeam or underline |
| SettingsToml.ImportTwice | linux/src/axan-toml.cc:379-381 | A repeated import changes nothing, and reports exactly the keys whose values were refused: nothing if and only if none was |
| SettingsToml.NothingRefusedIff | linux/src/axan-toml.cc:421-426 | From admissible values, nothing is refused if and only if every value of the table is one its key may have |
| SettingsToml.ImportKeepsFit | linux/src/axan-toml.cc:362-429 | An import leaves every key with a value of its type that its range or enumeration admits |
| SettingsToml.RefusedValueIsReportedAgain | linux/src/axan-toml.cc:417-426 | A column count of 3 is reported as changed on every import while the old value stays |
| SettingsToml.SortedSchemaIsUnique | linux/src/axan-toml.cc:232-242 | Sorting the keys by name leaves one list only, so the order in which the library lists them does not show |
| SettingsToml.ExportImport | linux/src/axan-toml.cc:225-428 | Importing the export of s into any s' yields s on every set key and s' on every unset or skipped one; into s itself it changes nothing |
| SettingsFile.ExportSettings | linux/src/settings-toml.cc:92-110 | Writes header, [settings] and [profiles] without the list key |
| SettingsFile.Settings.SetValue | linux/src/axan-toml.cc:422-422 | The settings library takes a value its key may have and refuses any other |
| SettingsFile.HeaderIsSkipped | linux/src/axan-toml.cc:213-223 | The header comments do not affect what the file says |
| SettingsFile.SettingsTextDecodes | linux/src/settings-toml.cc:92-110 | The exported file decodes if and only if all exported values are representable, and then to exactly the two exported tables |
| SettingsFile.ImportScalars | linux/src/axan-toml.cc:362-429 | The import loop over a delayed settings object |
| SettingsFile.FailedImportReports | linux/src/axan-toml.cc:374-428 | An import that fails has reported exactly what the pairs before the first mistyped one changed |
| SettingsFile.ImportSettings | linux/src/settings-toml.cc:147-178 | Both tables or none: a mistyped value in either leaves both settings objects as they were; keys changed until then are reported all the same |
| SettingsFile.SettingsFileRoundTrip | linux/src/settings-toml.cc:68-184 | Through the whole file: the second installation gets every set value of the first and nothing else; importing it where it came from reports nothing |
| ProfileFile.WriteEntry | linux/src/profile-toml.cc:101-127 | Prints the table of one entry, colour and target sparsely |
| ProfileFile.WriteEntries | linux/src/profile-toml.cc:207-217 | Prints the entries, or a comment when there are none |
| ProfileFile.ExportProfile | linux/src/profile-toml.cc:192-217 | Writes header, [profile] with the uuid and the settings, and the launch entries |
| ProfileFile.ReadEntry | linux/src/profile-toml.cc:297-311 | Reads the eight fields; a missing or non-string field is empty |
| ProfileFile.EntryIsRead | linux/src/profile-toml.cc:297-311 | Which key of a table gives which field; a missing or non-string one is empty |
| ProfileFile.EntryIsWritten | linux/src/profile-toml.cc:101-127 | Which field is written under which key of which table, colour and target only when set |
| ProfileFile.EntriesDecode | linux/src/profile-toml.cc:101-127 | Written entries decode to exactly their tables if and only if all their strings are clean |
| ProfileFile.LaunchEntriesRoundTrip | linux/src/profile-toml.cc:86-127 | Written entries can be read if and only if no string has control characters besides newline and tab, and come back with the colour target "both" normalised to empty |
| ProfileFile.SecondRoundTrip | linux/src/profile-toml.cc:86-127 | What was read back from a written list can be written and read again, and comes back unchanged |
| ProfileFile.ProfileTextDecodes | linux/src/profile-toml.cc:192-217 | The whole profile file decodes if and only if uuid and entries are clean and the values representable, and then to exactly the exported items |
| ProfileFile.ProfileFileRoundTrip | linux/src/profile-toml.cc:166-326 | Through the whole file: it can be read if and only if uuid and entries are clean and the values representable, and then gives back the uuid, every set value and nothing else, and the entries |
| ProfileImport.ReadElements | linux/src/profile-toml.cc:287-311 | The loop reads every entry, or fails at the first element that is not a table |
| ProfileImport.EnsureListed | linux/src/profile-toml.cc:129-153 | The uuid is appended unless it is listed already |
| ProfileImport.ImportProfile | linux/src/profile-toml.cc:227-332 | All or nothing, over the four ways to fail; on success values, entries, reported keys and profile list |
| ProfileImport.UuidIs | linux/src/profile-toml.cc:249-256 | The uuid is the string under that key, and nothing else |
| ProfileImport.JudgementIs | linux/src/profile-toml.cc:242-290 | Which failure is reported: no table, no string as uuid, some known key of the wrong kind, some launch entry that is no table, in this order; otherwise the import succeeds |
| ProfileImport.ProfileExportImport | linux/src/profile-toml.cc:166-332 | Every readable export imports over any state of a profile; set values and entries arrive, an empty entry list leaves the target entries alone |

## Left out

- User interface: widgets, focus, button sensitivity, labels, signals, and the early returns for a closed dialog.
- StartupEditor.Editor.ReorderToPreOrder: with repeated ids the walk can emit a row twice; what the toolkit does when a row is inserted a second time is not modelled.
- StartupEditor.Editor.LoadEntries: the same; a list on which the walk never ends has no result to describe.
- Rows without the row tag, and what the colour combo boxes do to colours outside the palette; colours are opaque text.
- How start-up selects the profile, and reading the setting; the entries are a parameter.
- The live sidebar and the spawn loop that consume the tabs.
- LaunchExpansion.ExpandEntries: tab defaults are reduced to the wait flag, since none of the others is touched by the entries.
- Regex.Matches: whether a text is matched in its context; which of several matches the matcher picks in running text is not modelled.
- Brackets.PathInnerIsBalanced: about PATH_INNER only; PATH with its terminator classes, host names, ports, user names and the assembled URL patterns are not modelled.
- Addresses.OctetPatterns: digits and hexadecimal digits are the ASCII ones.
- D-Bus plumbing, subscriptions, change signals and permissions of the settings bridge; a call either fails or returns a reply.
- BridgeCache.AgreesIffSingleLayer: the store has two layers and locked keys; it applies every write at once, in the order given.
- Settings of type double, int16, uint16 and byte, and the fallback printing of other types, which the importer cannot read or which depend on floating-point printing.
- SettingsToml.EmitSchemaScalars: the sort of the keys is a library call; the schema lists them in printing order, and SortedSchemaIsUnique says that there is only one.
- SettingsFile.Settings.SetValue: keys that an administrator has locked are not modelled; neither are ranges of floating-point keys.
- TomlText.QuoteRoundTrip: the decoder covers what the exporters print; dates, floats, literal and multi-line strings, inline tables, quoted keys, long \U escapes and the rejection of duplicate keys are not part of it.  Text is a sequence of characters, not of UTF-8 bytes.
- SettingsFile.ImportSettings: takes the parsed tables in any order; the parser behind it visits them sorted by key.
- ProfileImport.ImportProfile: the settings object of the uuid in the file is a parameter, and so is the profile list.
- File access, directory creation, logging, the quiet flag and schema lookup of exporters and importers.
- IconImport.Scan: file size and rendering are given, and the messages of the system in the reasons are left out.
- Locale-dependent character counting in the search history; a text is a sequence of characters.
- `terminal_environ_unsetenv_prefix`, accelerators, the server process, and everything else not named above.
