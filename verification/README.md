# Verified models of the log viewer's stateful cores

A Dafny model of seven parts of the desktop log viewer, with proofs of what they are relied
on for:

- **Notes and anchors** (`Utf8`, `Notes`, `Anchors`): the store of coloured, annotated rows,
  its byte-level note clean-up, and the signals that it emits.
- **The anchors dock** (`Mirror`, `Dock`): a sorted list kept up to date by small edits, with
  re-entrant inline editing. `Mirror` compares the edits with a full rebuild over whole runs;
  `Dock` is the widget's code. Qt signals are synchronous calls.
- **The bounded queue** (`Queue`): its critical sections as a class, and every interleaving
  of lock, sleep, spurious wakeup, unlock and notify-after-unlock as a state machine.
- **The export file** (`FileSinks`): a sink over two files in which every system call can fail.
- **The workspace** (`Workspaces`, `Snapshots`, `Publishing`, `Launches`): bounds, restore cap
  and merge as functions on values; publishing as a protocol on a disk where every
  operation can fail, reads included, and after whose every change the program can stop;
  launches and quits as runs over such disks.
- **The overview rail** (`Rail`): rows painted into buckets, with running totals.
- **The highlight cache** (`Highlights`): the last matching rule per row.

Each class is the program's code with its loops, proved against specification functions; the
lemmas are about those functions. Failures and the environment (which system call fails,
which sleeper is woken, in which order a hash map iterates) are parameters or arbitrary choices.

## Where the code and its documentation differ

The models follow the code.

- The dock's list is sorted by the key read back from its rows. For a locator that is not
  UTF-8, or starts with a byte order mark, that key differs from the stored one, and the list
  falls out of order (`Mirror.InSyncIffUtf8`). A note typed with a leading U+FEFF does not
  converge: each way through a `QString` takes one away (`Dock.EditConverges`).
- The walk-back of the note cap is documented to take at most three steps
  (`Notes.WalkBackBoundedIff`).
- `NotifyStop` is documented to make later `WaitEnqueue` calls fail; they succeed while a
  slot is free (`Queue.StoppedRefusesIffFull`). `DrainAll` wakes one producer, which is
  enough for one only (`Queue.WakeupsIffOneProducer`).
- A sink is documented as unusable after a throw; `Finish` after a `Write` that threw still
  publishes, a truncated file (`FileSinks.FinishAfterFailedWrite`). A temporary file outlives
  the sink when the removal behind a cross-device copy fails
  (`FileSinks.LeftoverIffCopyRemovalFails`).
- A failed snapshot copy is documented to clear the claim instead of publishing a false one.
  When two tabs share a session, the second tab's failed copy has already removed the first
  one's snapshot (`Publishing.CommitSafeIff`).
- The previous generation is documented to remain complete until the commit. A manifest that
  cannot be read counts as generation 0, so a published generation 1 is copied over
  (`Publishing.PublishSafeIff`).
- `Write` has no limit on the size of the document and `Read` has one: a workspace within all
  its bounds can be lost as a whole (`Workspaces.FullWorkspaceIsLost`,
  `Launches.UnreadLaunchLosesWindows`).
- A restore cap of 0 restores everything (`app/src/workspace_persistence.cpp:419`), and a
  quit with more than 64 windows loses the last ones (`Launches.QuitSavesDeferred`).
- `FirstProxyRowInBucket` is documented to give -1 for an empty bucket; it gives a row of
  another bucket (`Rail.FirstRowIffNonEmpty`). The running match total is documented as the
  sum of the buckets; after `SetMatchBucketCounts` it is the caller's total
  (`Rail.OverviewRailModel.SetMatchBucketCounts`). `anchorBucketsChanged` is documented to
  follow every change of a mask; it follows changes of the number of bits
  (`Rail.AnnouncedIff`, `Rail.RecolourIsNotAnnounced`).
- `RebindColumns` without a table leaves the old matches in place
  (`Highlights.HighlightRuleSet.RebindColumns`), and rows that are appended but not announced
  count as unmatched without being looked at (`Highlights.AppendInSyncIff`).

## Model

| member | source | states |
|---|---|---|
| Notes.SanitiseNote | app/src/anchor_manager.cpp:101-190 | the byte loops (rewrite, two trims, walk-back, cut, second trim) compute `Sanitise`, the function that the lemmas below are about |
| Notes.Truncate | app/src/anchor_manager.cpp:165-183 | the walk-back loop stops at the cut point |
| Notes.SanitiseIsClean | app/src/anchor_manager.cpp:101-190 | for every byte string, valid UTF-8 or not: at most 1024 bytes, no C0 or DEL byte, no U+2028 or U+2029, no space at an edge |
| Notes.CollapseLeavesNoBreaks | app/src/anchor_manager.cpp:119-149 | replacing breaks by spaces never joins bytes into a new separator |
| Notes.CollapseIsFolded | app/src/anchor_manager.cpp:119-149 | the rewrite of text, said of each code point by the one before it: a line feed behind a carriage return goes, every other break becomes one space, all else stays |
| Notes.FixpointIffClean | app/src/anchor_manager.cpp:101-190 | a string is left alone exactly when it is clean in that sense |
| Notes.SanitiseIdempotent | app/src/anchor_manager.cpp:101-190 | a second pass changes nothing |
| Notes.SanitiseEncoded | app/include/anchor_manager.hpp:97-103 | on UTF-8 the byte loops are a function on code points: CR LF and every break become one space, edges are trimmed, the longest prefix of whole code points within 1024 bytes is kept and trimmed |
| Notes.FittingIsLongest | app/include/anchor_manager.hpp:88-95 | the kept prefix fits and the next code point would not |
| Notes.CutOnEncoding | app/src/anchor_manager.cpp:165-183 | on UTF-8 the cut falls between code points, loses at most three bytes, and the branch for a trailing lead byte is never taken |
| Notes.SanitiseKeepsUtf8 | app/include/anchor_manager.hpp:97-103 | a note in UTF-8 stays in UTF-8 |
| Notes.MarkFirstSanitised | app/src/anchor_manager.cpp:101-190 | the sanitised text starts with U+FEFF exactly when the text does behind its leading spaces and breaks |
| Notes.WalkBackUnboundedOffUtf8 | app/src/anchor_manager.cpp:164-174 | off UTF-8 the walk-back has no bound: 1025 continuation bytes are dropped whole |
| Notes.WalkBackBoundedIff | app/src/anchor_manager.cpp:164-174 | for every over-long note: at most three steps exactly when one of the four bytes looked at is no continuation byte |
| Utf8.DecodeEncode | app/src/anchors_dock.cpp:683-700 | the way into a `std::string` and back loses a leading U+FEFF and nothing else |
| Utf8.Examples | app/src/anchors_dock.cpp:168-173 | the encodings given as examples in section 7 of RFC 3629 |
| Utf8.ValidIffEncoding | app/src/anchors_dock.cpp:921-922 | the byte strings that survive the way through `QString` are exactly the encodings of texts that do not start with U+FEFF |
| Anchors.AnchorManager.SetAnchor | app/src/anchor_manager.cpp:16-32 | new map, note kept on recolour, and one-key signal exactly when the map changed |
| Anchors.AnchorManager.SetAnchors | app/src/anchor_manager.cpp:34-76 | the loop with its counter paints the set of the keys; silence, one-key signal or reset by the number of distinct keys that changed, duplicates in the span included |
| Anchors.PaintEachCounts | app/src/anchor_manager.cpp:34-76 | setting keys one by one equals painting their set, and the counter is the number of keys at which old and new map differ |
| Anchors.PaintedIs | app/src/anchor_manager.cpp:16-76 | anchor by anchor: colour clamped to slot 7, note kept or empty, others as they were |
| Anchors.AnchorManager.RemoveAnchor | app/src/anchor_manager.cpp:192-205 | new map and signal exactly when something was removed |
| Anchors.AnchorManager.RemoveAnchors | app/src/anchor_manager.cpp:207-241 | as `SetAnchors`, for removal |
| Anchors.EraseEachCounts | app/src/anchor_manager.cpp:207-241 | removing keys one by one equals removing their set, counter included |
| Anchors.RemovedIs | app/src/anchor_manager.cpp:192-241 | anchor by anchor: exactly the named keys go |
| Anchors.AnchorManager.SetAnchorNote | app/src/anchor_manager.cpp:78-99 | sanitised note stored for an existing anchor; note signal exactly when the map changed |
| Anchors.NotedIs | app/src/anchor_manager.cpp:78-99 | only the note of the key changes, to the sanitised one, and no anchor comes or goes |
| Anchors.AnchorManager.ClearAll | app/src/anchor_manager.cpp:243-252 | empty map, reset exactly when it was not empty |
| Anchors.AnchorManager.Replace | app/src/anchor_manager.cpp:254-291 | the map of the last entries, clamped and sanitised; the result counts the distinct keys whose last entry was off the palette; reset exactly when the map differs |
| Anchors.LastEntryIsLast | app/include/anchor_manager.hpp:123-125 | last wins: a key has the entry behind which it does not occur again |
| Anchors.LastEntryKeys | app/src/anchor_manager.cpp:254-291 | the loaded map has the keys of the list and no others |
| Anchors.LoadedIs | app/src/anchor_manager.cpp:254-291 | the last entry of a key decides colour, clamped to slot 7, and sanitised note, and the key counts as clamped exactly when that entry's colour is 8 or more |
| Anchors.AnchorManager.BuildSortedEntries | app/src/anchor_manager.cpp:313-342 | walking the hash map in any order and sorting gives the one listing of the map |
| Anchors.ListingUnique | app/include/anchor_manager.hpp:138-140 | a map has one strictly ascending listing, so the listing does not depend on the iteration order |
| Anchors.ListedIs | app/include/anchor_manager.hpp:138-151 | an entry carries its anchor's own values |
| Anchors.ListedAll | app/include/anchor_manager.hpp:138-151 | every anchor is listed once |
| Anchors.ListedInOrder | app/src/anchor_manager.cpp:326-341 | entries are ordered by the first byte in which the locators differ, then by line |
| Anchors.PersistentIs | app/src/anchor_manager.cpp:313-325 | anchors without a locator are left out, and no others |
| Anchors.AnchorManager.Entries | app/src/anchor_manager.cpp:344-347 | the listing of the anchors with a locator |
| Anchors.AnchorManager.EntriesIncludingRuntimeOnly | app/src/anchor_manager.cpp:349-352 | the listing of all anchors |
| Anchors.RunStored | app/include/anchor_manager.hpp:28-32 | after every run of operations all colours name a palette slot and all notes are fixpoints of `Sanitise` |
| Anchors.LoadListing | app/src/anchor_manager.cpp:254-291 | loading a listing gives the map back and clamps nothing |
| Anchors.SaveAndReload | app/include/anchor_manager.hpp:138-151 | in every reachable state: reloading the full listing is the identity, counts 0 and is silent; reloading `Entries` leaves exactly the anchors with a locator |
| Mirror.MirrorsIffShows | app/src/anchors_dock.cpp:503-562 | equality with a rebuild, row by row: ascending keys, every row as a rebuild would fill it, every anchor with a locator present |
| Mirror.AnchorChangedMirrors | app/src/anchors_dock.cpp:814-943 | the surgical delete, recolour and sorted insert keep the list equal to a rebuild |
| Mirror.AnchorNoteChangedMirrors | app/src/anchors_dock.cpp:945-1005 | so does the note update |
| Mirror.DeliveryMirrors | app/src/anchors_dock.cpp:341-363 | so does every mutation of the store, delivered with the signal it emits |
| Mirror.SignalUnique | app/include/anchor_manager.hpp:160-174 | a mutation can be announced in one way only |
| Mirror.RunInSync | app/src/anchors_dock.cpp:814-1005 | over locators that survive `QString` the visible dock equals a rebuild after every run of mutations, hides and shows |
| Mirror.InvalidLocatorBreaks | app/src/anchors_dock.cpp:908-931 | for every locator that does not survive there is a run of three events after which the order is wrong |
| Mirror.InSyncIffUtf8 | app/src/anchors_dock.cpp:814-1005 | every run stays in sync exactly when all locators are UTF-8 and none starts with a byte order mark |
| Mirror.RebuildKeepsSelection | app/src/anchors_dock.cpp:509-594 | after a rebuild a key is selected exactly when it was selected and survives |
| Mirror.AnchorChangedKeepsSelection | app/src/anchors_dock.cpp:845-937 | behind a delete, recolour or insert an id is selected exactly when it was and its row is still there |
| Mirror.NoteChangedKeepsSelection | app/src/anchors_dock.cpp:945-1005 | so behind a note update |
| Mirror.RunKeepsSelection | app/src/anchors_dock.cpp:814-1005 | over every run of mutations, hides and shows an id is selected at the end exactly when it was at the start and its row never went |
| Mirror.MirrorShowsAnchors | app/src/anchors_dock.cpp:219-251 | cells and tooltips of the list are those of the anchors with a locator, in the order of the listing |
| Dock.EditConverges | app/src/anchors_dock.cpp:670-701 | whatever is typed, no other row moves; cell, stored note and sanitised text coincide exactly when the text does not start with U+FEFF behind leading spaces and breaks, and then the list still equals a rebuild; in general it does unless the store had the note and the cell shows another |
| Dock.CommittedMirrors | app/src/anchors_dock.cpp:670-701 | storing an edited note and handling the signal that comes back keeps the mirror, unless the note was stored already and the cell shows another text |
| Dock.CommittedRow | app/src/anchors_dock.cpp:991-1004 | the signal that comes back rewrites the edited row and no other |
| Dock.CellTextStored | app/src/anchors_dock.cpp:686-700 | the text put back into the cell is what the store keeps exactly when the typed text does not start with U+FEFF behind leading spaces and breaks |
| Dock.AnchorsDock.RowOf | app/src/anchors_dock.cpp:825-841 | the search finds the first row of a key, or none |
| Dock.AnchorsDock.PosFor | app/src/anchors_dock.cpp:908-931 | the insert position is the first row that sorts behind the key |
| Dock.AnchorsDock.OnAnchorChanged | app/src/anchors_dock.cpp:814-943 | on a visible dock the rows change as `Mirror` says, selection included, an edit or focus stays on its row, no other row gets either, the suppression counter is restored; a hidden dock does nothing |
| Dock.AnchorsDock.OnAnchorNoteChanged | app/src/anchors_dock.cpp:945-1005 | note cell and tooltip of the row, or a rebuild when the row is missing; counter restored |
| Dock.AnchorsDock.RefreshAlways | app/src/anchors_dock.cpp:503-595 | the rows of the store with the selection put back by key; current row and note-column focus persist exactly when the key survives; counter restored |
| Dock.AnchorsDock.Restore | app/src/anchors_dock.cpp:569-594 | the loop that puts selection and focus back |
| Dock.AnchorsDock.Refresh | app/src/anchors_dock.cpp:492-501 | nothing happens while hidden |
| Dock.AnchorsDock.OnVisibilityChanged | app/src/anchors_dock.cpp:329-338 | becoming visible rebuilds |
| Dock.AnchorsDock.OnItemChanged | app/src/anchors_dock.cpp:670-701 | suppressed, unbound or anchor-column changes are ignored; otherwise one write to the store, and store and view are those of a committed edit |
| Dock.AnchorsDock.CommitEditor | app/src/anchors_dock.cpp:670-701 | from commit through the re-entrant handlers, on any dock: a suppressed or unbound one keeps the text in the cell; else one write to the store, and a visible mirroring dock converges; counter restored |
| Dock.AnchorsDock.CloseInPlaceEditors | app/src/anchors_dock.cpp:365-384 | an open editor's text does not reach the store; counter restored |
| Dock.AnchorsDock.Bind | app/src/anchors_dock.cpp:386-469 | neither store changes, the old tab remembers its current key, the list is that of the new store, and the remembered key is current, and alone selected, exactly when a row has it |
| Dock.AnchorsDock.Mutate | app/src/anchors_dock.cpp:341-363 | a mutation through the store and the connected handlers is one step of the runs of `Mirror` |
| Queue.BoundedBatchQueue.Admit | app/include/bounded_batch_queue.hpp:54-68 | behind the wait: accepted exactly when a slot is free, otherwise dropped and counted |
| Queue.BoundedBatchQueue.DrainAll | app/include/bounded_batch_queue.hpp:72-83 | everything buffered, in order |
| Queue.BoundedBatchQueue.NotifyStop | app/include/bounded_batch_queue.hpp:88-95 | the stop flag, nothing else |
| Queue.BoundedBatchQueue.Reset | app/include/bounded_batch_queue.hpp:102-108 | no items, not stopped, nothing dropped: the queue equals a new one of its capacity |
| Queue.AlwaysSafe | app/include/bounded_batch_queue.hpp:54-108 | in every interleaving of any number of threads: mutual exclusion, size within the capacity asked for, drained and waiting batches are the accepted ones in order, drop counter equals refused calls, and nobody sleeps once the stop's broadcast is through |
| Queue.DropsOnlyWhenStoppedAndFull | app/include/bounded_batch_queue.hpp:57-67 | a batch is dropped only by a stopped and full queue |
| Queue.AlwaysInOrder | app/include/bounded_batch_queue.hpp:16-23 | one producer: every batch handed in has its fate in the order of the calls |
| Queue.WakeupsIffOneProducer | app/include/bounded_batch_queue.hpp:70-83 | no interleaving leaves a sleeper that may proceed without a pending notification exactly when at most one thread enqueues |
| Queue.TwoProducersLose | app/include/bounded_batch_queue.hpp:72-83 | for every capacity, two producers and a drain lose a wakeup |
| Queue.NotifyStopWakesAll | app/include/bounded_batch_queue.hpp:88-95 | an undisturbed `NotifyStop` sets the flag, wakes every sleeper and leaves the batches |
| Queue.ResetIsFresh | app/include/bounded_batch_queue.hpp:98-108 | an undisturbed `Reset` leaves the queue as newly made |
| Queue.StopAndResetBlocks | app/include/bounded_batch_queue.hpp:98-108 | after a stop and a reset a full queue sends the producer to sleep again and drops nothing |
| Queue.RefusedOnlyAfterStop | app/include/bounded_batch_queue.hpp:47-68 | in every run a batch is refused only if a stop came since the last reset, and the flag says exactly that |
| Queue.StopReleasesProducers | app/include/bounded_batch_queue.hpp:88-95 | after a stop, over schedules of the calls in progress: while a producer is in a call some thread can go on, and all steps together are bounded by a rank |
| Queue.StopDecreases | app/include/bounded_batch_queue.hpp:88-95 | each such step lowers the rank |
| Queue.StopProgresses | app/include/bounded_batch_queue.hpp:88-95 | no deadlock after a stop |
| Queue.StopBoundsCall | app/include/bounded_batch_queue.hpp:85-95 | after a stop a producer's call returns within five steps of its own, whatever the others do, new calls included, and until then some thread can go on |
| Queue.StopBringsNearer | app/include/bounded_batch_queue.hpp:85-95 | no step of another thread, new calls included, brings the call further from its end, and its own bring it nearer |
| Queue.StoppedRefusesIffFull | app/include/bounded_batch_queue.hpp:85-87 | a stopped queue refuses a call exactly while it is full |
| FileSinks.FileSink.constructor | app/src/export_sink.cpp:78-88 | an open, empty temporary file; the destination is untouched |
| FileSinks.FileSink.Write | app/src/export_sink.cpp:107-123 | throws exactly when closed or cut short; an empty write of an open sink does nothing |
| FileSinks.FileSink.Finish | app/src/export_sink.cpp:125-188 | flush, close, rename, cross-device copy, each with its failure branch, what it leaves and whether it throws; idempotent |
| FileSinks.FileSink.Destroy | app/src/export_sink.cpp:90-105 | abort unless finished |
| FileSinks.AllOrNothing | app/include/export_sink.hpp:49-51 | after every run with any failures: an unfinished sink has left the destination as it was unless a cross-device copy failed; a finished one published everything handed in exactly when no write threw |
| FileSinks.FinishReports | app/include/export_sink.hpp:70-75 | over every run: `Finish` goes without an exception exactly when the sink is finished behind it, the destination then holding every byte taken; an exception leaves it closed and unfinished |
| FileSinks.FinishSucceedsIff | app/src/export_sink.cpp:125-188 | an open sink finishes exactly when flush, close and either rename or cross-device copy succeed |
| FileSinks.WriteReports | app/src/export_sink.cpp:107-123 | an open sink's write goes without an exception exactly when all its bytes are taken; a closed sink throws and takes nothing |
| FileSinks.FailedMoveCleansUp | app/src/export_sink.cpp:166-185 | a move that fails removes the temporary file at once |
| FileSinks.RunConsistent | app/src/export_sink.cpp:78-188 | file and buffer together are the bytes taken, at every moment |
| FileSinks.FinishedIsFinal | app/include/export_sink.hpp:70-72 | no later call touches a file |
| FileSinks.FinishAfterFailedWrite | app/include/export_sink.hpp:16-22 | finishing without a fault publishes even after a write that threw, and the file is then too short, and only then |
| FileSinks.DestructionLeavesNoTemp | app/include/export_sink.hpp:60-61 | when removals succeed no temporary file is left, whatever else failed |
| FileSinks.LeftoverIffCopyRemovalFails | app/src/export_sink.cpp:160-177 | with a destructor that can remove, a temporary file is left exactly when the removal behind a successful cross-device copy failed |
| Workspaces.Sanitize | app/src/workspace_persistence.cpp:269-308 | the loops that clamp windows, tabs, identifiers, blobs and focus order compute `Sanitized` |
| Workspaces.SanitizeFixpointIffBounded | app/include/workspace_persistence.hpp:229-233 | the results are within all bounds, and a workspace is left alone exactly when it is |
| Workspaces.SanitizedWindowIs | app/src/workspace_persistence.cpp:276-294 | texts are cut to a prefix, blobs dropped, tabs cut from behind, the active tab reset, and nothing else |
| Workspaces.SanitizedIs | app/src/workspace_persistence.cpp:269-308 | the first 64 windows and the first 64 non-empty focus entries are kept |
| Workspaces.WrittenIsReadBack | app/src/workspace_persistence.cpp:152-336 | what `Write` writes is read back unchanged exactly when the document has at most 32 MiB; a larger one reads as no workspace |
| Workspaces.ReadAcceptsIff | app/include/workspace_persistence.hpp:166-178 | any document: accepted exactly within size, version, counts and encoded bounds, and then read bounded |
| Workspaces.FullWorkspaceIsLost | app/src/workspace_persistence.cpp:318-321 | a workspace within all its bounds is larger than that, however its document is laid out |
| Workspaces.MergeCapturedWithDeferred | app/src/workspace_persistence.cpp:431-479 | the loops with their sets of seen identifiers compute `Merged` |
| Workspaces.MergeKeepsAndMissesNothing | app/include/workspace_persistence.hpp:249-260 | captured windows stay in front, no known, repeated or anonymous window is added, added windows are unchanged, no deferred UUID is missing |
| Workspaces.MergedMruIsDeduplicated | app/src/workspace_persistence.cpp:454-469 | the focus order has each non-empty entry of both once |
| Workspaces.MergedMruKeepsOrder | app/include/workspace_persistence.hpp:253-254 | entries stay in the order of their first occurrence, captured ones first |
| Workspaces.MergedIs | app/src/workspace_persistence.cpp:470-477 | version and generation are the captured ones unless absent |
| Workspaces.RestoreCapRoundTrip | app/include/workspace_persistence.hpp:235-260 | the plan restores as many windows as the cap allows, all for a cap of 0, and defers the rest; splitting and merging gives back all windows in order exactly when the deferred UUIDs are present, distinct and not among the restored |
| Launches.LoadForLaunch | app/src/workspace_persistence.cpp:493-505 | the manifest, or an empty workspace when it cannot be read, split by the cap |
| Launches.Quit | app/src/main.cpp:410-412 | merge with the deferred windows, then publish: the quit of the cycles below; it publishes exactly when enabled, with a directory and a commit that work |
| Launches.IdleCycleKeepsIff | app/src/main.cpp:410-412 | an untouched launch and quit, whatever fails at the quit, loses no window and nothing of one but claims exactly when the launch read the manifest, or nothing was published, or there were no windows |
| Launches.CyclesKeepWindows | app/src/workspace_persistence.cpp:413-505 | so over any number of launches and quits with any caps |
| Launches.FaultlessCycleKeepsAllIff | app/src/workspace_persistence.cpp:541-620 | without failures the windows stay as they are, claims included, exactly when every claim can be copied |
| Launches.RestorableIsSourced | app/include/workspace_persistence.hpp:306-312 | on a restorable disk whose claims are UUIDs every claim can be copied, whatever became of the session files |
| Launches.FaultlessCyclesKeepAll | app/src/workspace_persistence.cpp:493-620 | over any number of such launches and quits windows and claims stay, and stay restorable |
| Launches.QuitSavesDeferred | app/src/workspace_persistence.cpp:444-452 | whatever was captured, a published quit saves each deferred window with a UUID of its own, unchanged but for claims, with at most 64 windows in all; with more, windows are lost |
| Launches.UnreadLaunchLosesWindows | app/src/workspace_persistence.cpp:493-505 | a launch that could not read the manifest, being too large for one, loses all its windows at the next published quit |
| Snapshots.NoFalseClaimIffDistinct | app/include/workspace_persistence.hpp:306-318 | the claims that are kept are covered, whatever fails, exactly when no session with a source belongs to two tabs |
| Snapshots.RepeatedUncovered | app/src/workspace_persistence.cpp:529-537 | for every such repetition there is a failure that leaves the first tab's claim false |
| Snapshots.LastClaimHolds | app/src/workspace_persistence.cpp:552-577 | the claim of the last tab of a session is true, whatever fails |
| Snapshots.KeptIsSourced | app/include/workspace_persistence.hpp:306-318 | a claim stays as it is or is cleared, and one that stays was copied from the recents or the previous generation |
| Snapshots.KeptContent | app/src/workspace_persistence.cpp:562-575 | the snapshot behind a kept claim is the recent file or the previous snapshot of that session, the recent one whenever it was copied |
| Snapshots.UuidForms | app/include/uuid_utils.hpp:24-27 | five hex fields are a UUID unless all zero, with or without braces |
| Snapshots.UuidIsNoPath | app/include/uuid_utils.hpp:18-27 | a UUID has no slash and no dot in it, so it leads out of no directory |
| Snapshots.FaultlessKeepsSourced | app/src/workspace_persistence.cpp:541-579 | without failures exactly the tabs without a source lose their claim |
| Publishing.WorkspaceStore.CopySnapshotFile | app/src/workspace_persistence.cpp:529-537 | remove, then copy; the published claims are untouched unless the session is one of them and the directory theirs |
| Publishing.WorkspaceStore.WriteGenerationSnapshots | app/src/workspace_persistence.cpp:541-579 | the nested loops copy as `CopyTabs` says, into any generation, and keep the published claims true after every single change unless one of them is copied over |
| Publishing.HarmlessIff | app/src/workspace_persistence.cpp:601-611 | copying can harm the published claims exactly when the manifest was not read, generation 1 is the published one, and a claimed recent session is among the tabs |
| Publishing.CopyingSafeIff | app/src/workspace_persistence.cpp:541-579 | the copying leaves the published manifest restorable, whatever fails, exactly when it is harmless in that sense |
| Publishing.UnreadManifestIsHarmed | app/src/workspace_persistence.cpp:601-611 | for every such disk and workspace there is a failure that leaves a published claim false |
| Publishing.CommitSafeIff | app/include/workspace_persistence.hpp:327-337 | whatever copies fail, the committed claims hold exactly when no session with a source belongs to a tab that is saved and to a later one |
| Publishing.PublishSafeIff | app/include/workspace_persistence.hpp:327-337 | a call is safe before and after its commit, whatever fails, exactly under both conditions |
| Publishing.WorkspaceStore.CollectSupersededGenerations | app/src/workspace_persistence.cpp:581-599 | whatever the order, the kept generation stays as it is and the others go exactly when their removal works; when the kept one is published the disk stays restorable throughout |
| Publishing.WorkspaceStore.Write | app/src/workspace_persistence.cpp:356-384 | a failed or disabled write changes nothing; a successful one replaces the manifest by its bounded form |
| Publishing.WorkspaceStore.Publish | app/src/workspace_persistence.cpp:601-620 | a call publishes exactly when enabled, with a directory and a commit that work; in a harmless call with distinct sessions the disk is restorable after every single change; a failed call does no more than copy |
| Rail.BucketIsRun | app/src/overview_rail_model.cpp:478-487 | the rows of a bucket are one run, from ceil(b*M/N) up to ceil((b+1)*M/N) |
| Rail.RunsAreEven | app/src/overview_rail_model.cpp:227-240 | every run has M/N rows, rounded down or up |
| Rail.BucketAtLeast | app/src/overview_rail_model.cpp:478-487 | bucket indices are in range, and the clamp to the last bucket never acts |
| Rail.FirstRowIffNonEmpty | app/src/overview_rail_model.cpp:227-240 | the least row of the bucket exactly when the bucket has one; otherwise the first row of a later bucket, or the last row of all |
| Rail.ManyRowsFillBuckets | app/src/overview_rail_model.cpp:227-240 | no bucket is empty with at least as many rows as buckets |
| Rail.PixelHitsItsBucket | app/src/overview_rail_model.cpp:242-259 | with one bucket per pixel a click leads into the bucket at the pixel exactly when y*M is divisible by N, else one row above it |
| Rail.PixelsAreClamped | app/src/overview_rail_model.cpp:242-259 | every pixel leads to a row, those outside the rail to the row of its first or last pixel, and rows ascend with pixels |
| Rail.OutsideIsAbsent | app/src/overview_rail_model.cpp:227-240 | -1 exactly for rows, buckets and rails that do not exist |
| Rail.RebuiltShowsRuns | app/src/overview_rail_model.cpp:325-406 | after a rebuild each bucket has the level counts and the anchor slots of its run of rows |
| Rail.MarkedShows | app/src/overview_rail_model.cpp:393-403 | with the matches put back: stored counts while their number fits, else the distinct listed rows of the bucket |
| Rail.LevelsCountRows | app/src/overview_rail_model.cpp:325-406 | the level counts of all buckets add up to the reachable rows |
| Rail.MatchesCountHits | app/src/overview_rail_model.cpp:444-463 | each bucket counts the distinct matching rows that it holds, levels and slots untouched |
| Rail.MatchTotal | app/src/overview_rail_model.cpp:444-463 | folding matches moves the match total by the rows in range and the slot total not at all |
| Rail.OverviewRailModel.RebuildInternal | app/src/overview_rail_model.cpp:325-406 | every bucket shows the levels and anchor slots of its run, and the matches of the row list or the stored counts; running totals equal the sums; emits exactly when the number of set bits differs from the one kept from before |
| Rail.OverviewRailModel.SetBucketCount | app/src/overview_rail_model.cpp:96-124 | buckets of the new size, rebuilt, totals equal to the sums; emits exactly when the number of set bits changed across the resize, and repaints exactly when the source does |
| Rail.OverviewRailModel.RebuildNow | app/src/overview_rail_model.cpp:185-193 | the same rebuild on a rail with right totals emits exactly when the number of set bits changed |
| Rail.OverviewRailModel.SetMatchProxyRows | app/src/overview_rail_model.cpp:126-150 | sorted, deduplicated, counted per bucket against the live row count; total equals the sum |
| Rail.OverviewRailModel.SetMatchBucketCounts | app/src/overview_rail_model.cpp:152-178 | a size mismatch changes nothing; else the counts are shown, and the running total is their sum exactly when the given total is |
| Rail.OverviewRailModel.DominantLevel | app/src/overview_rail_model.cpp:195-225 | most frequent level, the most severe of several, `Unknown` without rows |
| Rail.RecolourIsNotAnnounced | app/src/overview_rail_model.cpp:606-612 | the witness: a recoloured anchor changes a mask but not the number of bits, so no anchor signal goes out |
| Rail.AnnouncedIff | app/include/overview_rail_model.hpp:184-186 | a signal that follows the number of bits announces a change of the masks exactly when there is none or the numbers differ |
| Rail.AddedOrRemovedIsAnnounced | app/src/overview_rail_model.cpp:606-612 | anchors that are only added, or only removed, are announced exactly when they change a mask |
| Highlights.Scan | app/src/highlight_rule_set.cpp:167-194 | the last active rule that matches, or -1 |
| Highlights.HighlightRuleSet.LastMatchFor | app/src/highlight_rule_set.cpp:59-71 | the cached rule of a row, none outside the cache |
| Highlights.HighlightRuleSet.RecompileAll | app/src/highlight_rule_set.cpp:124-165 | at most 32767 rules, the first ones, each compiled, active and inactive ones counted |
| Highlights.HighlightRuleSet.EvaluateRow | app/src/highlight_rule_set.cpp:179-191 | the loop from behind computes the scan |
| Highlights.HighlightRuleSet.SetRules | app/src/highlight_rule_set.cpp:207-227 | new rules, cache rebuilt by scan, or empty without a table |
| Highlights.HighlightRuleSet.RebindColumns | app/src/highlight_rule_set.cpp:229-254 | with a table rebuilt by scan; without one the cache stays and is right exactly when old and new rules agree on the rows |
| Highlights.HighlightRuleSet.OnRowsAppended | app/src/highlight_rule_set.cpp:256-279 | only the announced rows are scanned, the cache grown without a look at others |
| Highlights.HighlightRuleSet.OnRowsEvicted | app/src/highlight_rule_set.cpp:281-295 | the entries are cut out, over-runs clamped |
| Highlights.HighlightRuleSet.ClearMatches | app/src/highlight_rule_set.cpp:297-305 | empty cache, rules kept |
| Highlights.HighlightRuleSet.Handle | app/include/highlight_rule_set.hpp:28-34 | the methods together perform the steps of the runs |
| Highlights.AppendInSyncIff | app/src/highlight_rule_set.cpp:256-279 | after an append the cache is right exactly when no row between the old ones and the first announced one matches a rule |
| Highlights.EvictInSync | app/src/highlight_rule_set.cpp:281-295 | cutting rows out of table and cache keeps the cache right |
| Highlights.CutRulesShowIff | app/src/highlight_rule_set.cpp:124-141 | cutting off rules beyond 32767 leaves a row's last match exactly when none of them matches it |
| Highlights.ActiveCounts | app/src/highlight_rule_set.cpp:144-164 | the counter is the number of rules that compile |
| Highlights.StepIs | app/include/highlight_rule_set.hpp:26-32 | what each trigger does to rules and table |
| Highlights.RunInSync | app/include/highlight_rule_set.hpp:28-40 | after every run of rule changes, rebinds, appends, evictions and resets the cache equals a scan from scratch |

## Left out

- Painting, icons, tooltip and label wording, menus, timers and dialogs; a tooltip is the tuple of the values it is built from.
- Dock.AnchorsDock.TakeRow: which row becomes current when the current one is deleted is Qt's choice, so it is left open.
- Dock.AnchorsDock.OnVisibilityChanged: `isHidden` and the perceived visibility are one flag.
- Dock.AnchorsDock.CommitEditor: Qt refreshing the text of an open editor on `dataChanged` is not modelled.
- Dock.AnchorsDock.Bind: tabs are compared as objects; the model, theme and log-session connections that only trigger `Refresh` are one `Refresh`.
- Utf8.DecodeEncode: `QString` is a sequence of Unicode scalar values, so text with unpaired surrogates is outside the model; that a leading byte order mark is skipped and that a byte that starts no well-formed sequence becomes one U+FFFD is Qt's decoder, which is not part of this model.
- Anchors.AnchorManager.BuildSortedEntries: `std::sort` is an insertion sort, hash-table internals are an arbitrary choice of the next key.
- Queue.BoundedBatchQueue.Admit: the lock-free read of the drop counter and memory order; the model has the counter under the mutex, where it is written.
- Queue.StopBoundsCall: fairness of the scheduler and of the mutex between threads that compete for it.
- FileSinks.FileSink.constructor: an `fopen` that fails throws before there is a sink; error texts are not modelled.
- FileSinks.FileSink.Write: a short write keeps the bytes that it reports; C libraries that also discard buffered bytes are outside the model.
- Workspaces.WrittenIsReadBack: the JSON text itself; its size is a parameter, of which only a lower bound of one byte per code unit is used.
- Publishing.WorkspaceStore.Publish: a read either fails or returns what was written last.
- Snapshots.KeptIsSourced: a copy is atomic; `QUuid` is the 36- or 38-character form, letters in either case, and file names are compared exactly.
- Publishing.WorkspaceStore.CollectSupersededGenerations: directories whose name is not a number are not modelled.
- Rail.OverviewRailModel.RebuildInternal: the walk through the proxy chain is a parameter, counters do not wrap at 32 bits, and the 50 ms coalescing timer is not modelled; between `SetMatchProxyRows` and the next rebuild the level counts are those of the rows of the last rebuild.
- Highlights.HighlightRuleSet.RecompileAll: resolving columns and compiling predicates is a parameter, and a compiled predicate looks at the row only.
- Single-entry queries, `Take`, `Clear`, `HasPersistedWorkspace`: each is one branch.
