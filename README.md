# iromo core in Dafny

iromo is a desktop tool for incremental reading. A collection holds topics, and each topic is a block of text. A topic can have child topics, so the topics form a forest. The user can select a span of a topic's text and extract it into a new child topic. The extraction is recorded as a link from the parent to the child with the span's start and end offsets, and the span stays highlighted in the parent's editor. Every edit goes through an undo/redo engine.

This project models the core of that program and proves properties of the model:

- **`DataManager`** (`data_manager.dfy`): the topic store.
  - `TopicStore` is a class holding:
    - the `topics` table;
    - the text files, as a map from file path to content;
    - the `extractions` table;
    - the migration ledger.
  - Things the program gets from outside are method parameters: fresh ids, timestamps, and every SQLite or file-system failure.
  - Pure functions cover the initial-title rule, the file-path rule, the hierarchy ordering and the migration run.
- **`Undo`** (`undo_manager.dfy`): the undo/redo engine.
  - `UndoManager` is a class with two stacks and the log of signals it emits.
  - A command is generic. Its execute, undo or redo outcome (success, or a raised error) is a parameter.
  - The stack discipline is also stated on pure `History` values, with lemmas relating undo and redo.
- **`Commands`** (`topic_commands.dfy`): the six concrete commands.
  - They run against an abstract `StoreInterface`, which records every request it receives.
  - Its replies come from an arbitrary function of the request history.
  - The contracts state exactly which store calls each command makes, in what order, and how it reacts to a failed reply.
  - They also cover the de-duplicating snapshot of the multi-delete command.
- **`Editor`** (`topic_editor.dfy`): the extraction offset convention.
  - A selection is reported with an inclusive end, and a span is highlighted over the half-open range.
  - The highlights of a topic are re-applied from the store.
- **`Tree`** (`knowledge_tree.dfy`): assembly of the topic forest from the flat hierarchy rows, worked over row indices instead of Qt items. Also adding an item and renaming one.
- **`Window`** (`main_window.dfy`): the pure pieces of the main window:
  - the window title;
  - the title derived for an extracted child;
  - the guards of the extract action;
  - the no-op check on a title edit.
- **`Settings`** (`settings_dialog.dfy`): the descriptive name of a shortcut action, and the autosave-interval combo box as it is loaded, saved and applied.
- **`Text`** (`text.dfy`) and **`Wrappers`** (`wrappers.dfy`) are helpers.
  - `Text` models the Python string operations the core uses: `strip`, `splitlines`, `split`, `join`, `capitalize`, `find` and `sorted`.
  - `Wrappers` holds `Option`, `Outcome` and Python truthiness for optional values.

Python's `None` is `Option.None`. A raised exception is `Outcome.Fail` with its message.

`add_topic_item` is modelled as written: it recognises the placeholder row by its text. A real topic titled "No topics yet. Add one!" that sits first among the roots is therefore removed, just like the placeholder. The contract of `Tree.KnowledgeTree.AddTopicItem` states this.

## Model

| member | source | states |
|---|---|---|
| `Text.Strip` | src/data_manager.py:91 | the result is the slice of the input between its leading and trailing whitespace: everything before and after it is whitespace and its own ends are not; it is empty exactly when the input is blank |
| `Text.IndexOf` | src/main_window.py:522 | `-1` exactly when the character is absent, otherwise the index of its first occurrence |
| `Text.Split` | src/settings_dialog.py:416 | at least one part, and no part contains the separator |
| `Text.JoinSplit` | src/settings_dialog.py:416 | joining the parts of a split with the separator gives back the original string |
| `Text.Capitalize` | src/settings_dialog.py:416 | same length; the first character upper-cased, every other one lower-cased |
| `Text.Lines` | src/data_manager.py:91 | at least one line, and no line contains a line break; `Text.LinesRebuild` ties the lines to the input |
| `Text.LinesRebuild` | src/data_manager.py:91 | the lines, with each of the input's break characters put back between consecutive lines, give the input again, so nothing is dropped or reordered |
| `Text.NonBlank` | src/data_manager.py:91 | keeps only non-blank lines taken from the input; empty exactly when every line is blank |
| `Text.SortStrings` | src/data_manager.py:38 | the result is sorted in lexicographic order and is a permutation of the input |
| `Text.StrLeqTotal` | src/data_manager.py:38 | any two strings are comparable under the lexicographic order |
| `Text.StrLeqTrans` | src/data_manager.py:38 | the lexicographic order is transitive |
| `Text.StrLeqAntisym` | src/data_manager.py:38 | two strings that are each at most the other are equal |
| `DataManager.GenerateInitialTitle` | src/data_manager.py:86-94 | `_generate_initial_title`; what it returns in every case is stated by `DataManager.InitialTitleShape` and `DataManager.LinesAllBlank` |
| `DataManager.LinesAllBlank` | src/data_manager.py:91-92 | every line of a text is blank exactly when the text is blank, so the fallback to the whole text happens only for blank text |
| `DataManager.InitialTitleShape` | src/data_manager.py:86-94 | empty text gives "Untitled Topic"; otherwise the chosen line is the first non-blank line (preceded only by blank lines, free of line breaks), or the whole text when it is blank; it is kept when at most 70 characters, else cut to 70 plus "..."; the title never exceeds 73 characters |
| `DataManager.TextFilePath` | src/data_manager.py:137-139 | `_get_topic_text_file_path`: `TEXT_FILES_DIR/<uuid>.txt`; `DataManager.TextFilePathInjective` states that it gives each uuid its own file, and the `GetTopicContent` round trips of `CreateTopic` and `SaveTopicContent` rely on it |
| `DataManager.TextFilePathInjective` | src/data_manager.py:137-139 | different file uuids resolve to different paths |
| `DataManager.RowLeq` | src/data_manager.py:249 | the ORDER BY parent_id, display_order, created_at ordering with NULL parents first; `DataManager.RowLeqTotal` and `DataManager.RowLeqTrans` state that it is a total preorder |
| `DataManager.RowLeqTotal` | src/data_manager.py:249 | any two topic rows are comparable under ORDER BY parent_id, display_order, created_at (NULL parents first) |
| `DataManager.RowLeqTrans` | src/data_manager.py:249 | that ordering is transitive |
| `DataManager.InsertRowSorted` | src/data_manager.py:249 | inserting a row keeps the rows ordered and adds exactly that row |
| `DataManager.InsertByStartSorted` | src/data_manager.py:316 | inserting an extraction keeps the list ordered by start offset and adds exactly that entry |
| `DataManager.InsertEntry` | src/data_manager.py:312-318 | inserting a matching extraction keeps every entry a faithful copy of its row with the given parent, keeps the order, and adds its id once |
| `DataManager.MigrationRun` | src/data_manager.py:35-56 | the migration loop over the sorted names as a value; `MigrationLedgerGrows`, `MigrationPassRecordsAll` and `MigrationFailureHalts` state what a run records and executes on either outcome, and the lemmas after them its order and idempotence |
| `DataManager.MigrationLedgerGrows` | src/data_manager.py:40-51 | a run never removes a name from the ledger, and every name it adds is a file it executed successfully |
| `DataManager.MigrationPassRecordsAll` | src/data_manager.py:40-51 | a successful run executes exactly the files not yet applied, in list order, and leaves exactly the old ledger plus those files, none of which failed |
| `DataManager.MigrationFailureHalts` | src/data_manager.py:44-56 | on failure the run halted at some index: the error names the first not-yet-applied file whose script or ledger insert failed, every unapplied file before it succeeded, the executed files are exactly the unapplied ones up to and including it, and the ledger is the old one plus exactly the unapplied files before it |
| `DataManager.MigrationRunsInOrder` | src/data_manager.py:38-42 | the files executed are in sorted order and are all files not yet applied; which ones exactly is stated by `MigrationPassRecordsAll` and `MigrationFailureHalts` |
| `DataManager.MigrationIdempotent` | src/data_manager.py:35-42 | running again after a successful run executes nothing and leaves the ledger as it was |
| `DataManager.MigrationAllApplied` | src/data_manager.py:42 | when every file is already in the ledger, a run executes nothing and succeeds |
| `DataManager.TopicStore.GetTopicContent` | src/data_manager.py:143-174 | the content is present exactly when the topic exists, its file exists and the read succeeds; it is then the file's content |
| `DataManager.TopicStore.ApplyMigrations` | src/data_manager.py:24-56 | the ledger becomes the result of running the sorted files; the error is raised on failure; topics, files and extractions are unchanged |
| `DataManager.TopicStore.RunMigrations` | src/data_manager.py:40-56 | the loop's outcome, ledger and executed files are exactly those of `MigrationRun` over the ledger read before it |
| `DataManager.TopicStore.InitializeDatabase` | src/data_manager.py:58-82 | migrations run as above, but a failure is caught and not propagated; nothing else changes |
| `DataManager.TopicStore.CreateTopic` | src/data_manager.py:96-134 | the id is returned exactly when no fault happens and the fresh id is not taken; the new row then carries the custom title if it is truthy, else the generated one, and `GetTopicContent` returns the text; on failure no topic row is added and the written file is removed unless the removal fails |
| `DataManager.TopicStore.SaveTopicContent` | src/data_manager.py:176-207 | an unknown id returns False and changes nothing; otherwise only the file and `updated_at` of that topic change, and on success `GetTopicContent` returns the saved string |
| `DataManager.TopicStore.UpdateTopicTitle` | src/data_manager.py:209-236 | succeeds exactly for a non-blank title, a known id and no database fault; then only `title` and `updated_at` of that topic change, otherwise nothing changes |
| `DataManager.TopicStore.GetTopicHierarchy` | src/data_manager.py:240-257 | every topic appears exactly once, each entry copies its row, and the entries are in ORDER BY order; a failure gives an empty list |
| `DataManager.TopicStore.CreateExtraction` | src/data_manager.py:259-302 | an id is returned exactly when both topics exist, the fresh id is not taken and no fault happens; the row then stores the offsets unchanged and the parent's `updated_at` is touched; otherwise nothing changes |
| `DataManager.TopicStore.GetExtractionsForParent` | src/data_manager.py:304-324 | exactly the parent's extractions, each once and copied from its row, ordered by start offset; a failure gives an empty list |
| `Undo.Reverse` | src/undo_manager.py:122 | the result lists the input from the last element to the first |
| `Undo.UndoKeepsCommands` | src/undo_manager.py:61-81 | undo, on either outcome, never changes the multiset of commands held by the two stacks |
| `Undo.RedoKeepsCommands` | src/undo_manager.py:83-103 | redo, on either outcome, never changes the multiset of commands held by the two stacks |
| `Undo.UndoThenRedo` | src/undo_manager.py:61-103 | a successful undo followed by a successful redo restores the history, and the same holds the other way round |
| `Undo.ExecuteThenUndo` | src/undo_manager.py:40-81 | a successful execute empties the redo stack; undoing it afterwards restores the old undo stack with only that command to redo |
| `Undo.UndoTimesMoves` | src/undo_manager.py:61-81 | n successful undos move the top n commands, in reverse order, onto the redo stack |
| `Undo.RedoTimesMoves` | src/undo_manager.py:83-103 | n successful redos move the top n commands, in reverse order, onto the undo stack |
| `Undo.UndoTimesRedoTimes` | src/undo_manager.py:61-103 | n successful undos followed by n successful redos restore the history |
| `Undo.UndoLabel` | src/undo_manager.py:34-37 | the text of `undo_text_changed`; `Undo.LabelsNameNextCommand` states it in every case |
| `Undo.RedoLabel` | src/undo_manager.py:35-38 | the text of `redo_text_changed`; `Undo.LabelsNameNextCommand` states it in every case |
| `Undo.LabelsNameNextCommand` | src/undo_manager.py:34-38 | the label is the bare "Undo" (or "Redo") exactly when the stack is empty or its top description is empty; otherwise it is "Undo " (or "Redo ") followed by that description |
| `Undo.UndoManager.constructor` | src/undo_manager.py:20-24 | both stacks start empty and the initial signals are emitted |
| `Undo.UndoManager.CanUndo` | src/undo_manager.py:105-107 | true exactly when an undo would change the state, that is, when the undo stack is non-empty |
| `Undo.UndoManager.CanRedo` | src/undo_manager.py:109-111 | true exactly when a redo would change the state |
| `Undo.UndoManager.ExecuteCommand` | src/undo_manager.py:40-58 | on success the command is pushed and the redo stack is cleared; on failure both stacks are unchanged and the error propagates |
| `Undo.UndoManager.Undo` | src/undo_manager.py:61-81 | an empty undo stack is a no-op; on success the top command moves to the redo stack; on failure it goes back on the undo stack and the error propagates |
| `Undo.UndoManager.Redo` | src/undo_manager.py:83-103 | an empty redo stack is a no-op; on success the top command moves to the undo stack; on failure it goes back on the redo stack |
| `Undo.UndoManager.ClearStacks` | src/undo_manager.py:113-118 | both stacks become empty and the labels are refreshed |
| `Undo.UndoManager.UndoDescriptions` | src/undo_manager.py:120-122 | the descriptions of the undo stack, from the top down |
| `Undo.UndoManager.RedoDescriptions` | src/undo_manager.py:124-126 | the descriptions of the redo stack, from the top down |
| `Undo.Describe` | src/undo_manager.py:122 | one description per command, in the same order |
| `Commands.StoreInterface.Request` | src/commands/topic_commands.py:23 | each request is appended to the call log, and the reply depends on the whole history |
| `Commands.CreateTopicProtocol` | src/commands/topic_commands.py:21-53 | execute asks for the topic with the command's arguments and fails exactly when no id comes back, keeping the description; a successful execute makes undo delete exactly the returned id; a custom title names the description without a details call; otherwise exactly one details request for the new id follows, and the description names the title it returns, or "New Topic" when no topic comes back |
| `Commands.CreateTopicCommand.constructor` | src/commands/topic_commands.py:12-19 | stores the arguments; no id yet; the description is "Create Topic" |
| `Commands.CreateTopicCommand.Execute` | src/commands/topic_commands.py:21-42 | the calls, the new id, the description and the outcome are those of `CreateTopicRun` |
| `Commands.CreateTopicCommand.Undo` | src/commands/topic_commands.py:44-53 | deletes the created id when set, and never raises |
| `Commands.CreateTopicCommand.Redo` | src/commands/base_command.py:25-31 | redo is execute again |
| `Commands.ChangeTopicTitleCommand.constructor` | src/commands/topic_commands.py:61-66 | stores the arguments; the description names both titles |
| `Commands.ChangeTopicTitleCommand.Execute` | src/commands/topic_commands.py:68-73 | one title update with the new title; fails, with its message, exactly when the store reports failure |
| `Commands.ChangeTopicTitleCommand.Undo` | src/commands/topic_commands.py:75-80 | one title update with the old title; a failure is only logged |
| `Commands.ChangeTopicTitleCommand.Redo` | src/commands/base_command.py:25-31 | redo is execute again |
| `Commands.SaveTopicContentCommand.constructor` | src/commands/topic_commands.py:88-94 | stores the arguments; the description names the topic title |
| `Commands.SaveTopicContentCommand.Execute` | src/commands/topic_commands.py:97-101 | one content save with the new content; fails exactly when the store reports failure |
| `Commands.SaveTopicContentCommand.Undo` | src/commands/topic_commands.py:103-107 | one content save with the old content; a failure is only logged |
| `Commands.SaveTopicContentCommand.Redo` | src/commands/base_command.py:25-31 | redo is execute again |
| `Commands.MoveTopicCommand.constructor` | src/commands/topic_commands.py:183-198 | stores the arguments and makes one details request; the description names the title it returns, or the id |
| `Commands.MoveTopicCommand.Execute` | src/commands/topic_commands.py:200-205 | one move to the new parent and order; fails exactly when the store reports failure |
| `Commands.MoveTopicCommand.Undo` | src/commands/topic_commands.py:207-211 | one move back to the old parent and order; a failure is only logged |
| `Commands.MoveTopicCommand.Redo` | src/commands/base_command.py:25-31 | redo is execute again |
| `Commands.ExtractTextProtocol` | src/commands/topic_commands.py:130-173 | execute first creates the child under the parent with the selected text, failing at once without an id; then it links the child with the offsets unchanged; if the link fails it deletes the child, forgets it and fails, leaving undo nothing to do; after success undo deletes the extraction and then the child |
| `Commands.ExtractTextCommand.constructor` | src/commands/topic_commands.py:117-128 | stores the arguments; no child or extraction yet |
| `Commands.ExtractTextCommand.Execute` | src/commands/topic_commands.py:130-158 | the calls, the fields and the outcome are those of `ExtractRun` |
| `Commands.ExtractTextCommand.Undo` | src/commands/topic_commands.py:162-173 | deletes the extraction, then the child, each only when set |
| `Commands.ExtractTextCommand.Redo` | src/commands/base_command.py:25-31 | redo is execute again |
| `Commands.IdsOf` | src/commands/topic_commands.py:266 | the ids of the entries, in order |
| `Commands.UniqueIds` | src/commands/topic_commands.py:223 | a duplicate-free list holding exactly the ids of the input |
| `Commands.DedupFrom` | src/commands/topic_commands.py:262-268 | the first-occurrence de-duplication as a value; `Commands.DedupDistinct`, `Commands.DedupIds`, `Commands.DedupKeepsFirst` and `Commands.DedupFirstOrder` together determine it |
| `Commands.DedupDistinct` | src/commands/topic_commands.py:264-268 | the snapshot has no duplicate ids and keeps no id already seen |
| `Commands.DedupIds` | src/commands/topic_commands.py:264-268 | an id is in the snapshot exactly when it was fetched and not seen before |
| `Commands.DedupKeepsFirst` | src/commands/topic_commands.py:264-268 | every snapshot entry is the first fetched entry with its id |
| `Commands.DedupInFetchOrder` | src/commands/topic_commands.py:260-268 | the snapshot is a subsequence of the fetched list: entries are only left out, never reordered |
| `Commands.DedupFirstOrder` | src/commands/topic_commands.py:262-268 | consecutive snapshot entries have strictly increasing first-occurrence indices in the fetched list, so the snapshot follows the order in which ids were first fetched |
| `Commands.SnapshotChildFirst` | src/commands/topic_commands.py:240-268 | when a topic and its parent are both selected and the child's subtree comes first, the snapshot, and so the restore order, puts the child before its parent |
| `Commands.DeleteCalls` | src/commands/topic_commands.py:278-294 | the delete requests of the multi-delete as a value; `Commands.DeleteCallsExact` states which ones there are and `Commands.DeleteRoots` that the loop makes them |
| `Commands.DeleteCallsExact` | src/commands/topic_commands.py:278-294 | only delete calls are made, one for each root id present in the snapshot and none for the others |
| `Commands.RestoreCalls` | src/commands/topic_commands.py:313-329 | the restoring requests of the multi-delete undo as a value; `Commands.RestoreCallsInOrder` states them entry by entry |
| `Commands.RestoreArgs` | src/commands/topic_commands.py:320-329 | the arguments of one restoring `create_topic`; `Commands.RestoreArgsFields` states them |
| `Commands.RestoreArgsFields` | src/commands/topic_commands.py:320-329 | the call recreates the entry with its own id, parent, title, file id, timestamps and order; the content is the stored value, possibly `None`, or "" when the entry has no content key |
| `Commands.RestoreCallsInOrder` | src/commands/topic_commands.py:313-329 | one restoring create per snapshot entry, in snapshot order, carrying that entry's fields |
| `Commands.Gather` | src/commands/topic_commands.py:249-258 | the subtree requests and the gathered entries as a value; `Commands.FetchSubtrees` states that the loop computes it |
| `Commands.FetchSubtrees` | src/commands/topic_commands.py:249-258 | one subtree request per root, in order; the entries gathered are those of the replies |
| `Commands.Snapshot` | src/commands/topic_commands.py:262-268 | the loop with its `seen_ids` set computes the first-occurrence de-duplication |
| `Commands.DeleteRoots` | src/commands/topic_commands.py:278-294 | the calls made are exactly `DeleteCalls` of the roots and the snapshot ids |
| `Commands.DeleteDescription` | src/commands/topic_commands.py:225-236 | the description of the multi-delete; `Commands.DeleteDescriptionCases` states its cases and that the number shown is the count of roots |
| `Text.NatToStringRenders` | src/commands/topic_commands.py:236-237 | `str(n)`: non-empty decimal digits, without a leading zero unless `n` is 0, whose value is `n` |
| `Commands.DeleteDescriptionCases` | src/commands/topic_commands.py:225-236 | "Delete Topic" exactly for one root; otherwise "Delete <count> Topics" where the count is written in decimal, without leading zeros, and denotes the number of roots |
| `Commands.DeleteMultipleTopicsCommand.constructor` | src/commands/topic_commands.py:220-237 | the root ids are de-duplicated and hold exactly the given ids; the description is "Delete Topic" for one id, else "Delete N Topics"; the snapshot starts empty |
| `Commands.DeleteMultipleTopicsCommand.Execute` | src/commands/topic_commands.py:240-304 | resets the snapshot, fetches every root's subtree, keeps the de-duplicated snapshot and deletes the roots it contains |
| `Commands.DeleteMultipleTopicsCommand.Undo` | src/commands/topic_commands.py:307-337 | nothing for an empty snapshot; otherwise one restoring create per snapshot entry, in order |
| `Commands.DeleteMultipleTopicsCommand.Redo` | src/commands/base_command.py:25-31 | redo is execute again |
| `Editor.SelectedTextAndOffsets` | src/topic_editor_widget.py:81-95 | `get_selected_text_and_offsets`; `Editor.SelectionRoundTrip` and `Editor.NoSelectionNoHighlight` state its result with and without a selection |
| `Editor.ValidRange` | src/topic_editor_widget.py:106-108 | the range guard of `apply_extraction_highlight`; the `ensures` of `Editor.HighlightSpan` state that a range passes it exactly when it is highlighted |
| `Editor.HighlightSpan` | src/topic_editor_widget.py:106-132 | a range passing the guard is highlighted over `[start, end + 1)`, which lies inside the document, so the clamping branch never changes it; a failing range is not highlighted |
| `Editor.SelectionRoundTrip` | src/topic_editor_widget.py:81-132 | a non-empty selection `[s, e)` is reported with the selected text and inclusive end `e - 1`, and feeding those offsets back highlights exactly `[s, e)` |
| `Editor.NoSelectionNoHighlight` | src/topic_editor_widget.py:86-108 | without a selection the result is `(None, -1, -1)`, which the guard turns away |
| `Editor.Positions` | src/topic_editor_widget.py:114-132 | the positions of a span are exactly those it covers |
| `Editor.HighlightsOfCover` | src/topic_editor_widget.py:68-74 | a position is highlighted after applying a list exactly when some entry with a valid range covers it |
| `Editor.TopicEditor.ApplyExtractionHighlight` | src/topic_editor_widget.py:97-151 | adds exactly the positions of the chosen span and changes nothing else |
| `Editor.TopicEditor.ApplyExistingHighlights` | src/topic_editor_widget.py:61-75 | without a current topic nothing changes; otherwise every stored extraction of the topic with a valid range is highlighted, and nothing else is |
| `Editor.TopicEditor.StoredHighlightsFromList` | src/topic_editor_widget.py:68-74 | the highlights applied from the store's answer are exactly the stored ones |
| `Tree.IncreasingOnce` | src/knowledge_tree_widget.py:60-65 | an increasing list holds each of its elements once |
| `Tree.ItemsMap` | src/knowledge_tree_widget.py:46-51 | the `items` dict of the first pass as a value; `Tree.ItemsMapExact`, `Tree.ItemsMapUnique` and `Tree.ItemsMapKeys` state it |
| `Tree.ItemsMapExact` | src/knowledge_tree_widget.py:46-51 | every input id is mapped, and each mapped id points at a row with that id |
| `Tree.ItemsMapUnique` | src/knowledge_tree_widget.py:46-51 | with distinct ids, each id maps to its own row |
| `Tree.ItemsMapKeys` | src/knowledge_tree_widget.py:46-51 | an id is mapped exactly when it is loaded |
| `Tree.ChildMap` | src/knowledge_tree_widget.py:53-57 | the `children_map` dict of the first pass as a value; `Tree.ChildMapExact` states it |
| `Tree.ChildMapExact` | src/knowledge_tree_widget.py:53-57 | every row with a truthy parent is listed under that parent, in input order, and every listed row names it |
| `Tree.ParentKeysExact` | src/knowledge_tree_widget.py:74 | the parent keys are distinct and exactly those of the child map |
| `Tree.RootItems` | src/knowledge_tree_widget.py:59-71 | the `root_items` list of the second pass as a value; `Tree.RootItemsExact` states it |
| `Tree.RootItemsExact` | src/knowledge_tree_widget.py:59-71 | a row is a root exactly when it has no parent or its parent is not loaded; roots keep input order |
| `Tree.AttachChildrenExact` | src/knowledge_tree_widget.py:73-79 | a loaded parent gets exactly its child list, and only loaded parents get children |
| `Tree.LoadTreePlacement` | src/knowledge_tree_widget.py:46-83 | for distinct non-empty ids, each topic is placed exactly once, as a root or as one child of its parent; roots and siblings keep input order |
| `Tree.RootPlacement` | src/knowledge_tree_widget.py:59-71 | a topic without a loaded parent is a root once and nobody's child |
| `Tree.ChildPlacement` | src/knowledge_tree_widget.py:73-79 | a topic with a loaded parent is not a root and is a child of that parent only, once |
| `Tree.LoadedOrder` | src/knowledge_tree_widget.py:59-83 | roots, and each parent's children, appear in input order |
| `Tree.CollectRoots` | src/knowledge_tree_widget.py:59-71 | the loop builds exactly `RootItems` |
| `Tree.KnowledgeTree.constructor` | src/knowledge_tree_widget.py:14-27 | an empty tree with no current item |
| `Tree.KnowledgeTree.LoadTree` | src/knowledge_tree_widget.py:36-89 | one item per row, the roots as top rows, the children under their parents and the id map filled; empty input gives a single placeholder row |
| `Tree.KnowledgeTree.CreateItems` | src/knowledge_tree_widget.py:45-57 | the first pass creates one item per row and builds the id map and the child lists |
| `Tree.KnowledgeTree.AttachAll` | src/knowledge_tree_widget.py:73-79 | the children lists are attached under their parents' items |
| `Tree.KnowledgeTree.AppendChildren` | src/knowledge_tree_widget.py:75-78 | a non-empty children list is appended, in order, after the parent item's existing children and nothing else changes |
| `Tree.KnowledgeTree.AddRootRows` | src/knowledge_tree_widget.py:81-83 | the top-level rows become exactly the root items, in order |
| `Tree.KnowledgeTree.AddTopicItem` | src/knowledge_tree_widget.py:113-134 | a leading row showing the placeholder text is removed first; the new item goes under its parent when the parent is known, else at the end of the roots; it is mapped and becomes current |
| `Tree.KnowledgeTree.UpdateTopicItemTitle` | src/knowledge_tree_widget.py:136-151 | only the mapped item's text changes; an unknown id changes nothing |
| `Window.LastSlash` | src/main_window.py:149 | `-1`, or the index of a slash with no slash after it |
| `Window.BasenameShape` | src/main_window.py:149 | the basename contains no slash, is the whole path when the path has none, and is the part after the last slash |
| `Window.WindowTitle` | src/main_window.py:143-166 | `_update_window_title`; `Window.WindowTitleCases` states the title in every case |
| `Window.WindowTitleCases` | src/main_window.py:143-166 | "Iromo - No Collection Open" without a collection; otherwise "Iromo - <basename>", then " - <title>" or " - Editing Topic" when a topic is loaded and found; " *" only when dirty with a topic loaded |
| `Window.TitleCandidate` | src/main_window.py:519-528 | the first 50 characters of the selection cut at the first newline; `Window.TitleCandidateShape` states its shape |
| `Window.ChildTitle` | src/main_window.py:519-530 | the candidate stripped, or `None` when nothing is left; `Window.ChildTitleShape` states its shape |
| `Window.TitleCandidateShape` | src/main_window.py:521-528 | the candidate is a prefix of the selection of at most 50 characters with no newline; it is blank exactly when the selection's first line, within its first 50 characters, is blank |
| `Window.ChildTitleShape` | src/main_window.py:519-530 | a title, when there is one, is a slice of the selection of at most 50 characters with no newline and no leading or trailing whitespace; there is none exactly when the first line is blank within its first 50 characters |
| `Window.ExtractText` | src/main_window.py:494-541 | nothing to extract without a collection and a topic; an empty selection only informs the user; a save that leaves the editor dirty aborts; otherwise the extraction is issued with the selection and the derived title |
| `Window.ExtractSelection` | src/main_window.py:499-541 | with a selection the issued offsets are those the editor reports and highlight exactly the selection; without one no command is issued |
| `Window.TitleChange` | src/main_window.py:431-446 | a command is issued exactly when a collection is open and the title differs, and it carries both titles |
| `Settings.NamePart` | src/settings_dialog.py:415 | the part after the first '.'; the whole id when there is none |
| `Settings.CapitalizeWords` | src/settings_dialog.py:416 | each word capitalized, in order |
| `Settings.CapitalizedJoin` | src/settings_dialog.py:416 | joining the capitalized pieces with spaces keeps the length, turns each '_' into a space, upper-cases each word's first character and lower-cases the rest |
| `Settings.ActionDescriptiveName` | src/settings_dialog.py:411-418 | `_get_action_descriptive_name`; `Settings.ActionNameByCharacter` and `Settings.ActionNameExample` state its result |
| `Settings.ActionNameByCharacter` | src/settings_dialog.py:411-418 | the descriptive name has the length of the name part and is that part with word case applied, character by character |
| `Settings.ActionNameExample` | src/settings_dialog.py:412 | "file.open_collection" gives "Open Collection" |
| `Settings.IndexOfValue` | src/settings_dialog.py:213 | absent exactly when the value is not listed, otherwise its first index |
| `Settings.AutosaveIndexFor` | src/settings_dialog.py:211-217 | a listed value selects its own index, any other value the index of 5 |
| `Settings.LoadSaveRoundTrip` | src/settings_dialog.py:211-244 | saving the loaded index writes back the listed value, or 5, and loading that again selects the same index |
| `Settings.AutosaveSetting.LoadSettings` | src/settings_dialog.py:211-217 | the combo box shows the index for the stored value, or for 5 when none is stored |
| `Settings.AutosaveSetting.SaveSettings` | src/settings_dialog.py:242-244 | the value is written only for an index in range; otherwise the stored value is kept |
| `Settings.AutosaveSetting.ApplySettings` | src/settings_dialog.py:268-303 | saves, and emits the interval-changed signal exactly when the new value differs from the old one; an out-of-range index keeps the old value |

## Left out

- Qt plumbing is not modelled: widgets, signals and slots, dialogs, menus, toolbars, message boxes, fonts and colours, `QSettings`, and the shortcuts table. The tree's expansion and selection are left out too, as are the `itemChanged` disconnect and `get_selected_topic_id`. They are user-interface concerns with no logic beyond the modelled helpers.
- SQLite and file-system mechanics are not modelled. The database and the text files are in-memory maps, and every failure is a parameter.
  - A migration script's partial effects are not rolled back in the model, because `executescript` runs outside the surrounding transaction; only the ledger is modelled.
  - The `applied_at` timestamps of the ledger are not kept.
  - A partial write that truncates a file is not modelled; a write either succeeds or fails.
- The `glob` and `os.makedirs` handling in `initialize_database` is left out, because it is file-system work. The migration file names are an input. Sorting full paths that share one directory is the same as sorting names.
- `DataManager.TopicStore`: text files are keyed by their path, not their uuid, so "the file `get_topic_content` reads is the one `create_topic` wrote" is a statement about paths.
- `DataManager.TopicStore.CreateTopic`: `display_order` comes from the database schema, which the migration scripts define; it is the constant 0 here.
- `DataManager.TopicStore.SaveTopicContent`: a failure of the initial lookup query, which sits outside the `try` block, is not a separate case; it behaves as a failed save.
- The store operations the commands call but whose code is not part of this model are abstract requests on `Commands.StoreInterface`: `delete_topic`, `move_topic`, `delete_extraction`, `get_topic_details`, `get_topic_and_all_descendants_details`, and `create_topic` with restore arguments. Cascading deletes, sibling renumbering and cycle checks have no code to check against.
- The revert of the tree item's title after a failed title command (main_window.py lines 447-462) is not modelled; of `handle_topic_title_changed` only the no-op check is.
- `Window.WindowTitle` takes `get_topic_details` as a lookup parameter, because that store operation's code is not part of this model.
- `Undo.UndoManager`: a command's `description` is a fixed function given at construction, not a property the command may change over time.
- `Commands.UniqueIds`: Python's `list(set(...))` has no specified order; the model keeps the first occurrence of each id, in order.
- `Commands.DeleteMultipleTopicsCommand.Undo`: restoring parents before children, as the source's comments at topic_commands.py lines 260 and 313 expect, is not promised. The snapshot follows the fetch order (`Commands.DedupFirstOrder`), and `Commands.SnapshotChildFirst` shows it can put a selected child before its selected parent. Whether that matters depends on `create_topic` with restore arguments, whose code is not part of this model.
- `Tree.KnowledgeTree.LoadTree`: it takes the hierarchy rows as a parameter instead of calling the store. Qt's behaviour for rows with duplicate ids is not modelled, so the placement guarantees assume distinct, non-empty ids.
- `Settings.AutosaveSetting.ApplySettings`: a stored interval that is absent reads as 0. The other settings keys and their signals are left out.
- `force_save_if_dirty` and background saving are left out, because they are concurrent.
- Logging setup (`src/logger_config.py`), the entry point (`src/main.py`) and the `__main__` demo blocks are bootstrap code and are left out.
- Known wiring mismatches in the main window are not modelled:
  - `extract_text` passes `custom_child_title`, which `ExtractTextCommand` does not accept;
  - main_window.py line 26 imports names the store module does not define.
- Python's Unicode semantics of `splitlines`, `strip` and `capitalize` are simplified to ASCII: the whitespace is space, `\t`, `\n`, `\v`, `\f`, `\r` and `\x1c`-`\x1f`, and the line breaks are `\n`, `\r`, `\v`, `\f` and `\x1c`-`\x1e`. Qt's U+2029 paragraph separator in `selectedText` is not modelled.
