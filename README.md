# PieceNote core, modelled in Dafny

PieceNote is a desktop notebook. It keeps folders of Markdown notes in an SQLite database. This project models the
parts of it that decide what is stored and what the user sees:

- **Storage** (`StorageManager`, features/storage.py):
  - backing up the database and saving the whole data object in one transaction, with folders renamed so that
    their names are unique;
  - loading the data object back, or failing with `DatabaseCorruptError`;
  - restoring the backup;
  - searching notes by title and body;
  - importing the legacy JSON file once;
  - creating the two tables idempotently.
- **Sidebar** (`SidebarPanel`, gui/sidebar_panel.py): the in-memory folder and note dicts, the id allocators and the
  current folder. Covers creating, renaming, deleting and reordering, the note list labels and the search filter.
- **Export** (features/export.py): the file-name sanitiser, the rewriting of Markdown image links, and the content and
  file names of an export.
- **Editor** (`EditorPanel`, gui/editor_panel.py): the text metrics, the checklist toggle, and the
  `current_note_id` and `_is_modified` fields that decide when the autosave timer writes a note.

The modules follow that structure:

- `Wrappers`: `Option`.
- `Text`: the Python `str` operations used.
- `Dicts`: an insertion-ordered dict, with Python's `dict` semantics.
- `Paths`: the POSIX `os.path` functions used.
- `Aggregate`: the data object.
- The storage side:
  - `Schema`: the two tables and the INSERT statements.
  - `FolderNames`: the unique-name loop of `save`.
  - `SaveSpec`: what `save` writes.
  - `LoadSpec`: what `load` rebuilds.
  - `LegacyImport`: the JSON key conversion.
  - `Search`: the search query.
  - `Storage`: the `StorageManager` class, over a file system the methods modify.
- `Sidebar`, `Export` and `Editor`: one module each.

Things the program gets from outside are parameters of the operations. These are:

- the answers of dialogs and confirmations;
- the row orders SQLite returns, constrained only by what each query guarantees;
- whether `shutil.copy2` or `os.rename` raises;
- the number of an SQL statement of `save` that raises for reasons outside the model, such as a lock or an I/O error;
- whether the CREATE TABLE statements or the SELECTs of `load` and `search_notes` raise for such reasons;
- the working-directory-dependent `abspath`/`as_uri`, given as `toUri`.

The main results:

- A successful save followed by a load gives back every folder under its de-duplicated name. The folders come back
  in the order the folder SELECT returns them, which need not be the saved order.
  Each folder's list loses only its dangling ids. The notes some list names come back unchanged; notes that no
  folder lists are not saved (`LoadSpec.LoadAfterSave`).
- A save commits exactly when no statement fails and no note id that has a note is listed twice
  (`SaveSpec.SaveSucceedsIff`). `save` also needs its backup copy to succeed and an existing database with its
  tables. Otherwise the database file is left as it was when it existed; a missing one is created empty by
  `connect` (`Storage.SaveOutcome`).
- The saved folder names are always pairwise distinct (`FolderNames.NormalizeDistinct`). Names that were already
  distinct are kept (`FolderNames.NormalizeKeepsDistinct`).
- Importing a JSON file that `json.dump` wrote leaves the database exactly as saving the same data directly
  would (`Storage.ImportOfDump`).
- A one-file-per-note export never writes two files to one path (`Export.MultiPlanDistinctPaths`).
- The checklist toggle changes only the target line, and only its first box (`Editor.ToggleOnlyTarget`).

The model keeps two behaviours of the code as written, though neither is what a reader would expect:

- The allocators are recomputed on every `load` as one above the largest stored id. So the id of a deleted
  newest note is handed out again after a reload (`LoadSpec.ReloadReusesIds`). Ids are therefore not
  unique over the program's lifetime.
- A file that is not a database makes the `StorageManager` constructor fail in `_create_tables` with SQLite's
  own error, before `load` could raise `DatabaseCorruptError` (`Storage.StorageManager.Open`).

## Model

| member | source | states |
|---|---|---|
| `Storage.WithSchema` | features/storage.py:29-51 | `CREATE TABLE IF NOT EXISTS` succeeds exactly on an SQLite file. An empty database gets both tables, empty; existing tables are kept as they are. |
| `Storage.CreateTablesIdempotent` | features/storage.py:29-51 | Creating the tables twice is the same as creating them once. |
| `Storage.SaveOutcome` | features/storage.py:86-143 | A failed backup copy returns False and writes nothing. Otherwise `save` returns True exactly when the file is a database with tables and the transaction commits, and the file then holds the committed tables. On failure the file keeps its old content. The backup holds the old database. No other file changes. |
| `Storage.ImportOutcome` | features/storage.py:185-205 | With no legacy file, or one that does not read and convert, nothing changes. The JSON file is renamed to `<json>.imported` exactly when `save` returned True and the rename did not fail. When the save did not succeed, the database file is unchanged. |
| `Storage.StorageManager.Make` | features/storage.py:17-20 | The manager keeps its file path, and its backup path is `BACKUP_LOCATION/<basename>.bak`. |
| `Storage.StorageManager.Open` | features/storage.py:17-24 | The constructor fails exactly when the file exists and is not a database, leaving the disk unchanged, or when a CREATE TABLE statement raises from outside (`createFails`), leaving the file as `connect` left it. Otherwise it creates the tables and then runs the legacy import. |
| `Storage.StorageManager.CreateTables` | features/storage.py:29-51 | `connect` creates a missing file. The call raises exactly where SQLite refuses the file, leaving the disk as it was, or where a statement raises from outside (`createFails`: a lock, an I/O error, a read-only file), leaving the file as `connect` left it. Otherwise the file gets its tables. |
| `Storage.StorageManager.Load` | features/storage.py:53-84 | `load` raises `DatabaseCorruptError` exactly when the file is not a database with tables, or one of the SELECTs raises `sqlite3.DatabaseError` (the input `readFails`: a lock, an I/O error, a malformed page). Otherwise it returns the aggregate built from the rows in the order each SELECT returns them. |
| `Storage.StorageManager.Save` | features/storage.py:86-143 | The returned flag and the new disk are those of `SaveOutcome` for the folders in dict order. |
| `Storage.StorageManager.RestoreFromBackup` | features/storage.py:145-154 | Returns True exactly when a backup exists and the copy succeeds; the database file then equals the backup. Otherwise nothing changes. |
| `Storage.StorageManager.SearchNotes` | features/storage.py:156-183 | The query fails exactly when the file has no tables, is not a database, or the SELECT raises from outside (`readFails`: a lock, an I/O error, a malformed page). Otherwise the result is the matching rows, in scan order. |
| `Storage.StorageManager.ImportFromJsonIfNeeded` | features/storage.py:185-205 | The new disk is `ImportOutcome` of the old one. |
| `Storage.ReadNotes` | features/storage.py:64-69 | The note loop builds exactly the folder map and the note map of the scanned rows. |
| `Storage.FolderMapStep` | features/storage.py:66-69 | One row appends its id to its folder's list when the folder exists, and otherwise leaves the folders alone. |
| `Storage.NoteMapFull` | features/storage.py:64-67 | After a full scan, the note map holds every stored note with its title and body. |
| `Storage.NoteMapStep` | features/storage.py:66-67 | One row stores its note under its id. |
| `Storage.Transaction` | features/storage.py:102-141 | The transaction leaves nothing, as if rolled back, exactly where `SaveTables` says so, and otherwise exactly its tables. |
| `Storage.RenameFolders` | features/storage.py:106-118 | The rename loop gives the `Renamed` folder list. |
| `Storage.InsertNotes` | features/storage.py:126-134 | The note inserts of one folder extend the statement run by exactly those inserts, and the next statement number follows them. |
| `Storage.InsertFolders` | features/storage.py:123-134 | The insert loop gives exactly the run of all the inserts, starting at statement 3. |
| `Storage.CollectHits` | features/storage.py:175-181 | The result loop gives the hits of the scan, in scan order. |
| `Storage.NoteInsertsPrefix` | features/storage.py:126-134 | The inserts for a prefix of a list are a prefix of that list's inserts. |
| `Storage.InsertsPrefix` | features/storage.py:123-134 | The inserts for the first folders are a prefix of all the inserts. |
| `Storage.FolderRowStep` | features/storage.py:123-124 | A folder row fails when its statement fails or the row is refused, and then the whole insert loop fails. |
| `Storage.InsertsStep` | features/storage.py:123-134 | The inserts of one more folder are its row followed by its notes, and both stay prefixes of the whole run. |
| `Storage.ImportOfDump` | features/storage.py:185-200 | Importing a file that `json.dump` wrote from integer-keyed data leaves the database as saving that data directly does. |
| `Storage.ImportSavesData` | features/storage.py:189-197 | An import that reads and converts leaves the database as `save` of the converted data does. |
| `SaveSpec.RenamedSpec` | features/storage.py:106-118 | Renaming keeps ids, order and note lists, and gives the folders the normalised names. |
| `SaveSpec.AllPresentRenamed` | features/storage.py:117-118 | Renaming does not change which note ids get inserted. |
| `SaveSpec.RenamedNamesDistinct` | features/storage.py:106-118 | The names `save` inserts are pairwise distinct, so the `UNIQUE` name constraint never fires. |
| `SaveSpec.NoteInsertsKeys` | features/storage.py:126-134 | A folder's note inserts insert no folder, and insert exactly the listed ids that have a note, in order. |
| `SaveSpec.FolderInsertsKeys` | features/storage.py:123-134 | One folder inserts its own row, then its present note ids. |
| `SaveSpec.InsertsFolderKeys` | features/storage.py:123-124 | The folder rows carry the folder ids, in dict order. |
| `SaveSpec.InsertsFolderNames` | features/storage.py:123-124 | The folder rows carry the folder names, in dict order. |
| `SaveSpec.InsertsNoteKeys` | features/storage.py:126-134 | The note rows carry the present ids of every list, folder after folder. |
| `SaveSpec.AllPresentMembers` | features/storage.py:126-134 | A note id is inserted exactly when it has a note and some folder lists it. |
| `SaveSpec.SaveSucceedsIff` | features/storage.py:102-141 | With distinct folder ids, a save commits exactly when no statement raises from outside and no present note id repeats. The committed tables are then the inserted rows. |
| `SaveSpec.SaveTransactionOutcome` | features/storage.py:104-141 | The transaction commits exactly when none of its statements fails from outside and the inserts go through cleanly. |
| `SaveSpec.CleanInsertsSucceed` | features/storage.py:120-134 | With no outside failure, the inserts after the two deletes succeed exactly when no present note id repeats. |
| `SaveSpec.RepeatInOneList` | features/storage.py:126-134 | A list holding a present id twice yields repeated present ids. |
| `SaveSpec.NotDistinctAllPresent` | features/storage.py:123-134 | Two list positions, in one folder or in two, holding the same present id yield repeated present ids. |
| `SaveSpec.DuplicateNoteFails` | features/storage.py:123-141 | A note listed twice makes the save roll back, which breaks the `note_id` primary key. |
| `SaveSpec.AppliedInserts` | features/storage.py:123-134 | Applying the inserts builds the folder map and the note map folder by folder. |
| `SaveSpec.RowsOfAt` | features/storage.py:126-134 | With no repeats, list entry `j` gets the row with `sort_order` `j`, its note's title and body, and its folder. |
| `SaveSpec.FolderMapSpec` | features/storage.py:123-124 | The folder table has exactly the folder ids, each with its name. |
| `SaveSpec.NoteMapKeys` | features/storage.py:126-134 | The note table has exactly the present ids. |
| `SaveSpec.NoteMapAt` | features/storage.py:126-134 | Every present list entry is stored with its note, folder and index. |
| `SaveSpec.SavedContent` | features/storage.py:86-143 | The committed tables hold every folder under its name, and one row per listed note that exists, with its title, body, folder and index. Unlisted notes are not written. |
| `Schema.Exec` | features/storage.py:33-48 | An INSERT is refused exactly when it repeats a primary key or, for a folder, an existing name. The foreign key is not enforced. |
| `Schema.AppliedKeys` | features/storage.py:123-134 | The applied tables hold exactly the inserted folder ids and note ids. |
| `Schema.AppliedNames` | features/storage.py:123-124 | The stored folder names are exactly the inserted ones. |
| `Schema.ExecAllClean` | features/storage.py:123-134 | From empty tables with no outside failure, the inserts succeed exactly when folder ids, folder names and note ids are each repeat-free. The result is the inserted rows. |
| `Schema.ExecAllFailAt` | features/storage.py:102-141 | An outside failure at one of the statements fails the whole run. A failure elsewhere changes nothing. |
| `Schema.ExecAllPrefixNone` | features/storage.py:138-141 | Once a statement has raised, the rest of the transaction cannot save it. |
| `Schema.ExecAllSnoc` | features/storage.py:123-134 | One statement more extends the run by that statement. |
| `FolderNames.CopyNameInjective` | features/storage.py:114 | Different copy numbers give different names, none equal to the original. |
| `FolderNames.TriedSize` | features/storage.py:113-115 | Up to copy number `k`, the loop has tried `k + 1` distinct names. |
| `FolderNames.FirstFreeCopy` | features/storage.py:113-115 | The loop ends at the first copy number whose name is free, every earlier one being taken. |
| `FolderNames.UniqueName` | features/storage.py:110-116 | The chosen name is not yet used. It is the original if that is free, and otherwise the first free `(Copy k)`. |
| `FolderNames.NextFreeName` | features/storage.py:110-116 | The loop returns the name `UniqueName` picks. |
| `FolderNames.RenameStep` | features/storage.py:113-115 | Each turn of the loop keeps all tried names taken, and cannot run past the size of `seen`. |
| `FolderNames.RenameExit` | features/storage.py:113-116 | When the loop stops, it holds the name `UniqueName` picks. |
| `FolderNames.NormalizePrefix` | features/storage.py:106-118 | Normalising a prefix gives a prefix of the normalised names. |
| `FolderNames.NormalizeAt` | features/storage.py:109-116 | Folder `i` is named against the names given to the folders before it. |
| `FolderNames.NormalizeDistinct` | features/storage.py:106-118 | The saved folder names are pairwise distinct. |
| `FolderNames.NormalizeKeepsDistinct` | features/storage.py:106-118 | Distinct names are saved unchanged. |
| `FolderNames.FirstFreeAfterTried` | features/storage.py:113-115 | Against the names tried up to copy `m`, the loop ends at copy `m + 1`. |
| `FolderNames.UniqueAfterTried` | features/storage.py:113-115 | A taken name whose copies 1 to `m` are taken too becomes copy `m + 1`. |
| `FolderNames.SameNameCopies` | features/storage.py:106-118 | `n` folders with one name are saved as that name followed by copies 1 to `n - 1`. |
| `LoadSpec.NextIdSpec` | features/storage.py:71-72 | The next id is above every id, and is one above the largest, or 1 for an empty table. |
| `LoadSpec.LoadValid` | features/storage.py:53-77 | The loaded aggregate is a well-formed dict, and both allocators are above every id read. |
| `LoadSpec.ReloadReusesIds` | features/storage.py:71-72 | Allocators come from the stored maxima, so an id above every stored one is handed out again after a reload. |
| `LoadSpec.SortedUnique` | features/storage.py:64 | Two lists strictly sorted by `sort_order` and holding the same ids are equal. |
| `LoadSpec.InFolderMembers` | features/storage.py:66-69 | A folder's rebuilt list holds exactly the scanned notes whose row names it. |
| `LoadSpec.InFolderSorted` | features/storage.py:64-69 | The rebuilt list follows the `ORDER BY sort_order` scan. It is repeat-free and strictly sorted when the folder's `sort_order`s differ. |
| `LoadSpec.PresentSorted` | features/storage.py:126-134 | The present ids of a saved list are strictly sorted by the `sort_order` `save` gives them. |
| `LoadSpec.LoadAfterSave` | features/storage.py:53-143 | After a successful save, `load` gives back exactly the saved folders, each saved key under its normalised name, each list without its dangling ids, and exactly the notes some list names, unchanged. |
| `LoadSpec.FoldersRestored` | features/storage.py:59-69 | After a save, `load` gives back exactly the saved folder keys, each with its saved name and its present note ids. |
| `LoadSpec.NotesRestored` | features/storage.py:64-67 | After a save, `load` gives back exactly the listed notes, unchanged. |
| `LoadSpec.ListedFolders` | features/storage.py:123-130 | A note is listed in the saved item sequence exactly when some folder of the dict lists it. |
| `LoadSpec.FolderListRestored` | features/storage.py:64-69 | The list rebuilt for a saved folder is its present ids, in order. |
| `LegacyImport.CoerceItems` | features/storage.py:194-195 | Converting the keys succeeds exactly when every key parses as an integer. The pairs then keep their order and values. |
| `LegacyImport.CoerceKeysValid` | features/storage.py:194-195 | The converted dict is well formed. |
| `LegacyImport.NonIntegerKeyAborts` | features/storage.py:194-205 | One key that is not an integer makes the import raise before anything is saved. |
| `LegacyImport.CoerceRoundTrip` | features/storage.py:190-195 | Converting the keys of a dict that `json.dump` wrote gives the integer-keyed dict back. |
| `Search.HitsSound` | features/storage.py:165-181 | Every hit is a matching note joined to its folder, and every matching scanned note is a hit. |
| `Search.LikeOfOccurrence` | features/storage.py:169-171 | A note matches when the query occurs, ignoring ASCII case, in its title or body. |
| `Search.EmptyQueryMatchesAll` | features/storage.py:169-171 | The empty query matches every note. |
| `Search.HitsDistinct` | features/storage.py:175-181 | No note is reported twice. |
| `Dicts.PutValid` | gui/sidebar_panel.py:195 | `d[k] = v` keeps the dict valid and changes only `k`. A new key goes last; an existing one keeps its place. |
| `Dicts.RemoveValid` | gui/sidebar_panel.py:311 | `del d[k]` removes exactly `k`, and the other keys keep their order. |
| `Dicts.PutAllValid` | features/storage.py:194-195 | A dict comprehension builds a valid dict. |
| `Dicts.PutAllFreshKeys` | features/storage.py:194-195 | Pairs with new, distinct keys are appended in order. |
| `Dicts.PutAllFreshVals` | features/storage.py:194-195 | Old values are kept and every pair's value is stored. |
| `Dicts.ItemsOfPutAll` | features/storage.py:194-195 | A dict built from pairs with distinct keys has exactly those pairs as its items. |
| `Dicts.PutAllItems` | features/storage.py:194-195 | Rebuilding a dict from its own items gives it back. |
| `Paths.Basename` | features/storage.py:20 | `basename` has no `/` and is a suffix of the path. |
| `Paths.Dirname` | features/export.py:48 | `dirname` is a prefix of the path. |
| `Paths.JoinPath` | features/export.py:54 | `join` ends with its second part, and starts with the first unless the second is absolute. |
| `Paths.StripExt` | features/export.py:49 | `splitext(...)[0]` is a prefix of the path. |
| `Paths.JoinInjective` | features/export.py:53-54 | Different relative names in one directory give different paths. |
| `Paths.BasenameOfJoin` | features/storage.py:20 | The base name of `join(dir, name)` is `name`. |
| `Text.SplitJoinChar` | gui/editor_panel.py:207-208 | Joining lines that hold no `\n`, then splitting on `\n`, gives the lines back. |
| `Text.SplitPartsLackChar` | gui/editor_panel.py:208 | No line from `split('\n')` contains `\n`. |
| `Text.SplitCount` | gui/editor_panel.py:112 | `split('\n')` has one part more than the text has newlines. |
| `Text.TokensAreWords` | gui/editor_panel.py:110 | Each token of `split()` is a non-empty run of non-whitespace characters. |
| `Text.TokensCoverText` | gui/editor_panel.py:110 | The tokens together are exactly the text's non-whitespace characters. |
| `Text.TokensCountStarts` | gui/editor_panel.py:110 | The number of tokens of `split()` is the number of word starts: non-whitespace characters at the start of the text or right after whitespace. So the tokens are the maximal runs. |
| `Text.ParseIntOfDec` | features/storage.py:194-195 | `int(str(i)) == i`. |
| `Text.DecPrefixInjective` | features/export.py:53 | `f"{i+1}_..."` determines `i + 1` and the rest. |
| `Aggregate.PresentMembers` | gui/sidebar_panel.py:239-240 | The listed ids with a note are kept, in list order, and only those. |
| `Aggregate.WithoutMembers` | gui/sidebar_panel.py:339-341 | The list keeps exactly the ids not being removed. |
| `Sidebar.SidebarPanel.constructor` | gui/sidebar_panel.py:16-23 | The panel starts with no folders, no notes, no current folder and both allocators at 1. |
| `Sidebar.SidebarPanel.LoadDataFromStorage` | gui/sidebar_panel.py:163-174 | The panel adopts the loaded data. With no folder, it adds `defaultName` under the next folder id and saves. |
| `Sidebar.SidebarPanel.CreateFolder` | gui/sidebar_panel.py:188-199 | A cancelled or blank name changes nothing. Otherwise a new empty folder goes last under a fresh id, becomes current, and is saved. |
| `Sidebar.SidebarPanel.CreateNote` | gui/sidebar_panel.py:201-218 | With no current folder nothing changes. Otherwise "Untitled Note <id>" gets a fresh id, is appended to the current folder, and is saved. |
| `Sidebar.SidebarPanel.UpdateNoteContent` | gui/sidebar_panel.py:220-223 | Only the body of an existing note changes, and then it is saved. An unknown id changes nothing. |
| `Sidebar.SidebarPanel.RenameFolder` | gui/sidebar_panel.py:272-282 | With a folder selected, a confirmed, non-blank, different name replaces that folder's name only, and is saved. Otherwise nothing changes. |
| `Sidebar.SidebarPanel.RenameNote` | gui/sidebar_panel.py:284-294 | Does nothing unless exactly one note item is selected. Then it renames the note list's current item `current`, which may differ from the selected one, as `RenameFolder` does: only with a confirmed, non-blank, changed title, which is then persisted. |
| `Sidebar.SidebarPanel.DeleteFolder` | gui/sidebar_panel.py:296-318 | Once confirmed, the folder and all the notes of its list go, and the change is saved. The current folder becomes `after`: the neighbouring row that Qt selects when the current row is taken out, and whose selection signal runs `_on_folder_selection_changed`. It is none only when no other folder is left. |
| `Sidebar.SidebarPanel.DeleteNotes` | gui/sidebar_panel.py:320-346 | Once confirmed, the selected notes go, and the current list keeps its other ids in order. The change is saved. |
| `Sidebar.SidebarPanel.OnNoteReordered` | gui/sidebar_panel.py:351-357 | The current folder's list becomes the shown order, and is saved. |
| `Sidebar.NoteItemsSpec` | gui/sidebar_panel.py:236-243 | The note list shows exactly the listed ids that have a note, in order, each labelled `Label(i, title)`. |
| `Sidebar.LabelTitle` | gui/sidebar_panel.py:326-327 | Splitting a label at the first `" - "` gives exactly the note title. |
| `Sidebar.TitleMatchShown` | gui/sidebar_panel.py:359-363 | A note whose title contains the query, ignoring case, is never hidden. |
| `Sidebar.EmptyQueryShowsAll` | gui/sidebar_panel.py:359-363 | The empty query hides nothing. |
| `Sidebar.ReorderDropsDangling` | gui/sidebar_panel.py:351-357 | After a drag, the list holds exactly its ids that have a note. |
| `Editor.CalculateMetrics` | gui/editor_panel.py:108-122 | A non-empty text has as many lines as `split('\n')` gives. |
| `Editor.MetricsMeaning` | gui/editor_panel.py:108-112 | chars is the length and lines is the `\n`-split count, 0 when empty. words is the number of `split()` tokens, which equals the number of word starts (non-whitespace after whitespace or at the start), and those tokens are exactly the non-whitespace characters. |
| `Editor.TargetLine` | gui/editor_panel.py:209-216 | The result is the line of checkbox `k`, reached after exactly `k` earlier task lines, or -1 exactly when there is no such line. |
| `Editor.FindTaskLine` | gui/editor_panel.py:209-216 | The scan finds `TargetLine`. |
| `Editor.TargetLineExtends` | gui/editor_panel.py:209-216 | A target found in a prefix is the target of the whole text. |
| `Editor.ReplaceBox` | gui/editor_panel.py:219-222 | Replacing the first box leaves the line unchanged exactly when it has no such box. Otherwise only the character inside the first box changes. |
| `Editor.ToggledLineSpec` | gui/editor_panel.py:219-222 | Checking flips the first `[ ]` and unchecking the first `[x]`. The length is kept, and there is no change without a box. |
| `Editor.ToggleOnlyTarget` | gui/editor_panel.py:205-234 | Only the target line can change, it becomes the toggled line, and the text changes exactly when that line does. |
| `Editor.EditorPanel.constructor` | gui/editor_panel.py:43-94 | The panel starts with no note, not modified, with empty text. |
| `Editor.EditorPanel.TriggerPreviewUpdate` | gui/editor_panel.py:96-99 | Marks the note modified and computes the metrics. |
| `Editor.EditorPanel.UserEdit` | gui/editor_panel.py:87 | An edit sets the text (the editor's plain text after the edit) and marks it modified, through `textChanged`. |
| `Editor.EditorPanel.ClearAndDisable` | gui/editor_panel.py:124-137 | No note and empty text. The flag is set again exactly when `clear()` reports a change. |
| `Editor.EditorPanel.LoadNote` | gui/editor_panel.py:139-151 | The note is current, and the text is the `PlainText` of its body (or of ""), which is what `setPlainText` followed by `toPlainText` gives. It ends up marked modified, because `trigger_preview_update` is called directly. |
| `Editor.EditorPanel.SaveNote` | gui/editor_panel.py:156-161 | Emits `(id, text)` and clears the flag exactly when a note is loaded. Otherwise nothing changes. |
| `Editor.EditorPanel.Autosave` | gui/editor_panel.py:163-165 | Saves exactly when the note is modified and loaded. |
| `Editor.EditorPanel.OnChecklistToggled` | gui/editor_panel.py:205-234 | The text becomes `ToggleText`, and the flag is set when the text changed. |
| `Editor.LoadThenAutosave` | gui/editor_panel.py:139-165 | Loading a note and letting the timer fire writes the note back, though nobody typed. What is written is the body's `PlainText`, which differs from the stored body exactly when the body holds a character the editor alters. |
| `Editor.PlainText` | gui/editor_panel.py:142 | `setPlainText` then `toPlainText`: `\r\n`, `\r`, U+2028, U+2029 and the frame markers U+FDD0 and U+FDD1 come back as `\n`, and U+00A0 comes back as a space. The result never holds an altered character and is no longer than the input. |
| `Editor.PlainTextKeeps` | gui/editor_panel.py:142 | The editor gives a text back unchanged exactly when the text holds no altered character. |
| `Editor.PlainTextIdempotent` | gui/editor_panel.py:142 | Setting the editor's own plain text again changes nothing. |
| `Editor.PlainTextNormalises` | gui/editor_panel.py:142 | `"a\r\nb"` and `"a\rb"` come back as `"a\nb"`, and `"a"` U+00A0 `"b"` comes back as `"a b"`. |
| `Editor.ClearThenAutosave` | gui/editor_panel.py:124-165 | After clearing, no autosave writes anything. |
| `Editor.EditThenAutosave` | gui/editor_panel.py:153-165 | An edit to a loaded note is written, with the new text, by the next autosave. |
| `Export.SanitizeFilename` | features/export.py:13-16 | Every kept character is safe. The result is the last `" - "` segment with each unsafe character replaced by `_`, cut to 100 characters. |
| `Export.SanitizedHasNoSeparator` | features/export.py:13-16 | A sanitised name has no `" - "`. |
| `Export.SanitizeIdempotent` | features/export.py:13-16 | Sanitising twice is sanitising once. |
| `Export.LineFind` | features/export.py:33-34 | A lazy `.*?` stops at the first occurrence of the delimiter within the line. There is none without a newline in between. |
| `Export.MatchAt` | features/export.py:33-34 | A match at `p` spans one image link whose groups have no newline, and whose path has no `)`. There is no match without `![` at `p`. |
| `Export.ReplaceLink` | features/export.py:22-31 | Web links are kept, and a `file:///` link drops `file://`. Any other path becomes `toUri(path)`. |
| `Export.NoImageUnchanged` | features/export.py:18-34 | A body without `![` is exported unchanged. |
| `Export.SingleImage` | features/export.py:18-34 | A body that is one image link comes out as the replacer's rewriting of it. |
| `Export.ImageMatches` | features/export.py:33-34 | The pattern matches a whole link, with its alt text and path as groups. |
| `Export.SingleFileExport` | features/export.py:40-46 | One write of the stripped concatenation of the non-null sections, titled "CyberNotes Export". |
| `Export.MultiFileExport` | features/export.py:47-57 | The writes are `MultiPlan`: one file per non-null note, in list order. |
| `Export.ExportNotesToFile` | features/export.py:36-57 | The single-file or the per-note writes, according to `single_file`. |
| `Export.CombinedAppend` | features/export.py:40-46 | Exporting two lists in a row gives their contents in a row. |
| `Export.CombinedOne` | features/export.py:42-45 | A null entry adds nothing, and a note adds its own section. |
| `Export.FileNameInjective` | features/export.py:53 | Different indices give different file names. |
| `Export.NoteFilePathsDiffer` | features/export.py:48-54 | Notes at different indices are written to different paths. |
| `Export.MultiPlanDistinctPaths` | features/export.py:48-57 | No two files of an export share a path. |
| `Export.MultiPlanCovers` | features/export.py:50-57 | Every non-null entry gets its file, named after `i + 1`. |
| `Export.MultiPlanFrom` | features/export.py:50-57 | Every write is the file of a non-null entry at its own index. |

## Left out

- LIKE wildcards: `%` and `_` inside a search query are matched literally.
- Case folding: only ASCII letters are folded. This matches SQLite's LIKE. Python's `lower()` in the sidebar
  filter also folds other letters.
- `int()` parsing: leading and trailing whitespace, `_` digit separators and non-ASCII decimal digits (which
  Python's `int()` accepts) are not accepted.
- JSON values: a legacy file whose values are not note or folder records is modelled as a file that does not
  read, which the import logs and skips.
- Empty records: a note record that is an empty dict is falsy in Python. It is skipped by `save` and by the
  export. The model represents a record as present or absent, with null entries as `Option`.
- A partial `shutil.copy2`: a copy either fails before writing or succeeds whole.
- 64-bit overflow of SQLite integers and of the next-id computation: ids are unbounded.
- Widgets, dialogs, the status bar, signals to other panels, logging and the preview timer are not modelled. Their
  inputs (dialog answers, confirmations, selections, the shown order) are parameters instead.
- The folder item texts and their note counts are not modelled.
- `create_folder(name=...)`, the programmatic call, is not modelled; the dialog branch is.
- The image and link counts of `calculate_metrics` are not modelled, since they come from regular expressions
  outside the text model.
- `os.path.abspath` followed by `Path.as_uri` is the parameter `toUri`, because it depends on the working
  directory.
- `_write_file` (Markdown rendering, HTML and PDF output, its `ImportError` fallback) is not modelled. An export
  is the list of writes it would make.
- The cursor movement of `_on_checklist_toggled` is modelled as replacing line `i` of the `\n`-split text, so
  soft-wrapped lines are treated the same as `QTextCursor`'s text blocks.
- The `FileSystem` class is only a holder for the disk map; it has no counterpart in the source.
- `load`'s `finally` block reads `conn`, which is unbound when `connect` itself raises. This case is not modelled:
  `connect` always succeeds.
- LoadSpec.LoadAfterSave: the key order of the loaded folder dict is the order the folder SELECT returns, which
  SQL leaves unspecified without `ORDER BY`. Only keys, names, lists and notes are restored, not the saved order.
- Sidebar.SidebarPanel.RenameNote: requires that a current item exists when exactly one item is selected. The
  source would raise on a missing one.
- Sidebar.SidebarPanel.DeleteFolder: the folder Qt makes current is the parameter `after`. Qt takes the next row,
  or the previous one, and the model does not track the folder list's row order.
- Storage.StorageManager.CreateTables: an outside failure of the second CREATE TABLE, after the first has created
  the folders table, would leave one table only. The model has a file either with both tables or with neither, so
  `createFails` raises before the first table is created.
- Storage.StorageManager.Open: the `sqlite3.DatabaseError` that `_create_tables` raises on a file that is not a
  database is the null result, not an exception.
- Editor.EditorPanel.ClearAndDisable: weaker than the source, because whether `editor.clear()` re-fires
  `textChanged` (which sets `_is_modified` again) is a parameter, not decided by the model.
- Editor.EditorPanel.constructor: assumes that `clear()` on the new, empty editor reports no text change.
