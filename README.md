# Snip Notes: note store, session managers and notes tree

Snip Notes is a VS Code extension that attaches notes to line ranges of files in a workspace. This project models its core in Dafny and proves properties of the model:

- **The note store** (`Database`). It holds three tables: workspaces, files and notes.
  - Each table is a sequence of rows kept in rowid order.
  - A new row gets the rowid SQLite assigns: one more than the largest id, or 1 in an empty table.
  - `DatabaseService` holds the live tables plus the snapshot that `saveDatabase` last wrote to disk.
  - Each SQL statement the extension sends is modelled by one function on the tables.
  - The list queries keep the source's `while (stmt.step())` loops.
- **Row conversion** (`Utilities`). Snake-case column names are renamed to camel case (`note_text` → `noteText`), as `transformDbNoteToNote` does.
- **Note icons** (`Icons`). A category maps to an emoji, with a light bulb as the default.
- **The notes tree** (`TreeProvider`).
  - `buildHierarchy` walks each file's `/`-separated segments with a find-or-create cursor and appends the file node at the end.
  - `compressPath` merges every directory whose only child is a directory into one `outer/inner` node.
  - `buildRoot` combines both steps for the current workspace.
  - Both algorithms are imperative methods, proved equal to functional specifications. Theorems about those specifications state what the panel shows.
- **The session managers** (`WorkspaceSession`, `FileSession`, `NoteCommands`). These are classes whose fields hold the session's workspace record, the current file and its notes, and the note last right-clicked in the tree.
  - Their methods change the store only through `DatabaseService`.
  - Each method's contract ties the new store to a specification function.

Deliberate choices:

- **Truthy ids.** JavaScript truthiness of ids (`if (!fileId) return;`) is `Types.Truthy`: both a missing id and `0` are falsy.
- **Failed workspace insert.** `insertWorkspace` throws when a UNIQUE column already holds the value. For example, when a folder already registered is opened again under another workspace name (through a saved `.code-workspace` file, say), its path is already stored, so the new name cannot be inserted. This is modelled as a failed insert that changes nothing. `loadWorkspace` then ends with the outcome `InsertFailed` and the session record stays as it was. The exception also ends `prepareToCreateNote`, so the current file is not loaded.
- **Session path.** The session record takes the path of the folder that is open. It does not take the stored path (workspaceManager.ts:43-47); when the two differ, only the information message tells them apart.
- **Shared file rows.** A file row is found by its relative path alone, in every workspace (databaseService.ts:96-99). The model keeps this: two workspaces with the same relative path share one file row.
- **Orphaned notes.** `deleteFile`, with its id bound as every other statement binds it, deletes only the file row. Notes that point at it stay in the table. As written it binds nothing and deletes no row (see Findings).

## Model

| member | source | states |
|---|---|---|
| Strings.Split | src/providers/treeProvider.ts:90 | `split('/')` always yields at least one piece, and no piece contains the separator |
| Strings.JoinSplit | src/providers/treeProvider.ts:90 | joining the pieces of a split with the separator gives back the original path |
| Strings.SplitJoin | src/managers/noteManager.ts:25-31 | splitting a join of separator-free pieces gives back the pieces (a round trip) |
| Strings.SplitFree | src/providers/treeProvider.ts:90 | a path without the separator splits into itself alone |
| Strings.SplitPrefix | src/providers/treeProvider.ts:90 | a separator-free segment followed by the separator splits off as the first piece |
| Strings.Join | src/managers/noteManager.ts:25-31 | the selected lines joined by the line break, the partner of `Split` in `SplitJoin` and `JoinSplit` |
| Strings.Truncate | src/providers/treeProvider.ts:70 | short strings are kept whole; longer ones keep their first `n` characters and gain exactly "..." |
| Icons.GetEmoji | src/utils/icons.ts:14-16 | the mapped emoji for note/todo/fix; the light bulb for any other category and for a NULL category; never empty |
| Icons.EmojiCases | src/utils/icons.ts:6-10 | the three categories and the fallback, case by case, including that lookup is case-sensitive |
| Utilities.Upper | src/utils/utilities.ts:8 | `toUpperCase` of a lowercase ASCII letter is an uppercase letter |
| Utilities.CamelKey | src/utils/utilities.ts:8 | the global replace of `_x` by `X`, which never lengthens a key; its laws are the `CamelKey` lemmas below |
| Utilities.CamelKeyNoMatch | src/utils/utilities.ts:8 | after the global `/_([a-z])/` replacement no `_` is followed by a lowercase letter |
| Utilities.CamelKeyUnchanged | src/utils/utilities.ts:8 | a key with no `_x` occurrence is left as it is |
| Utilities.CamelKeyFixedPoint | src/utils/utilities.ts:8 | a key is unchanged if and only if it has no `_x` occurrence |
| Utilities.CamelKeyIdempotent | src/utils/utilities.ts:8 | renaming an already renamed key changes nothing |
| Utilities.TransformDbNoteToNote | src/utils/utilities.ts:4-13 | the loop builds exactly the map of renamed keys to the row's values, later columns winning |
| Utilities.RenamedKeys | src/utils/utilities.ts:6-10 | the result's keys are exactly the renamed column names |
| Utilities.RenamedValues | src/utils/utilities.ts:9 | when renamed names do not collide, every column's value is copied unchanged under its new name |
| Utilities.ColumnsBecomeFields | src/utils/utilities.ts:8 | each of the ten `notes` columns becomes the matching `Note` field name |
| Utilities.CamelKeyAppend | src/utils/utilities.ts:8 | a piece without `_` passes through the replacement unchanged in front of the rest |
| Utilities.CamelKeyOne | src/utils/utilities.ts:8 | one `_x` between underscore-free text becomes the upper-case letter |
| Database.First | src/db/databaseService.ts:67-72 | `getAsObject` finds nothing exactly when no row matches, else the first matching row in scan order |
| Database.Where | src/db/databaseService.ts:161-184 | a filtered listing holds exactly the matching rows and is no longer than the table |
| Database.WhereAppend | src/db/databaseService.ts:161-173 | a listing of a table extended by rows is the old listing followed by the new rows' listing |
| Database.WhereInOrder | src/db/databaseService.ts:161-173 | rows in a listing keep their relative table order |
| Database.MaxId | src/db/databaseService.ts:121-127 | the largest id is at least every id and is one of them (or 0 for an empty table) |
| Database.NextRowId | src/db/databaseService.ts:121-127 | the id SQLite hands out is positive and larger than every id present |
| Database.NoteByIdAt | src/db/databaseService.ts:145-150 | in a table with growing ids, looking up a row's id finds that row |
| Database.AddWorkspace | src/db/databaseService.ts:61-65 | the workspace insert appends one row with the name and path and a rowid above every stored one, and leaves the other tables alone |
| Database.AddFile | src/db/databaseService.ts:81-88 | the file insert appends one row with the path and workspace and a rowid above every stored one, and leaves the other tables alone |
| Database.AddNote | src/db/databaseService.ts:121-127 | the note insert appends one row that is the note apart from its fresh rowid, its NULL category and the default date, and leaves the other tables alone |
| Database.UpdateNoteRows | src/db/databaseService.ts:132-137 | the note update keeps every row in place with its id, language, category and date, and changes only rows with the note's id |
| Database.SetCategory | src/db/databaseService.ts:186-190 | the category update changes nothing but the category, and that only for rows with the id |
| Database.RemoveNote | src/db/databaseService.ts:139-143 | after the note delete exactly the rows with another id remain |
| Database.RemoveFile | src/db/databaseService.ts:114-117 | after the file delete with the id bound exactly the rows with another id remain |
| Database.ResolveFile | src/db/databaseService.ts:90-105 | find-or-create changes the store at most by the one file insert, only when allowed to, and never touches workspaces or notes |
| Database.AddWorkspaceValid | src/db/databaseService.ts:61-65 | an insert that breaks no UNIQUE constraint keeps ids growing and names and paths unique |
| Database.AddFileValid | src/db/databaseService.ts:81-88 | inserting a file keeps the store valid |
| Database.AddNoteValid | src/db/databaseService.ts:121-130 | inserting a note keeps the store valid |
| Database.RemoveNoteValid | src/db/databaseService.ts:139-143 | deleting notes keeps the store valid |
| Database.RemoveFileValid | src/db/databaseService.ts:114-119 | deleting files keeps the store valid |
| Database.UpdatesValid | src/db/databaseService.ts:132-137 | both UPDATE statements keep the store valid |
| Database.InsertNoteRoundTrip | src/db/databaseService.ts:121-130 | a note inserted and read back by its new id is the note itself, with the new id, a NULL category and the store's timestamp |
| Database.UpdateNoteEffect | src/db/databaseService.ts:132-137 | `updateNote` rewrites the six columns of that note, keeps its language, category and date, and leaves every other note alone |
| Database.SetCategoryEffect | src/db/databaseService.ts:186-190 | `updateNoteCategory` sets that note's category, leaves the other notes alone, and commutes with listing a file's notes |
| Database.SetCategoryListing | src/db/databaseService.ts:186-190 | setting a category and then listing a file's notes equals listing and then setting |
| Database.SameIdsSameLookup | src/db/databaseService.ts:145-150 | two tables that agree on ids, row by row, find a given id at the same position |
| Database.RemoveNoteEffect | src/db/databaseService.ts:139-143 | after `deleteNote` the note is gone from every lookup and listing; the other notes stay, in order; exactly one row is removed when the id was present |
| Database.RemoveLookup | src/db/databaseService.ts:139-143 | only the deleted id stops being found |
| Database.RemoveListing | src/db/databaseService.ts:139-143 | deleting and then listing a file's notes equals listing and then deleting |
| Database.RemoveCount | src/db/databaseService.ts:139-143 | a delete by id removes one row when the id is present and none otherwise |
| Database.ResolveFileCreates | src/db/databaseService.ts:90-105 | with insertion allowed, the path ends up with a row whose id is returned; at most one row `(path, workspaceId)` is appended, and only when the path had none |
| Database.ResolveFileLookupOnly | src/db/databaseService.ts:90-105 | without insertion nothing changes, and an id is returned exactly when some row has the path |
| Database.ResolveFileTwice | src/db/databaseService.ts:90-105 | find-or-create is idempotent: a second call, from any workspace, returns the same id and adds nothing |
| Database.NoteAtLineSpec | src/db/databaseService.ts:152-159 | the line lookup finds a note exactly when a note of the file spans the line, and finds one of that file's notes |
| Database.NoteTextFromLineAsWritten | src/db/databaseService.ts:152-159 | as written, the lookup throws exactly when no note of the file spans the line |
| Database.HoverOffNoteThrows | src/db/databaseService.ts:157-158 | hovering over a line no note spans, or any line of an empty store, throws |
| Database.BoundParam | src/db/databaseService.ts:116-117 | an array binds its first value to the `?`; a bare value binds nothing and the parameter stays NULL |
| Database.DeleteFileAsWritten | src/db/databaseService.ts:114-119 | as written, `deleteFile` leaves the files table exactly as it was |
| Database.DeleteFileKeepsRow | src/db/databaseService.ts:116-117 | a stored file is still found after the delete as written, and is gone when the id is bound as an array |
| Database.DatabaseService.Open | src/db/databaseService.ts:41-53 | opening the store from disk gives live tables equal to the disk image |
| Database.DatabaseService.SaveDatabase | src/db/databaseService.ts:55-59 | the persisted image becomes the live tables |
| Database.DatabaseService.InsertWorkspace | src/db/databaseService.ts:61-65 | appends the workspace with the next id and saves, unless a UNIQUE name or path makes the insert fail; then nothing changes |
| Database.DatabaseService.GetWorkspaceIdByName | src/db/databaseService.ts:67-72 | an id exactly when a workspace has the name, namely that workspace's id |
| Database.DatabaseService.GetWorkspacePathByName | src/db/databaseService.ts:74-79 | a path exactly when a workspace has the name, namely its stored path |
| Database.DatabaseService.InsertFile | src/db/databaseService.ts:81-88 | appends the file row with the next id and saves |
| Database.DatabaseService.GetFileIdByPath | src/db/databaseService.ts:90-105 | the new store and the id are those of the find-or-create specification, including the single retry; saved only when a row was inserted |
| Database.DatabaseService.GetPathByFileId | src/db/databaseService.ts:107-112 | a path exactly when a file row has the id, namely its relative path |
| Database.DatabaseService.DeleteFile | src/db/databaseService.ts:114-119 | with the id bound as an array (the corrected behaviour), removes exactly the file row with that id, so it is no longer found; its notes stay; saves |
| Database.DatabaseService.InsertNote | src/db/databaseService.ts:121-130 | appends the stored note and saves; returns the new row's id |
| Database.DatabaseService.UpdateNote | src/db/databaseService.ts:132-137 | rewrites the six columns of the row with the note's id, touches nothing else, and saves |
| Database.DatabaseService.DeleteNote | src/db/databaseService.ts:139-143 | removes the row with the id and saves |
| Database.DatabaseService.GetNoteById | src/db/databaseService.ts:145-150 | a row exactly when the id is stored, and that row has the id |
| Database.DatabaseService.GetNoteTextFromLine | src/db/databaseService.ts:152-159 | the text of the first note of the file spanning the line, or nothing when there is none (the corrected behaviour) |
| Database.DatabaseService.GetNotesFromFileId | src/db/databaseService.ts:161-173 | the loop collects exactly the file's notes, in store order |
| Database.DatabaseService.GetFilesFromWorkspaceId | src/db/databaseService.ts:175-184 | the loop collects exactly the workspace's file rows, in store order |
| Database.DatabaseService.UpdateNoteCategory | src/db/databaseService.ts:186-190 | sets the category of the row with the id and saves |
| TreeProvider.NoteItems | src/providers/treeProvider.ts:69-80 | one note node per note, in order |
| TreeProvider.NoteLabel | src/providers/treeProvider.ts:70 | a note label starts with the category emoji and a space, and is at most 54 characters longer than the emoji |
| TreeProvider.NoteLabelShape | src/providers/treeProvider.ts:70 | a note label is the emoji and a space, then the whole title up to 50 characters, or its first 50 and "..." |
| TreeProvider.GetFileChildren | src/providers/treeProvider.ts:66-82 | one note node per stored note of the file, in store order, labelled as above |
| TreeProvider.FindLabel | src/providers/treeProvider.ts:95 | the index of the first sibling with the label, whatever its kind, or the end when there is none |
| TreeProvider.Place | src/providers/treeProvider.ts:93-109 | siblings keep their labels, kinds and order; a node is appended exactly when no sibling has the next segment's label (or at the end of the path) |
| TreeProvider.Build | src/providers/treeProvider.ts:84-112 | the tree the outer loop builds, file by file; it never has more top-level nodes than files |
| TreeProvider.PlugThenRead | src/providers/treeProvider.ts:91-102 | writing the child list at the cursor and reading it back gives what was written |
| TreeProvider.PlugTwice | src/providers/treeProvider.ts:99 | a second write at the cursor overrides the first |
| TreeProvider.PlugDeeper | src/providers/treeProvider.ts:102 | moving the cursor into node `k` designates that node's children |
| TreeProvider.BuildHierarchy | src/providers/treeProvider.ts:84-112 | the nested loops with the moving cursor build exactly the tree of the find-or-create specification |
| TreeProvider.Collapse | src/providers/treeProvider.ts:117-121 | the merged node keeps its kind, no longer has a lone directory child, and is unchanged when there was nothing to merge |
| TreeProvider.CompressOne | src/providers/treeProvider.ts:116-125 | one node after its `while` merge and the recursion below it: it keeps its kind, and a file or note node keeps its label |
| TreeProvider.CompressAll | src/providers/treeProvider.ts:114-128 | the list `compressPath` leaves behind: one node for each node it was given |
| TreeProvider.CollapseStep | src/providers/treeProvider.ts:118-120 | one pass of the loop body keeps the eventual merged node and makes the node smaller |
| TreeProvider.CompressAllAt | src/providers/treeProvider.ts:115-116 | compression works node by node on the list |
| TreeProvider.SizeAllBound | src/providers/treeProvider.ts:123-124 | the recursive call works on a smaller tree |
| TreeProvider.CompressPath | src/providers/treeProvider.ts:114-128 | the in-place loop, inner `while` and recursion produce exactly the compressed tree |
| TreeProvider.CompressAllCompressed | src/providers/treeProvider.ts:117-125 | afterwards no directory anywhere has exactly one child that is a directory |
| TreeProvider.CompressedUnchanged | src/providers/treeProvider.ts:117 | a tree with no such chain is left exactly as it is |
| TreeProvider.CompressIdempotent | src/providers/treeProvider.ts:114-128 | compressing twice is compressing once; the trees compression leaves unchanged are exactly the compressed ones |
| TreeProvider.CompressKeepsTopLevel | src/providers/treeProvider.ts:115-127 | the top-level list keeps its length and order, every node its kind, and file and note nodes their labels |
| TreeProvider.EntriesAppend | src/providers/treeProvider.ts:99 | the reachable entries of two sibling lists, one after the other, are the entries of each list in turn |
| TreeProvider.EntriesCollapse | src/providers/treeProvider.ts:119-120 | merging `outer` and `inner` into `outer/inner` keeps the full path of everything below |
| TreeProvider.CompressKeepsEntries | src/providers/treeProvider.ts:114-128 | compression keeps every file and note node at the same full path and in the same preorder position |
| TreeProvider.CompressOneKeepsEntries | src/providers/treeProvider.ts:116-125 | the same, for one node and what lies below it |
| TreeProvider.PrefixJoin | src/providers/treeProvider.ts:93-105 | the path walked down the segments, followed by the file label, is the segments joined by "/" |
| TreeProvider.FilePath | src/providers/treeProvider.ts:90-105 | walking down a file's directory segments and then its file label spells its relative path |
| TreeProvider.NoteEntries | src/providers/treeProvider.ts:69-80 | a file's note nodes show up beneath it, one per note, in order |
| TreeProvider.FileItemEntries | src/providers/treeProvider.ts:105-109 | a file node contributes its relative path and its notes beneath it |
| TreeProvider.PlaceEntries | src/providers/treeProvider.ts:93-109 | placing a node adds exactly that node's entries, at the path spelled by the segments, and removes none |
| TreeProvider.BuildEntries | src/providers/treeProvider.ts:84-112 | the built tree holds exactly one entry per file with notes, at its relative path, and its notes beneath it, and nothing else |
| TreeProvider.ExpectedFiles | src/providers/treeProvider.ts:87-88 | a file appears exactly when it is listed and has at least one note |
| TreeProvider.ListedLast | src/providers/treeProvider.ts:86 | a file among the files processed so far is one of the earlier files or the one the loop is on |
| TreeProvider.FileEntryOf | src/providers/treeProvider.ts:105-109 | among the entries one file contributes, the only file entry is that file, at its relative path |
| TreeProvider.TreeContents | src/providers/treeProvider.ts:56-64 | in the compressed panel a file node is shown at a path exactly when a listed file with notes has that path and id; the panel shows those entries and nothing else |
| TreeProvider.PlaceNoDuplicateDirs | src/providers/treeProvider.ts:95-100 | find-or-create never adds a directory whose label an earlier sibling already has |
| TreeProvider.BuildNoDuplicateDirs | src/providers/treeProvider.ts:84-112 | one build never creates two same-labelled directory siblings |
| TreeProvider.BuildRoot | src/providers/treeProvider.ts:56-64 | no tree without a truthy workspace id; otherwise the compressed tree of the workspace's files |
| WorkspaceSession.MergeLaws | src/managers/workspaceManager.ts:21-26 | the spread merge has the empty record as identity, is associative and repeatable, and a complete update replaces everything |
| WorkspaceSession.Merge | src/managers/workspaceManager.ts:21-26 | each field the update carries replaces the current one, and each field it lacks is kept |
| WorkspaceSession.PathWarning | src/managers/workspaceManager.ts:34-37 | the warning is shown only when the workspace stored under the name has a non-empty path other than the open folder's, and never when the first row with the name has the open path or none |
| WorkspaceSession.RegisterWorkspace | src/managers/workspaceManager.ts:33-42 | registration either changes nothing, or appends the one workspace insert for a new name that breaks no UNIQUE constraint |
| WorkspaceSession.FoundIdTruthy | src/managers/workspaceManager.ts:39 | in a valid store, `!workspaceId` holds exactly when no workspace has the name |
| WorkspaceSession.RegisterWorkspaceSpec | src/managers/workspaceManager.ts:33-42 | registration keeps the store valid, only ever appends, leaves the name known unless its path is taken, stores the open folder's path for a new name, and is idempotent; a name already stored changes nothing, whatever path is passed |
| WorkspaceSession.WorkspaceManager.constructor | src/managers/workspaceManager.ts:7 | the session starts with an empty workspace record |
| WorkspaceSession.WorkspaceManager.GetWorkspacePath | src/managers/workspaceManager.ts:9-11 | the path recorded in the session, if any |
| WorkspaceSession.WorkspaceManager.GetWorkspaceName | src/managers/workspaceManager.ts:13-15 | the name recorded in the session, if any |
| WorkspaceSession.WorkspaceManager.GetWorkspaceId | src/managers/workspaceManager.ts:17-19 | the id recorded in the session, if any |
| WorkspaceSession.WorkspaceManager.UpdateWorkspace | src/managers/workspaceManager.ts:21-26 | the given fields replace the session's and the others stay |
| WorkspaceSession.WorkspaceManager.LoadWorkspace | src/managers/workspaceManager.ts:28-48 | outside a workspace nothing happens; otherwise the store is registered as specified, the warning fires exactly on a stored non-empty path that differs, a failing insert leaves the session alone, and success records id, name and open path; the disk image is rewritten exactly when the store changed |
| WorkspaceSession.WorkspaceManager.IsWorkspaceRegistered | src/managers/workspaceManager.ts:50-57 | true exactly inside a workspace whose name is stored |
| FileSession.FileManager.constructor | src/managers/fileManager.ts:10-11 | no file and no notes are recorded at the start |
| FileSession.FileManager.UpdateFileRelativePath | src/managers/fileManager.ts:13-15 | only the path field changes |
| FileSession.FileManager.GetFileRelativePath | src/managers/fileManager.ts:17-19 | the recorded path, or "" |
| FileSession.FileManager.UpdateFileId | src/managers/fileManager.ts:21-23 | only the id field changes, possibly to undefined |
| FileSession.FileManager.GetFileId | src/managers/fileManager.ts:25-27 | the id recorded for the current file, if any |
| FileSession.FileManager.UpdateCurrFileNotes | src/managers/fileManager.ts:29-31 | the notes are replaced |
| FileSession.FileManager.LoadCurrFileNotes | src/managers/fileManager.ts:33-38 | with a truthy file id the notes become that file's stored notes; otherwise nothing changes |
| FileSession.FileManager.GetCurrFileNotes | src/managers/fileManager.ts:40-42 | the loaded notes, or none |
| FileSession.FileManager.LoadCurrFile | src/managers/fileManager.ts:52-69 | without an editor or a truthy workspace id nothing changes; otherwise the store and file id follow the find-or-create specification, the path is recorded and the notes are loaded; with insertion the recorded id names the path's row; the disk image is rewritten exactly when a row was inserted |
| NoteCommands.FormatLanguageId | src/managers/noteManager.ts:107-113 | typescriptreact becomes tsx, javascriptreact becomes jsx, anything else is kept |
| NoteCommands.FormatLanguageIdIdempotent | src/managers/noteManager.ts:107-113 | formatting twice is formatting once, and a language id never becomes empty |
| NoteCommands.DraftNoteSpec | src/managers/noteManager.ts:23-46 | the drafted code text splits back into exactly the selected lines, the title is the text cut to 40 characters plus "...", and the line range and file are the selection's |
| NoteCommands.DraftNote | src/managers/noteManager.ts:32-46 | the note object `createNote` hands to the store: id 0, the truncated title, the prompt's text, the selected code, the selection's lines, the formatted language, an empty category, the file's id and the current time |
| NoteCommands.NoteManager.constructor | src/managers/noteManager.ts:8 | no note is right-clicked at the start |
| NoteCommands.NoteManager.CreateNote | src/managers/noteManager.ts:10-55 | a note is stored exactly with an editor, a truthy file id and a non-empty answer; it is the drafted note, and the returned id is the new row's |
| NoteCommands.NoteManager.UpdateNote | src/managers/noteManager.ts:57-65 | an edit with non-empty text rewrites the note; an edit that empties it changes nothing |
| NoteCommands.NoteManager.PrepareToCreateNote | src/managers/noteManager.ts:67-73 | outside a workspace nothing changes; when registering a new name throws on a taken path it stops with nothing changed; otherwise the store is the registration followed by find-or-create of the editor's file for the session's workspace, the workspace record is left alone for a known name and merged for a new one, the current file ends up recorded with the id of its row, and the disk image is rewritten exactly when the store changed |
| NoteCommands.NoteManager.ProvideHover | src/managers/noteManager.ts:75-89 | a hover exactly when a file id is recorded and the first note spanning the line has non-empty text, and then it shows that text |
| NoteCommands.FirstCoverUnique | src/db/databaseService.ts:155-157 | only one note is the first to span a line |
| NoteCommands.NoteManager.SetRightClickNote | src/managers/noteManager.ts:91-93 | records the right-clicked note |
| NoteCommands.NoteManager.DeleteNote | src/managers/noteManager.ts:95-99 | deletes the right-clicked note when its id is truthy, and otherwise changes nothing |
| NoteCommands.NoteManager.UpdateCategory | src/managers/noteManager.ts:101-105 | sets the right-clicked note's category when its id is truthy, and otherwise changes nothing |

## Findings

| source | as written | input that shows it | evidently intended | confidence | as-written member | corrected member |
|---|---|---|---|---|---|---|
| src/db/databaseService.ts:157-158 | when no note spans the line, `getAsObject` returns `{}` and `res.note_text.toString()` throws a TypeError out of the hover provider | hovering any line of a file whose notes all lie elsewhere, e.g. line 5 when the only note spans lines 1-2 | the lookup returns nothing and no hover is shown, as the `if (noteText)` test in `provideHover` expects | high; not executed | Database.NoteTextFromLineAsWritten, Database.HoverOffNoteThrows | Database.DatabaseService.GetNoteTextFromLine, NoteCommands.NoteManager.ProvideHover |
| src/db/databaseService.ts:116-117 | `stmt.run(id)` hands sql.js a bare number; its `bind` takes only arrays and objects, so the `?` stays NULL and `DELETE FROM files WHERE id = NULL` deletes no row | deleting the file with id 1 from a store whose only file row has id 1: the row is still there | the row with that id is deleted, as with `[id]`, the form every other statement of the store uses | medium (rests on sql.js's binding rules, which are not part of this model); not executed | Database.DeleteFileAsWritten, Database.DeleteFileKeepsRow | Database.DatabaseService.DeleteFile |

## Left out

- The sql.js engine and the file system: `initializeSQLJs`, `setGlobalStoragePath`, `getDbFilePath`, the disk bytes behind `loadDatabase` and `saveDatabase`, and `isDbExistent`. The store is its tables, and "saved" is a snapshot of them.
- Asynchrony: `await`ed calls run to completion in order, as a single session does.
- VS Code objects are inputs or left out: URIs, commands, theme icons, collapsible state, `getTreeItem`, `refresh`, the `Hover` object, the input box, information messages and `executeCommand`. The editor is an `Editor` value; the prompt's answer is an `Option<string>`.
- `isInWorkspace` is a boolean input, and its warning message is left out.
- `FileManager.isFileInDb` is not modelled: it only asks the file system whether a path exists.
- Strings are sequences of characters. JavaScript's UTF-16 lengths, so `substring` on characters outside the Basic Multilingual Plane, are not modelled.
- Line endings: the code text joins lines with "\n"; documents with "\r\n" ends are not modelled.
- Icons.GetEmoji: keys inherited from `Object.prototype` (such as "constructor") are not modelled; a category of that name would find an inherited member rather than the light bulb.
- NoteCommands.FormatLanguageId: the same inherited keys of the mapping object are not modelled.
- WorkspaceSession.Merge: a key that is present with the value `undefined` is not modelled; `loadWorkspace` never passes one, because the id is always found after a successful insert.
- TreeProvider.BuildHierarchy: tree nodes are immutable values. The `currentChildren` cursor is a path of child indices, and `push` is a write at that path. Sharing between nodes, which in-place array updates would make visible, is not modelled.
- TreeProvider.CompressPath: the in-place updates of `node.label` and `node.children` are modelled as building a new node and writing it back into the list.
- Utilities.TransformDbNoteToNote: JavaScript objects keep keys in insertion order and results are typed as `Note`; the model yields a map from names to values, so key order and the cast are not modelled.
- DatabaseService.GetNotesFromFileId: the rows are already `Note` records, so the per-row `transformDbNoteToNote` and `noteText.toString()` are captured by the `Utilities` module rather than repeated.
- No concrete tree, such as the one for the three files `a/b/c/x.ts`, `a/b/c/y.ts` and `a/d/z.ts`, is proved as an instance. The general theorems `TreeContents`, `CompressAllCompressed` and `BuildNoDuplicateDirs` cover every such tree.
