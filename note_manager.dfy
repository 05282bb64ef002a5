/**
 * The note commands: create a note from the editor's selection, edit it,
 * show it on hover, and delete or categorise the note last right-clicked
 * in the tree.
 *
 * The active editor is the input `editor` (`None` when there is none),
 * the answer to the "Enter your note:" prompt is `prompt` (`None` when it
 * is dismissed), and the clocks are the inputs `isoNow` (the ISO time the
 * draft records) and `dbNow` (the store's CURRENT_TIMESTAMP).
 */
module NoteCommands {
  import opened Wrappers
  import opened Types
  import opened Strings
  import opened Database
  import opened WorkspaceSession
  import opened FileSession

  /** `formatLanguageId`: the two React dialects get their file extensions; every other id is kept. */
  function FormatLanguageId(vscodeLanguageId: string): (r: string)
    ensures vscodeLanguageId == "typescriptreact" ==> r == "tsx"
    ensures vscodeLanguageId == "javascriptreact" ==> r == "jsx"
    ensures vscodeLanguageId != "typescriptreact" && vscodeLanguageId != "javascriptreact" ==> r == vscodeLanguageId
  {
    if vscodeLanguageId == "typescriptreact" then "tsx"
    else if vscodeLanguageId == "javascriptreact" then "jsx"
    else vscodeLanguageId
  }

  /** Formatting twice is formatting once, and no language id is lost. */
  lemma FormatLanguageIdIdempotent(vscodeLanguageId: string)
    ensures FormatLanguageId(FormatLanguageId(vscodeLanguageId)) == FormatLanguageId(vscodeLanguageId)
    ensures vscodeLanguageId != "" ==> FormatLanguageId(vscodeLanguageId) != ""
  {
  }

  /** The active editor: its language, the selection's first and last line, and the document's lines. */
  datatype Editor = Editor(languageId: string, startLine: int, endLine: int, lines: seq<string>)
  {
    /** VS Code's selections lie inside the document and start no later than they end. */
    predicate WellFormed()
    {
      0 <= startLine <= endLine < |lines|
    }
  }

  /** The text from column 0 of the first selected line to the end of the last, lines joined by "\n". */
  function CodeText(e: Editor): string
    requires e.WellFormed()
  {
    Join(e.lines[e.startLine..e.endLine + 1], '\n')
  }

  /** The note `createNote` hands to the store. */
  function DraftNote(e: Editor, noteText: string, fileId: int, isoNow: string): Note
    requires e.WellFormed()
  {
    Note(0, Truncate(noteText, 40), noteText, CodeText(e), e.startLine, e.endLine,
         FormatLanguageId(e.languageId), Some(""), fileId, isoNow)
  }

  /**
   * The draft's code text is exactly the selected lines (splitting it on
   * "\n" gives them back), its title is the note text cut to 40 characters,
   * and its line range is the selection's.
   */
  lemma DraftNoteSpec(e: Editor, noteText: string, fileId: int, isoNow: string)
    requires e.WellFormed()
    requires forall i :: 0 <= i < |e.lines| ==> '\n' !in e.lines[i]
    ensures var n := DraftNote(e, noteText, fileId, isoNow);
            && Split(n.codeText, '\n') == e.lines[e.startLine..e.endLine + 1]
            && n.startLine == e.startLine && n.endLine == e.endLine && n.fileId == fileId
            && (|noteText| <= 40 ==> n.title == noteText)
            && (|noteText| > 40 ==> n.title == noteText[..40] + "...")
  {
    var selected := e.lines[e.startLine..e.endLine + 1];
    forall i | 0 <= i < |selected| ensures '\n' !in selected[i] {
      assert selected[i] == e.lines[e.startLine + i];
    }
    SplitJoin(selected, '\n');
  }

  /** The note at `ns[i]` is the first one spanning `line` in the file. */
  predicate FirstCover(ns: seq<Note>, fileId: int, line: int, i: int)
  {
    0 <= i < |ns| && Covers(ns[i], fileId, line) && forall j :: 0 <= j < i ==> !Covers(ns[j], fileId, line)
  }

  class NoteManager {
    var rightClickedNoteId: Option<int>
    const db: DatabaseService
    const workspaces: WorkspaceManager
    const files: FileManager

    /** The managers share the one store and the one workspace record, as the singletons do. */
    ghost predicate Wired()
      reads files
    {
      files.db == db && workspaces.db == db && files.workspaces == workspaces
    }

    constructor(db: DatabaseService, workspaces: WorkspaceManager, files: FileManager)
      requires files.db == db && workspaces.db == db && files.workspaces == workspaces
      ensures rightClickedNoteId == None && Wired()
      ensures this.db == db && this.workspaces == workspaces && this.files == files
    {
      rightClickedNoteId := None;
      this.db := db;
      this.workspaces := workspaces;
      this.files := files;
    }

    /**
     * `createNote`: with an editor, a recorded file and a non-empty answer
     * to the prompt, store the draft and return the new row id.
     */
    method CreateNote(editor: Option<Editor>, prompt: Option<string>, isoNow: string, dbNow: string)
      returns (noteId: Option<int>)
      requires editor.Some? ==> editor.value.WellFormed()
      requires db.Valid()
      modifies db
      ensures db.Valid()
      ensures noteId.Some? <==> editor.Some? && Truthy(files.file.id) && prompt.Some? && prompt.value != ""
      ensures noteId.Some? ==>
                && noteId.value == NextRowId(NoteIds(old(db.notes)))
                && db.Live() == AddNote(old(db.Live()), DraftNote(editor.value, prompt.value, files.file.id.value, isoNow), dbNow)
                && db.saved == db.Live()
      ensures noteId.None? ==> db.Live() == old(db.Live()) && db.saved == old(db.saved)
    {
      if editor.None? {
        return None;
      }
      var fileId := files.GetFileId();
      if !Truthy(fileId) {
        return None;
      }
      var e := editor.value;
      var languageId := FormatLanguageId(e.languageId);
      var noteText := prompt;
      if noteText.Some? && noteText.value != "" {
        var text := noteText.value;
        var codeText := Join(e.lines[e.startLine..e.endLine + 1], '\n');
        var title := Truncate(text, 40);
        var note := Note(0, title, text, codeText, e.startLine, e.endLine, languageId, Some(""), fileId.value, isoNow);
        var rowId := db.InsertNote(note, dbNow);
        return Some(rowId);
      }
      return None;
    }

    /** `updateNote`: an edit that empties the note text is ignored. */
    method UpdateNote(updatedNote: Note)
      requires db.Valid()
      modifies db
      ensures db.Valid()
      ensures updatedNote.noteText != "" ==>
                db.notes == UpdateNoteRows(old(db.notes), updatedNote) &&
                db.workspaces == old(db.workspaces) && db.files == old(db.files) && db.saved == db.Live()
      ensures updatedNote.noteText == "" ==> db.Live() == old(db.Live()) && db.saved == old(db.saved)
    {
      if updatedNote.noteText != "" {
        db.UpdateNote(updatedNote);
      }
    }

    /**
     * `prepareToCreateNote`: register the workspace if needed, then resolve
     * the active editor's file, creating its row. When registering throws
     * (`ok` is false) the command stops there and the file is not loaded.
     */
    method PrepareToCreateNote(inWorkspace: bool, name: string, path: string, editorPath: Option<string>)
      returns (ok: bool)
      requires Wired() && db.Valid()
      modifies workspaces`workspace, files, db
      ensures db.Valid()
      ensures ok <==> !(inWorkspace && WorkspaceByName(old(db.workspaces), name).None? &&
                        WorkspaceConflict(old(db.workspaces), name, path))
      ensures !inWorkspace || !ok ==>
                db.Live() == old(db.Live()) && db.saved == old(db.saved) &&
                workspaces.workspace == old(workspaces.workspace) &&
                files.file == old(files.file) && files.currFileNotes == old(files.currFileNotes)
      ensures inWorkspace && ok ==>
                var registered := RegisterWorkspace(old(db.Live()), name, path);
                && (editorPath.Some? && Truthy(workspaces.workspace.id) ==>
                      db.Live() == ResolveFile(registered, editorPath.value, workspaces.workspace.id.value, true).0)
                && (editorPath.None? || !Truthy(workspaces.workspace.id) ==> db.Live() == registered)
      ensures inWorkspace && WorkspaceByName(old(db.workspaces), name).Some? ==>
                workspaces.workspace == old(workspaces.workspace)
      ensures inWorkspace && ok && WorkspaceByName(old(db.workspaces), name).None? ==>
                && WorkspaceByName(db.workspaces, name).Some?
                && workspaces.workspace == Merge(old(workspaces.workspace),
                     PartialWorkspace(Some(WorkspaceByName(db.workspaces, name).value.id), Some(name), Some(path)))
      ensures inWorkspace && ok && editorPath.Some? && Truthy(workspaces.workspace.id) ==>
                && files.file.id.Some?
                && files.file.relativePath == Some(editorPath.value)
                && FileByPath(db.files, editorPath.value).Some?
                && FileByPath(db.files, editorPath.value).value.id == files.file.id.value
      ensures db.saved == if db.Live() == old(db.Live()) then old(db.saved) else db.Live()
    {
      if !inWorkspace {
        return true;
      }
      FoundIdTruthy(db.workspaces, name);
      RegisterWorkspaceSpec(db.Live(), name, path);
      if !workspaces.IsWorkspaceRegistered(inWorkspace, name) {
        var outcome := workspaces.LoadWorkspace(inWorkspace, name, path);
        if outcome.InsertFailed? {
          return false;
        }
      }
      files.LoadCurrFile(editorPath, true);
      ok := true;
    }

    /**
     * The hover text for `line`: the text of the first note of the recorded
     * file that spans the line, when there is one and it is not empty.
     */
    function ProvideHover(line: int): (hover: Option<string>)
      reads files, db
      ensures hover.Some? <==>
              Truthy(files.file.id) &&
              exists i :: FirstCover(db.notes, files.file.id.value, line, i) && db.notes[i].noteText != ""
      ensures hover.Some? ==>
              exists i :: FirstCover(db.notes, files.file.id.value, line, i) && db.notes[i].noteText == hover.value
    {
      var fileId := files.GetFileId();
      if !Truthy(fileId) then None
      else
        var noteText := db.GetNoteTextFromLine(line, fileId.value);
        FirstCoverUnique(db.notes, fileId.value, line);
        if noteText.Some? && noteText.value != "" then noteText else None
    }

    /** `setRightClickNote`. */
    method SetRightClickNote(noteId: int)
      modifies this`rightClickedNoteId
      ensures rightClickedNoteId == Some(noteId)
    {
      rightClickedNoteId := Some(noteId);
    }

    /** `deleteNote`: delete the right-clicked note, if one is set. */
    method DeleteNote()
      requires db.Valid()
      modifies db
      ensures db.Valid()
      ensures Truthy(rightClickedNoteId) ==>
                db.notes == RemoveNote(old(db.notes), rightClickedNoteId.value) &&
                db.workspaces == old(db.workspaces) && db.files == old(db.files) && db.saved == db.Live()
      ensures !Truthy(rightClickedNoteId) ==> db.Live() == old(db.Live()) && db.saved == old(db.saved)
    {
      if !Truthy(rightClickedNoteId) {
        return;
      }
      db.DeleteNote(rightClickedNoteId.value);
    }

    /** `updateCategory`: set the category of the right-clicked note, if one is set. */
    method UpdateCategory(category: string)
      requires db.Valid()
      modifies db
      ensures db.Valid()
      ensures Truthy(rightClickedNoteId) ==>
                db.notes == SetCategory(old(db.notes), rightClickedNoteId.value, category) &&
                db.workspaces == old(db.workspaces) && db.files == old(db.files) && db.saved == db.Live()
      ensures !Truthy(rightClickedNoteId) ==> db.Live() == old(db.Live()) && db.saved == old(db.saved)
    {
      if !Truthy(rightClickedNoteId) {
        return;
      }
      db.UpdateNoteCategory(rightClickedNoteId.value, category);
    }
  }

  /** Only one index is the first one spanning a line. */
  lemma FirstCoverUnique(ns: seq<Note>, fileId: int, line: int)
    ensures forall i, j :: FirstCover(ns, fileId, line, i) && FirstCover(ns, fileId, line, j) ==> i == j
  {
  }
}
