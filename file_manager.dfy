/**
 * The session's record of the file open in the active editor and of its
 * notes. The editor's path relative to the workspace root
 * (`vscode.workspace.asRelativePath`) is the input `editorPath`, `None`
 * when no editor is active.
 */
module FileSession {
  import opened Wrappers
  import opened Types
  import opened Database
  import opened WorkspaceSession

  class FileManager {
    var file: PartialFile
    var currFileNotes: Option<seq<Note>>
    const db: DatabaseService
    const workspaces: WorkspaceManager

    constructor(db: DatabaseService, workspaces: WorkspaceManager)
      ensures file == EmptyFile && currFileNotes == None
      ensures this.db == db && this.workspaces == workspaces
    {
      file := EmptyFile;
      currFileNotes := None;
      this.db := db;
      this.workspaces := workspaces;
    }

    method UpdateFileRelativePath(relativePath: string)
      modifies this`file
      ensures file == old(file).(relativePath := Some(relativePath))
    {
      file := file.(relativePath := Some(relativePath));
    }

    /** `getFileRelativePath`: the recorded path, or "" before any is recorded. */
    function GetFileRelativePath(): (r: string)
      reads this
      ensures file.relativePath.Some? ==> r == file.relativePath.value
      ensures file.relativePath.None? ==> r == ""
    {
      file.relativePath.GetOr("")
    }

    /** `updateFileID`; the id may be `undefined`, when the path has no row. */
    method UpdateFileId(id: Option<int>)
      modifies this`file
      ensures file == old(file).(id := id)
    {
      file := file.(id := id);
    }

    function GetFileId(): Option<int>
      reads this
    {
      file.id
    }

    method UpdateCurrFileNotes(newFileNotes: seq<Note>)
      modifies this`currFileNotes
      ensures currFileNotes == Some(newFileNotes)
    {
      currFileNotes := Some(newFileNotes);
    }

    /** `loadCurrFileNotes`: refresh the notes of the recorded file, if it has a truthy id. */
    method LoadCurrFileNotes()
      modifies this`currFileNotes
      ensures Truthy(file.id) ==> currFileNotes == Some(NotesOfFile(db.notes, file.id.value))
      ensures !Truthy(file.id) ==> currFileNotes == old(currFileNotes)
    {
      if !Truthy(GetFileId()) {
        return;
      }
      var fileId := GetFileId().value;
      var newFileNotes := db.GetNotesFromFileId(fileId);
      UpdateCurrFileNotes(newFileNotes);
    }

    /** `getCurrFileNotes`: the loaded notes, or none before any were loaded. */
    function GetCurrFileNotes(): (r: seq<Note>)
      reads this
      ensures currFileNotes.Some? ==> r == currFileNotes.value
      ensures currFileNotes.None? ==> r == []
    {
      currFileNotes.GetOr([])
    }

    /**
     * `loadCurrFile`: resolve the active editor's file in the store (creating
     * its row when `insertIfNotExists`), record its id and path, and load its notes.
     */
    method LoadCurrFile(editorPath: Option<string>, insertIfNotExists: bool)
      requires db.Valid()
      modifies this, db
      ensures db.Valid()
      ensures editorPath.None? || !Truthy(workspaces.workspace.id) ==>
                file == old(file) && currFileNotes == old(currFileNotes) &&
                db.Live() == old(db.Live()) && db.saved == old(db.saved)
      ensures editorPath.Some? && Truthy(workspaces.workspace.id) ==>
                var resolved := ResolveFile(old(db.Live()), editorPath.value, workspaces.workspace.id.value, insertIfNotExists);
                && db.Live() == resolved.0
                && file == old(file).(id := resolved.1, relativePath := Some(editorPath.value))
                && currFileNotes == Some(if Truthy(resolved.1) then NotesOfFile(db.notes, resolved.1.value) else [])
      ensures editorPath.Some? && Truthy(workspaces.workspace.id) && insertIfNotExists ==>
                && file.id.Some?
                && FileByPath(db.files, editorPath.value).Some?
                && FileByPath(db.files, editorPath.value).value.id == file.id.value
      ensures db.saved == if db.Live() == old(db.Live()) then old(db.saved) else db.Live()
    {
      if editorPath.None? {
        return;
      }
      var workspaceId := workspaces.GetWorkspaceId();
      if !Truthy(workspaceId) {
        return;
      }
      var relativeFilePath := editorPath.value;
      ResolveFileCreates(db.Live(), relativeFilePath, workspaceId.value);
      var fileId := db.GetFileIdByPath(relativeFilePath, workspaceId.value, insertIfNotExists);
      UpdateFileId(fileId);
      UpdateFileRelativePath(relativeFilePath);
      if Truthy(fileId) {
        var newFileNotes := db.GetNotesFromFileId(fileId.value);
        UpdateCurrFileNotes(newFileNotes);
      } else {
        UpdateCurrFileNotes([]);
      }
    }
  }
}
