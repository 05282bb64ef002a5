/**
 * The session's record of the open workspace, and the step that registers
 * a workspace in the store the first time it is opened.
 *
 * Whether VS Code has a folder open, the folder's name and its file-system
 * path are inputs (`inWorkspace`, `name`, `path`); the information message
 * about a changed path is the `pathWarning` flag of the outcome.
 */
module WorkspaceSession {
  import opened Wrappers
  import opened Types
  import opened Database

  /** `{ ...current, ...update }`: every field the update carries replaces the current one. */
  function Merge(current: PartialWorkspace, update: PartialWorkspace): (r: PartialWorkspace)
    ensures update.id.Some? ==> r.id == update.id
    ensures update.name.Some? ==> r.name == update.name
    ensures update.path.Some? ==> r.path == update.path
    ensures update.id.None? ==> r.id == current.id
    ensures update.name.None? ==> r.name == current.name
    ensures update.path.None? ==> r.path == current.path
  {
    PartialWorkspace(
      if update.id.Some? then update.id else current.id,
      if update.name.Some? then update.name else current.name,
      if update.path.Some? then update.path else current.path)
  }

  /** The laws of the spread merge: the empty record is neutral, merging is associative and repeatable. */
  lemma MergeLaws(a: PartialWorkspace, b: PartialWorkspace, c: PartialWorkspace)
    ensures Merge(a, EmptyWorkspace) == a && Merge(EmptyWorkspace, a) == a
    ensures Merge(Merge(a, b), c) == Merge(a, Merge(b, c))
    ensures Merge(Merge(a, b), b) == Merge(a, b)
    ensures b.id.Some? && b.name.Some? && b.path.Some? ==> Merge(a, b) == b
  {
  }

  /** Loading warns when the stored path of the workspace is set and is not the open folder's path. */
  predicate PathWarning(ws: seq<Workspace>, name: string, path: string): (warn: bool)
    ensures warn ==> exists i :: 0 <= i < |ws| && ws[i].name == name && ws[i].path != "" && ws[i].path != path
    ensures !warn ==> forall i :: 0 <= i < |ws| && ws[i].name == name && (forall j :: 0 <= j < i ==> ws[j].name != name) ==>
                        ws[i].path == "" || ws[i].path == path
  {
    var stored := WorkspaceByName(ws, name);
    stored.Some? && stored.value.path != "" && stored.value.path != path
  }

  /**
   * The store after `loadWorkspace`: a workspace name seen for the first
   * time is registered with the open folder's path, unless that path is
   * already registered under another name (the insert then fails).
   */
  function RegisterWorkspace(t: Tables, name: string, path: string): (r: Tables)
    ensures r == t || (WorkspaceByName(t.workspaces, name).None? && !WorkspaceConflict(t.workspaces, name, path) &&
                       r == AddWorkspace(t, name, path))
  {
    if Truthy(WorkspaceIdOf(WorkspaceByName(t.workspaces, name))) || WorkspaceConflict(t.workspaces, name, path) then t
    else AddWorkspace(t, name, path)
  }

  /** In a valid store every id is truthy, so "no id" and "a falsy id" coincide. */
  lemma FoundIdTruthy(ws: seq<Workspace>, name: string)
    requires RowIds(WorkspaceIds(ws))
    ensures Truthy(WorkspaceIdOf(WorkspaceByName(ws, name))) <==> WorkspaceByName(ws, name).Some?
  {
    var w := WorkspaceByName(ws, name);
    if w.Some? {
      var i :| 0 <= i < |ws| && ws[i] == w.value && ws[i].name == name;
      assert WorkspaceIds(ws)[i] == w.value.id;
    }
  }

  /**
   * Registration keeps the store valid, never rewrites a stored workspace,
   * leaves the workspace known by `name` unless its path is taken, and
   * doing it again changes nothing.
   */
  lemma RegisterWorkspaceSpec(t: Tables, name: string, path: string)
    requires ValidTables(t)
    ensures var t' := RegisterWorkspace(t, name, path);
            && ValidTables(t')
            && t'.files == t.files && t'.notes == t.notes
            && t.workspaces <= t'.workspaces
            && (WorkspaceByName(t'.workspaces, name).Some? <==>
                WorkspaceByName(t.workspaces, name).Some? || !WorkspaceConflict(t.workspaces, name, path))
            && (WorkspaceByName(t.workspaces, name).None? && !WorkspaceConflict(t.workspaces, name, path) ==>
                WorkspaceByName(t'.workspaces, name).value.path == path)
            && RegisterWorkspace(t', name, path) == t'
            && (WorkspaceByName(t.workspaces, name).Some? ==> forall p :: RegisterWorkspace(t, name, p) == t)
  {
    FoundIdTruthy(t.workspaces, name);
    var t' := RegisterWorkspace(t, name, path);
    if WorkspaceByName(t.workspaces, name).None? && !WorkspaceConflict(t.workspaces, name, path) {
      AddWorkspaceValid(t, name, path);
      var w := Workspace(NextRowId(WorkspaceIds(t.workspaces)), name, path);
      FirstAppend(t.workspaces, [w], (x: Workspace) => x.name == name);
      FoundIdTruthy(t'.workspaces, name);
    }
  }

  datatype LoadOutcome =
    | NotInWorkspace
    | Loaded(pathWarning: bool)
    /** `insertWorkspace` threw: the open folder's path is registered under another name. */
    | InsertFailed(pathWarning: bool)

  class WorkspaceManager {
    var workspace: PartialWorkspace
    const db: DatabaseService

    constructor(db: DatabaseService)
      ensures workspace == EmptyWorkspace && this.db == db
    {
      workspace := EmptyWorkspace;
      this.db := db;
    }

    function GetWorkspacePath(): Option<string>
      reads this
    {
      workspace.path
    }

    function GetWorkspaceName(): Option<string>
      reads this
    {
      workspace.name
    }

    function GetWorkspaceId(): Option<int>
      reads this
    {
      workspace.id
    }

    /** `updateWorkspace`: the fields given replace the session's; the others stay. */
    method UpdateWorkspace(update: PartialWorkspace)
      modifies this`workspace
      ensures workspace == Merge(old(workspace), update)
      ensures update.id.Some? ==> GetWorkspaceId() == update.id
      ensures update.id.None? ==> GetWorkspaceId() == old(GetWorkspaceId())
    {
      workspace := Merge(workspace, update);
    }

    /** `loadWorkspace`. */
    method LoadWorkspace(inWorkspace: bool, name: string, path: string) returns (outcome: LoadOutcome)
      requires db.Valid()
      modifies this`workspace, db
      ensures db.Valid()
      ensures !inWorkspace ==> outcome == NotInWorkspace && workspace == old(workspace) &&
                               db.Live() == old(db.Live()) && db.saved == old(db.saved)
      ensures inWorkspace ==> db.Live() == RegisterWorkspace(old(db.Live()), name, path)
      ensures inWorkspace ==> !outcome.NotInWorkspace? && outcome.pathWarning == PathWarning(old(db.workspaces), name, path)
      ensures outcome.InsertFailed? <==>
              inWorkspace && WorkspaceByName(old(db.workspaces), name).None? && WorkspaceConflict(old(db.workspaces), name, path)
      ensures outcome.InsertFailed? ==> workspace == old(workspace)
      ensures db.saved == if db.Live() == old(db.Live()) then old(db.saved) else db.Live()
      ensures outcome.Loaded? ==>
                && IsWorkspaceRegistered(true, name)
                && workspace == Merge(old(workspace),
                     PartialWorkspace(Some(WorkspaceByName(db.workspaces, name).value.id), Some(name), Some(path)))
    {
      if !inWorkspace {
        return NotInWorkspace;
      }
      FoundIdTruthy(db.workspaces, name);
      RegisterWorkspaceSpec(db.Live(), name, path);
      var workspaceId := db.GetWorkspaceIdByName(name);
      var workspacePathFromDb := db.GetWorkspacePathByName(name);
      var warn := workspacePathFromDb.Some? && workspacePathFromDb.value != "" && workspacePathFromDb.value != path;
      if !Truthy(workspaceId) {
        var ok := db.InsertWorkspace(name, path);
        if !ok {
          return InsertFailed(warn);
        }
        workspaceId := db.GetWorkspaceIdByName(name);
      }
      UpdateWorkspace(PartialWorkspace(workspaceId, Some(name), Some(path)));
      outcome := Loaded(warn);
    }

    /** `isWorkspaceRegistered`: some stored workspace has the open workspace's name. */
    function IsWorkspaceRegistered(inWorkspace: bool, name: string): (r: bool)
      reads this, db
      ensures r <==> inWorkspace && exists i :: 0 <= i < |db.workspaces| && db.workspaces[i].name == name
    {
      inWorkspace && db.GetWorkspaceIdByName(name).Some?
    }
  }
}
