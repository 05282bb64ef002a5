/**
 * The records that flow between the store and the managers: a workspace,
 * a tracked file and a note, plus the partial records the session
 * managers hold before everything is known.
 */
module Types {
  import opened Wrappers

  /** A row of `workspaces`; `name` and `path` are both UNIQUE columns. */
  datatype Workspace = Workspace(id: int, name: string, path: string)

  /** A row of `files`; `relativePath` is the `relative_path` column. */
  datatype FileRow = FileRow(id: int, relativePath: string, workspaceId: int)

  /**
   * A row of `notes`. `category` is `None` for the SQL NULL that a fresh
   * insert leaves in that column; every other column is always written.
   */
  datatype Note = Note(
    id: int,
    title: string,
    noteText: string,
    codeText: string,
    startLine: int,
    endLine: int,
    languageId: string,
    category: Option<string>,
    fileId: int,
    createdDate: string)

  /** `Partial<Workspace>`: each field may be missing. */
  datatype PartialWorkspace = PartialWorkspace(id: Option<int>, name: Option<string>, path: Option<string>)

  /** `Partial<File>`: each field may be missing. */
  datatype PartialFile = PartialFile(id: Option<int>, relativePath: Option<string>, workspaceId: Option<int>)

  const EmptyWorkspace := PartialWorkspace(None, None, None)
  const EmptyFile := PartialFile(None, None, None)

  /**
   * JavaScript truthiness of an optional numeric id, as in `if (!fileId) return;`:
   * both a missing id and the id 0 are falsy.
   */
  predicate Truthy(id: Option<int>)
  {
    id.Some? && id.value != 0
  }
}
