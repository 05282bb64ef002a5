/**
 * The note store: three tables (workspaces, files, notes) kept in memory
 * as sequences of rows, and the snapshot that `saveDatabase` last wrote
 * to disk. The SQL engine is replaced by the meaning of each statement
 * the extension sends to it.
 *
 * Row order. Every table is a rowid table and every insert lets SQLite
 * choose the rowid: one more than the largest rowid present, 1 in an
 * empty table. So ids grow along each sequence, and the order of a
 * table scan (rowid order) is the order of the sequence.
 */
module Database {
  import opened Wrappers
  import opened Types

  datatype Tables = Tables(workspaces: seq<Workspace>, files: seq<FileRow>, notes: seq<Note>)

  // ---------------------------------------------------------------------
  // Query semantics: `stmt.getAsObject()` yields the first row in scan
  // order; `while (stmt.step())` visits every matching row in scan order.
  // ---------------------------------------------------------------------

  /** The first row satisfying `p`, in store order. */
  function First<T>(rows: seq<T>, p: T -> bool): (r: Option<T>)
    ensures r.None? <==> forall i :: 0 <= i < |rows| ==> !p(rows[i])
    ensures r.Some? ==> exists i :: 0 <= i < |rows| && rows[i] == r.value && p(rows[i]) &&
                                    forall j :: 0 <= j < i ==> !p(rows[j])
  {
    if rows == [] then None
    else if p(rows[0]) then Some(rows[0])
    else
      var r := First(rows[1..], p);
      assert forall i :: 1 <= i < |rows| ==> rows[i] == rows[1..][i - 1];
      r
  }

  /** The rows satisfying `p`, in store order. */
  function Where<T(!new)>(rows: seq<T>, p: T -> bool): (r: seq<T>)
    ensures |r| <= |rows|
    ensures forall x :: x in r <==> x in rows && p(x)
  {
    if rows == [] then []
    else
      var init := rows[..|rows| - 1];
      var last := rows[|rows| - 1];
      assert rows == init + [last];
      Where(init, p) + (if p(last) then [last] else [])
  }

  /** Filtering distributes over concatenation: matching rows keep their relative order. */
  lemma {:induction false} WhereAppend<T(!new)>(a: seq<T>, b: seq<T>, p: T -> bool)
    ensures Where(a + b, p) == Where(a, p) + Where(b, p)
  {
    if b == [] {
      assert a + b == a;
    } else {
      var init := b[..|b| - 1];
      assert (a + b)[..|a + b| - 1] == a + init;
      assert (a + b)[|a + b| - 1] == b[|b| - 1];
      WhereAppend(a, init, p);
    }
  }

  /** A row found by `First` is also the first row of every extension of the table. */
  lemma {:induction false} FirstAppend<T>(a: seq<T>, b: seq<T>, p: T -> bool)
    ensures First(a + b, p) == if First(a, p).Some? then First(a, p) else First(b, p)
  {
    if a == [] {
      assert a + b == b;
    } else {
      assert (a + b)[0] == a[0];
      assert (a + b)[1..] == a[1..] + b;
      FirstAppend(a[1..], b, p);
    }
  }

  // ---------------------------------------------------------------------
  // Row ids
  // ---------------------------------------------------------------------

  /** The largest id, or 0 for an empty list. */
  function MaxId(ids: seq<int>): (m: int)
    ensures m >= 0
    ensures forall i :: 0 <= i < |ids| ==> ids[i] <= m
    ensures m == 0 || m in ids
  {
    if ids == [] then 0
    else
      var m := MaxId(ids[..|ids| - 1]);
      assert forall i :: 0 <= i < |ids| - 1 ==> ids[i] == ids[..|ids| - 1][i];
      if ids[|ids| - 1] > m then ids[|ids| - 1] else m
  }

  /** The rowid SQLite assigns to a row inserted without one. */
  function NextRowId(ids: seq<int>): (r: int)
    ensures r >= 1
    ensures forall i :: 0 <= i < |ids| ==> ids[i] < r
  {
    MaxId(ids) + 1
  }

  function WorkspaceIds(ws: seq<Workspace>): seq<int>
  {
    seq(|ws|, i requires 0 <= i < |ws| => ws[i].id)
  }

  function FileIds(fs: seq<FileRow>): seq<int>
  {
    seq(|fs|, i requires 0 <= i < |fs| => fs[i].id)
  }

  function NoteIds(ns: seq<Note>): seq<int>
  {
    seq(|ns|, i requires 0 <= i < |ns| => ns[i].id)
  }

  /** Ids as SQLite hands them out: positive and growing along the table. */
  ghost predicate RowIds(ids: seq<int>)
  {
    && (forall i :: 0 <= i < |ids| ==> ids[i] >= 1)
    && (forall i, j :: 0 <= i < j < |ids| ==> ids[i] < ids[j])
  }

  /** The UNIQUE constraints of `workspaces.name` and `workspaces.path`. */
  ghost predicate UniqueNamesAndPaths(ws: seq<Workspace>)
  {
    forall i, j :: 0 <= i < j < |ws| ==> ws[i].name != ws[j].name && ws[i].path != ws[j].path
  }

  ghost predicate ValidTables(t: Tables)
  {
    && RowIds(WorkspaceIds(t.workspaces))
    && RowIds(FileIds(t.files))
    && RowIds(NoteIds(t.notes))
    && UniqueNamesAndPaths(t.workspaces)
  }

  /** Appending a row with the next rowid keeps the ids growing. */
  lemma AppendNextId(ids: seq<int>)
    requires RowIds(ids)
    ensures RowIds(ids + [NextRowId(ids)])
  {
  }

  /** Filtering keeps the rows it selects in their relative order. */
  lemma {:induction false} WhereInOrder<T(!new)>(rows: seq<T>, p: T -> bool, i: int, j: int)
    requires 0 <= i < j < |Where(rows, p)|
    ensures exists a, b :: 0 <= a < b < |rows| && rows[a] == Where(rows, p)[i] && rows[b] == Where(rows, p)[j]
  {
    var init := rows[..|rows| - 1];
    var w := Where(init, p);
    assert rows == init + [rows[|rows| - 1]];
    if j < |w| {
      WhereInOrder(init, p, i, j);
      var a, b :| 0 <= a < b < |init| && init[a] == w[i] && init[b] == w[j];
      assert rows[a] == init[a] && rows[b] == init[b];
    } else {
      assert w[i] in w;
      var a :| 0 <= a < |init| && init[a] == w[i];
      assert rows[a] == init[a];
    }
  }

  // ---------------------------------------------------------------------
  // Lookups
  // ---------------------------------------------------------------------

  function WorkspaceByName(ws: seq<Workspace>, name: string): Option<Workspace>
  {
    First(ws, (w: Workspace) => w.name == name)
  }

  function FileByPath(fs: seq<FileRow>, relativePath: string): Option<FileRow>
  {
    First(fs, (f: FileRow) => f.relativePath == relativePath)
  }

  function FileById(fs: seq<FileRow>, id: int): Option<FileRow>
  {
    First(fs, (f: FileRow) => f.id == id)
  }

  function NoteById(ns: seq<Note>, id: int): Option<Note>
  {
    First(ns, (n: Note) => n.id == id)
  }

  /** `file_id = ? AND ? BETWEEN start_line AND end_line`. */
  predicate Covers(n: Note, fileId: int, line: int)
  {
    n.fileId == fileId && n.startLine <= line <= n.endLine
  }

  function NoteAtLine(ns: seq<Note>, fileId: int, line: int): Option<Note>
  {
    First(ns, (n: Note) => Covers(n, fileId, line))
  }

  function NotesOfFile(ns: seq<Note>, fileId: int): seq<Note>
  {
    Where(ns, (n: Note) => n.fileId == fileId)
  }

  function FilesOfWorkspace(fs: seq<FileRow>, workspaceId: int): seq<FileRow>
  {
    Where(fs, (f: FileRow) => f.workspaceId == workspaceId)
  }

  /** The id of a row that was found, as `res.id` reads it (`undefined` when nothing was found). */
  function FileIdOf(f: Option<FileRow>): Option<int>
  {
    if f.Some? then Some(f.value.id) else None
  }

  function WorkspaceIdOf(w: Option<Workspace>): Option<int>
  {
    if w.Some? then Some(w.value.id) else None
  }

  /** In a table with growing ids, the row found by id is the one at that id's position. */
  lemma {:induction false} NoteByIdAt(ns: seq<Note>, k: nat)
    requires RowIds(NoteIds(ns))
    requires k < |ns|
    ensures NoteById(ns, ns[k].id) == Some(ns[k])
  {
    var p := (n: Note) => n.id == ns[k].id;
    var r := First(ns, p);
    assert p(ns[k]);
    var i :| 0 <= i < |ns| && ns[i] == r.value && p(ns[i]) && forall j :: 0 <= j < i ==> !p(ns[j]);
    assert NoteIds(ns)[i] == ns[i].id && NoteIds(ns)[k] == ns[k].id;
  }

  // ---------------------------------------------------------------------
  // Writes, one function per SQL statement
  // ---------------------------------------------------------------------

  /** `INSERT INTO workspaces` would break a UNIQUE constraint. */
  predicate WorkspaceConflict(ws: seq<Workspace>, name: string, path: string)
  {
    exists i :: 0 <= i < |ws| && (ws[i].name == name || ws[i].path == path)
  }

  /** `INSERT INTO workspaces (name, path)`: one row is appended, with a rowid above every stored one. */
  function AddWorkspace(t: Tables, name: string, path: string): (r: Tables)
    ensures r.files == t.files && r.notes == t.notes
    ensures |r.workspaces| == |t.workspaces| + 1 && r.workspaces[..|t.workspaces|] == t.workspaces
    ensures var w := r.workspaces[|t.workspaces|];
            w.name == name && w.path == path && forall i :: 0 <= i < |t.workspaces| ==> t.workspaces[i].id < w.id
  {
    assert forall i :: 0 <= i < |t.workspaces| ==> WorkspaceIds(t.workspaces)[i] == t.workspaces[i].id;
    t.(workspaces := t.workspaces + [Workspace(NextRowId(WorkspaceIds(t.workspaces)), name, path)])
  }

  /** `INSERT INTO files (relative_path, workspace_id)`: one row is appended, with a rowid above every stored one. */
  function AddFile(t: Tables, relativePath: string, workspaceId: int): (r: Tables)
    ensures r.workspaces == t.workspaces && r.notes == t.notes
    ensures |r.files| == |t.files| + 1 && r.files[..|t.files|] == t.files
    ensures var f := r.files[|t.files|];
            f.relativePath == relativePath && f.workspaceId == workspaceId &&
            forall i :: 0 <= i < |t.files| ==> t.files[i].id < f.id
  {
    assert forall i :: 0 <= i < |t.files| ==> FileIds(t.files)[i] == t.files[i].id;
    t.(files := t.files + [FileRow(NextRowId(FileIds(t.files)), relativePath, workspaceId)])
  }

  /**
   * The row `INSERT INTO notes (title, note_text, code_text, start_line,
   * end_line, language_id, file_id)` creates: `category` stays NULL and
   * `createdDate` takes the column default, the store's clock `now`.
   */
  function StoredNote(note: Note, id: int, now: string): Note
  {
    note.(id := id, category := None, createdDate := now)
  }

  /**
   * `INSERT INTO notes`: one row is appended; apart from its fresh rowid,
   * its NULL category and its default date it is the note given.
   */
  function AddNote(t: Tables, note: Note, now: string): (r: Tables)
    ensures r.workspaces == t.workspaces && r.files == t.files
    ensures |r.notes| == |t.notes| + 1 && r.notes[..|t.notes|] == t.notes
    ensures var n := r.notes[|t.notes|];
            && n.(id := note.id, category := note.category, createdDate := note.createdDate) == note
            && n.category.None? && n.createdDate == now
            && forall i :: 0 <= i < |t.notes| ==> t.notes[i].id < n.id
  {
    assert forall i :: 0 <= i < |t.notes| ==> NoteIds(t.notes)[i] == t.notes[i].id;
    t.(notes := t.notes + [StoredNote(note, NextRowId(NoteIds(t.notes)), now)])
  }

  /** The six columns `UPDATE notes SET ...` writes from `note`. */
  function Overwrite(row: Note, note: Note): Note
  {
    row.(title := note.title, noteText := note.noteText, codeText := note.codeText,
         startLine := note.startLine, endLine := note.endLine, fileId := note.fileId)
  }

  /**
   * `UPDATE notes SET ... WHERE id = ?`: every row keeps its place, its id,
   * language, category and date; only the rows with the note's id change.
   */
  function UpdateNoteRows(ns: seq<Note>, note: Note): (r: seq<Note>)
    ensures |r| == |ns|
    ensures forall i :: 0 <= i < |ns| ==>
              r[i].id == ns[i].id && r[i].languageId == ns[i].languageId &&
              r[i].category == ns[i].category && r[i].createdDate == ns[i].createdDate
    ensures forall i :: 0 <= i < |ns| && ns[i].id != note.id ==> r[i] == ns[i]
  {
    seq(|ns|, i requires 0 <= i < |ns| => if ns[i].id == note.id then Overwrite(ns[i], note) else ns[i])
  }

  /** `UPDATE notes SET category = ? WHERE id = ?`: only the category of the rows with that id changes. */
  function SetCategory(ns: seq<Note>, id: int, category: string): (r: seq<Note>)
    ensures |r| == |ns|
    ensures forall i :: 0 <= i < |ns| ==> r[i].(category := ns[i].category) == ns[i]
    ensures forall i :: 0 <= i < |ns| ==> r[i].category == if ns[i].id == id then Some(category) else ns[i].category
  {
    seq(|ns|, i requires 0 <= i < |ns| => if ns[i].id == id then ns[i].(category := Some(category)) else ns[i])
  }

  /** `DELETE FROM notes WHERE id = ?`: exactly the rows with another id remain. */
  function RemoveNote(ns: seq<Note>, id: int): (r: seq<Note>)
    ensures |r| <= |ns|
    ensures forall n :: n in r <==> n in ns && n.id != id
  {
    Where(ns, (n: Note) => n.id != id)
  }

  /** `DELETE FROM files WHERE id = ?` with the id bound: exactly the rows with another id remain. */
  function RemoveFile(fs: seq<FileRow>, id: int): (r: seq<FileRow>)
    ensures |r| <= |fs|
    ensures forall f :: f in r <==> f in fs && f.id != id
  {
    Where(fs, (f: FileRow) => f.id != id)
  }

  /**
   * `getFileIdByPath`: look the path up (in every workspace); when there is
   * no such row and the caller allows it, insert `(relativePath, workspaceId)`
   * and look up once more, this time without permission to insert.
   */
  function ResolveFile(t: Tables, relativePath: string, workspaceId: int, insertIfNotExists: bool): (r: (Tables, Option<int>))
    ensures r.0 == t || (insertIfNotExists && r.0 == AddFile(t, relativePath, workspaceId))
    ensures r.0.workspaces == t.workspaces && r.0.notes == t.notes
  {
    var found := FileIdOf(FileByPath(t.files, relativePath));
    if !Truthy(found) && insertIfNotExists then
      var t' := AddFile(t, relativePath, workspaceId);
      (t', FileIdOf(FileByPath(t'.files, relativePath)))
    else
      (t, found)
  }

  // ---------------------------------------------------------------------
  // What the writes and lookups promise
  // ---------------------------------------------------------------------

  lemma AddWorkspaceValid(t: Tables, name: string, path: string)
    requires ValidTables(t) && !WorkspaceConflict(t.workspaces, name, path)
    ensures ValidTables(AddWorkspace(t, name, path))
  {
    var ws := t.workspaces;
    var w := Workspace(NextRowId(WorkspaceIds(ws)), name, path);
    AppendNextId(WorkspaceIds(ws));
    assert WorkspaceIds(ws + [w]) == WorkspaceIds(ws) + [w.id];
    forall i | 0 <= i < |ws| ensures ws[i].name != name && ws[i].path != path {
    }
  }

  lemma AddFileValid(t: Tables, relativePath: string, workspaceId: int)
    requires ValidTables(t)
    ensures ValidTables(AddFile(t, relativePath, workspaceId))
  {
    var f := FileRow(NextRowId(FileIds(t.files)), relativePath, workspaceId);
    AppendNextId(FileIds(t.files));
    assert FileIds(t.files + [f]) == FileIds(t.files) + [f.id];
  }

  lemma AddNoteValid(t: Tables, note: Note, now: string)
    requires ValidTables(t)
    ensures ValidTables(AddNote(t, note, now))
  {
    var n := StoredNote(note, NextRowId(NoteIds(t.notes)), now);
    AppendNextId(NoteIds(t.notes));
    assert NoteIds(t.notes + [n]) == NoteIds(t.notes) + [n.id];
  }

  lemma RemoveNoteValid(t: Tables, id: int)
    requires ValidTables(t)
    ensures ValidTables(t.(notes := RemoveNote(t.notes, id)))
  {
    var ns := t.notes;
    var r := RemoveNote(ns, id);
    forall i | 0 <= i < |r| ensures NoteIds(r)[i] >= 1 {
      assert r[i] in r;
      var a :| 0 <= a < |ns| && ns[a] == r[i];
      assert NoteIds(ns)[a] == ns[a].id;
    }
    forall i, j | 0 <= i < j < |r| ensures NoteIds(r)[i] < NoteIds(r)[j] {
      WhereInOrder(ns, (n: Note) => n.id != id, i, j);
      var a, b :| 0 <= a < b < |ns| && ns[a] == r[i] && ns[b] == r[j];
      assert NoteIds(ns)[a] < NoteIds(ns)[b];
    }
  }

  lemma RemoveFileValid(t: Tables, id: int)
    requires ValidTables(t)
    ensures ValidTables(t.(files := RemoveFile(t.files, id)))
  {
    var fs := t.files;
    var r := RemoveFile(fs, id);
    forall i | 0 <= i < |r| ensures FileIds(r)[i] >= 1 {
      assert r[i] in r;
      var a :| 0 <= a < |fs| && fs[a] == r[i];
      assert FileIds(fs)[a] == fs[a].id;
    }
    forall i, j | 0 <= i < j < |r| ensures FileIds(r)[i] < FileIds(r)[j] {
      WhereInOrder(fs, (f: FileRow) => f.id != id, i, j);
      var a, b :| 0 <= a < b < |fs| && fs[a] == r[i] && fs[b] == r[j];
      assert FileIds(fs)[a] < FileIds(fs)[b];
    }
  }

  lemma UpdatesValid(t: Tables, note: Note, id: int, category: string)
    requires ValidTables(t)
    ensures ValidTables(t.(notes := UpdateNoteRows(t.notes, note)))
    ensures ValidTables(t.(notes := SetCategory(t.notes, id, category)))
  {
    assert NoteIds(UpdateNoteRows(t.notes, note)) == NoteIds(t.notes);
    assert NoteIds(SetCategory(t.notes, id, category)) == NoteIds(t.notes);
  }

  /**
   * Inserting a note and reading it back by the returned id gives the note
   * with that id, a NULL category and the store's timestamp; the id is new.
   */
  lemma InsertNoteRoundTrip(t: Tables, note: Note, now: string)
    requires ValidTables(t)
    ensures var id := NextRowId(NoteIds(t.notes));
            && id !in NoteIds(t.notes)
            && NoteById(AddNote(t, note, now).notes, id) == Some(StoredNote(note, id, now))
            && NoteById(AddNote(t, note, now).notes, id).value.(id := note.id, category := note.category,
                 createdDate := note.createdDate) == note
  {
    var id := NextRowId(NoteIds(t.notes));
    var ns := AddNote(t, note, now).notes;
    AddNoteValid(t, note, now);
    NoteByIdAt(ns, |ns| - 1);
  }

  /** `updateNote` rewrites the six columns of the row with `note.id` and leaves every other row alone. */
  lemma UpdateNoteEffect(ns: seq<Note>, note: Note, k: int)
    requires RowIds(NoteIds(ns))
    ensures NoteById(UpdateNoteRows(ns, note), note.id) ==
            (if NoteById(ns, note.id).Some? then Some(Overwrite(NoteById(ns, note.id).value, note)) else None)
    ensures k != note.id ==> NoteById(UpdateNoteRows(ns, note), k) == NoteById(ns, k)
    ensures NoteById(ns, note.id).Some? ==>
              var before := NoteById(ns, note.id).value;
              var after := NoteById(UpdateNoteRows(ns, note), note.id).value;
              after.languageId == before.languageId && after.category == before.category &&
              after.createdDate == before.createdDate && after.id == before.id
  {
    var r := UpdateNoteRows(ns, note);
    assert NoteIds(r) == NoteIds(ns);
    SameIdsSameLookup(ns, r, note.id);
    SameIdsSameLookup(ns, r, k);
  }

  /** `updateNoteCategory` changes the category of the row with `id` and nothing else. */
  lemma SetCategoryEffect(ns: seq<Note>, id: int, category: string, k: int)
    requires RowIds(NoteIds(ns))
    ensures NoteById(SetCategory(ns, id, category), id) ==
            (if NoteById(ns, id).Some? then Some(NoteById(ns, id).value.(category := Some(category))) else None)
    ensures k != id ==> NoteById(SetCategory(ns, id, category), k) == NoteById(ns, k)
    ensures NotesOfFile(SetCategory(ns, id, category), k) ==
            SetCategory(NotesOfFile(ns, k), id, category)
  {
    var r := SetCategory(ns, id, category);
    assert NoteIds(r) == NoteIds(ns);
    SameIdsSameLookup(ns, r, id);
    SameIdsSameLookup(ns, r, k);
    SetCategoryListing(ns, id, category, k);
  }

  lemma {:induction false} SetCategoryListing(ns: seq<Note>, id: int, category: string, fileId: int)
    ensures NotesOfFile(SetCategory(ns, id, category), fileId) == SetCategory(NotesOfFile(ns, fileId), id, category)
  {
    if ns != [] {
      var init := ns[..|ns| - 1];
      var r := SetCategory(ns, id, category);
      assert r[..|r| - 1] == SetCategory(init, id, category);
      SetCategoryListing(init, id, category, fileId);
      var last := ns[|ns| - 1];
      var w := NotesOfFile(init, fileId);
      if last.fileId == fileId {
        assert SetCategory(w + [last], id, category) == SetCategory(w, id, category) + SetCategory([last], id, category);
      } else {
        assert r[|r| - 1].fileId != fileId;
      }
    }
  }

  /** Two tables that agree on ids and differ only row by row are searched by id identically. */
  lemma {:induction false} SameIdsSameLookup(a: seq<Note>, b: seq<Note>, k: int)
    requires |a| == |b| && forall i :: 0 <= i < |a| ==> a[i].id == b[i].id
    ensures NoteById(a, k).Some? <==> NoteById(b, k).Some?
    ensures NoteById(a, k).Some? ==> exists i :: 0 <= i < |a| && NoteById(a, k) == Some(a[i]) && NoteById(b, k) == Some(b[i])
  {
    if a != [] {
      if a[0].id != k {
        SameIdsSameLookup(a[1..], b[1..], k);
        if NoteById(a, k).Some? {
          var i :| 0 <= i < |a[1..]| && NoteById(a[1..], k) == Some(a[1..][i]) && NoteById(b[1..], k) == Some(b[1..][i]);
          assert NoteById(a, k) == Some(a[i + 1]);
        }
      } else {
        assert NoteById(a, k) == Some(a[0]);
      }
    }
  }

  /**
   * `deleteNote` removes exactly the note with `id`: it is gone from every
   * lookup and listing, and the other notes of its file stay, in order.
   */
  lemma RemoveNoteEffect(ns: seq<Note>, id: int, k: int, fileId: int)
    ensures NoteById(RemoveNote(ns, id), id).None?
    ensures k != id ==> NoteById(RemoveNote(ns, id), k) == NoteById(ns, k)
    ensures NotesOfFile(RemoveNote(ns, id), fileId) == RemoveNote(NotesOfFile(ns, fileId), id)
    ensures |RemoveNote(ns, id)| == |ns| - (if id in NoteIds(ns) then 1 else 0) || !RowIds(NoteIds(ns))
  {
    RemoveLookup(ns, id, k);
    RemoveListing(ns, id, fileId);
    if RowIds(NoteIds(ns)) {
      RemoveCount(ns, id);
    }
  }

  lemma {:induction false} RemoveLookup(ns: seq<Note>, id: int, k: int)
    ensures NoteById(RemoveNote(ns, id), id).None?
    ensures k != id ==> NoteById(RemoveNote(ns, id), k) == NoteById(ns, k)
  {
    if ns != [] {
      var init := ns[..|ns| - 1];
      var last := ns[|ns| - 1];
      RemoveLookup(init, id, k);
      assert ns == init + [last];
      FirstAppend(init, [last], (n: Note) => n.id == k);
      var tail := if last.id != id then [last] else [];
      assert RemoveNote(ns, id) == RemoveNote(init, id) + tail;
      FirstAppend(RemoveNote(init, id), tail, (n: Note) => n.id == k);
      FirstAppend(RemoveNote(init, id), tail, (n: Note) => n.id == id);
    }
  }

  lemma {:induction false} RemoveListing(ns: seq<Note>, id: int, fileId: int)
    ensures NotesOfFile(RemoveNote(ns, id), fileId) == RemoveNote(NotesOfFile(ns, fileId), id)
  {
    if ns != [] {
      var init := ns[..|ns| - 1];
      var last := ns[|ns| - 1];
      RemoveListing(init, id, fileId);
      var tail := if last.id != id then [last] else [];
      assert RemoveNote(ns, id) == RemoveNote(init, id) + tail;
      WhereAppend(RemoveNote(init, id), tail, (n: Note) => n.fileId == fileId);
      var w := NotesOfFile(init, fileId);
      var wtail := if last.fileId == fileId then [last] else [];
      assert NotesOfFile(ns, fileId) == w + wtail;
      WhereAppend(w, wtail, (n: Note) => n.id != id);
    }
  }

  lemma {:induction false} RemoveCount(ns: seq<Note>, id: int)
    requires RowIds(NoteIds(ns))
    ensures |RemoveNote(ns, id)| == |ns| - (if id in NoteIds(ns) then 1 else 0)
  {
    if ns != [] {
      var init := ns[..|ns| - 1];
      var last := ns[|ns| - 1];
      assert ns == init + [last];
      assert NoteIds(init) == NoteIds(ns)[..|init|];
      assert NoteIds(ns) == NoteIds(init) + [last.id];
      LastIdFresh(NoteIds(ns));
      RemoveCount(init, id);
      assert RemoveNote(ns, id) == RemoveNote(init, id) + (if last.id != id then [last] else []);
    }
  }

  /** In growing ids, the prefix grows too, and the last id occurs nowhere earlier. */
  lemma LastIdFresh(ids: seq<int>)
    requires RowIds(ids) && |ids| > 0
    ensures RowIds(ids[..|ids| - 1])
    ensures ids[|ids| - 1] !in ids[..|ids| - 1]
  {
    var init := ids[..|ids| - 1];
    forall k | 0 <= k < |init| ensures init[k] < ids[|ids| - 1] {
      assert init[k] == ids[k];
    }
  }

  /** `getFileIdByPath` with permission to insert: afterwards the path has a row, named by the id returned. */
  lemma ResolveFileCreates(t: Tables, relativePath: string, workspaceId: int)
    requires ValidTables(t)
    ensures var (t', id) := ResolveFile(t, relativePath, workspaceId, true);
            && ValidTables(t')
            && id.Some? && id.value >= 1
            && FileByPath(t'.files, relativePath).Some?
            && FileByPath(t'.files, relativePath).value.id == id.value
            && t'.workspaces == t.workspaces && t'.notes == t.notes
            && (t'.files == t.files ||
                (FileByPath(t.files, relativePath).None? &&
                 t'.files == t.files + [FileRow(id.value, relativePath, workspaceId)]))
  {
    var found := FileByPath(t.files, relativePath);
    if found.Some? {
      var i :| 0 <= i < |t.files| && t.files[i] == found.value;
      assert FileIds(t.files)[i] == found.value.id;
    } else {
      var t' := AddFile(t, relativePath, workspaceId);
      var f := FileRow(NextRowId(FileIds(t.files)), relativePath, workspaceId);
      AddFileValid(t, relativePath, workspaceId);
      FirstAppend(t.files, [f], (r: FileRow) => r.relativePath == relativePath);
    }
  }

  /** Without permission to insert nothing is added, and a missing path yields no id. */
  lemma ResolveFileLookupOnly(t: Tables, relativePath: string, workspaceId: int)
    requires ValidTables(t)
    ensures var (t', id) := ResolveFile(t, relativePath, workspaceId, false);
            && t' == t
            && (id.Some? <==> exists i :: 0 <= i < |t.files| && t.files[i].relativePath == relativePath)
  {
  }

  /**
   * `getFileIdByPath` is an idempotent find-or-create: a second call, from any
   * workspace and with or without permission to insert, returns the same id
   * and adds no row.
   */
  lemma ResolveFileTwice(t: Tables, relativePath: string, workspaceId: int, otherWorkspace: int, insertAgain: bool)
    requires ValidTables(t)
    ensures var (t1, id1) := ResolveFile(t, relativePath, workspaceId, true);
            ResolveFile(t1, relativePath, otherWorkspace, insertAgain) == (t1, id1)
  {
    ResolveFileCreates(t, relativePath, workspaceId);
  }

  /** The hover lookup finds a note exactly when one of the file's notes spans the line. */
  lemma NoteAtLineSpec(ns: seq<Note>, fileId: int, line: int)
    ensures NoteAtLine(ns, fileId, line).Some? <==>
            exists i :: 0 <= i < |ns| && ns[i].fileId == fileId && ns[i].startLine <= line <= ns[i].endLine
    ensures NoteAtLine(ns, fileId, line).Some? ==>
            NoteAtLine(ns, fileId, line).value in NotesOfFile(ns, fileId)
  {
    if NoteAtLine(ns, fileId, line).Some? {
      var i :| 0 <= i < |ns| && ns[i] == NoteAtLine(ns, fileId, line).value && Covers(ns[i], fileId, line);
    }
  }

  /** What `res.note_text.toString()` does with the row `getAsObject` returns. */
  datatype TextLookup = Threw | Text(text: string)

  /**
   * `getNoteTextFromLine` as written: with no note spanning the line, `res`
   * is `{}`, `res.note_text` is `undefined` and `.toString()` throws a
   * TypeError out of the hover provider.
   */
  function NoteTextFromLineAsWritten(ns: seq<Note>, line: int, fileId: int): (r: TextLookup)
    ensures r.Threw? <==> forall i :: 0 <= i < |ns| ==> !Covers(ns[i], fileId, line)
  {
    var n := NoteAtLine(ns, fileId, line);
    if n.Some? then Text(n.value.noteText) else Threw
  }

  /** Hovering over a line that no note spans throws, e.g. any line of a file without notes. */
  lemma HoverOffNoteThrows(n: Note)
    requires n.startLine == 1 && n.endLine == 2
    ensures NoteTextFromLineAsWritten([n], 5, n.fileId) == Threw
    ensures NoteTextFromLineAsWritten([], 0, n.fileId) == Threw
  {
  }

  // ---------------------------------------------------------------------
  // Parameter binding, and `deleteFile` as written
  // ---------------------------------------------------------------------

  /** What `Statement.run` is handed: an array of values, or one bare value. */
  datatype RunArgs = Positional(values: seq<int>) | Bare(value: int)

  /**
   * The value bound to the first `?`. An array binds position by position;
   * sql.js binds only arrays and objects, so from a bare value it binds
   * nothing and the parameter stays NULL (`None`).
   */
  function BoundParam(args: RunArgs): (p: Option<int>)
    ensures p.Some? <==> args.Positional? && |args.values| > 0
    ensures p.Some? ==> p.value == args.values[0]
  {
    if args.Positional? && |args.values| > 0 then Some(args.values[0]) else None
  }

  /** `DELETE FROM files WHERE id = ?`; `id = NULL` is never true, so with NULL no row matches. */
  function DeleteFileRows(fs: seq<FileRow>, param: Option<int>): seq<FileRow>
  {
    if param.Some? then RemoveFile(fs, param.value) else fs
  }

  /** `deleteFile` as written: `stmt.run(id)` hands over the bare number. */
  function DeleteFileAsWritten(t: Tables, id: int): (r: Tables)
    ensures r.files == t.files
  {
    t.(files := DeleteFileRows(t.files, BoundParam(Bare(id))))
  }

  /**
   * As written, deleting a stored file leaves its row in place; bound as
   * an array, like every other statement of the store, the row is gone.
   */
  lemma DeleteFileKeepsRow(t: Tables, id: int)
    requires FileById(t.files, id).Some?
    ensures FileById(DeleteFileAsWritten(t, id).files, id) == FileById(t.files, id)
    ensures FileById(DeleteFileRows(t.files, BoundParam(Positional([id]))), id).None?
  {
    var r := RemoveFile(t.files, id);
    assert DeleteFileRows(t.files, BoundParam(Positional([id]))) == r;
    assert forall i :: 0 <= i < |r| ==> r[i] in r;
  }

  // ---------------------------------------------------------------------
  // The service object
  // ---------------------------------------------------------------------

  class DatabaseService {
    var workspaces: seq<Workspace>
    var files: seq<FileRow>
    var notes: seq<Note>
    /** The image of the store that `saveDatabase` last wrote to disk. */
    var saved: Tables

    function Live(): Tables
      reads this
    {
      Tables(workspaces, files, notes)
    }

    ghost predicate Valid()
      reads this
    {
      ValidTables(Live())
    }

    /** The store as `loadDatabase` finds it on disk (or empty when there is no file yet). */
    constructor Open(disk: Tables)
      requires ValidTables(disk)
      ensures Valid() && Live() == disk && saved == disk
    {
      workspaces, files, notes := disk.workspaces, disk.files, disk.notes;
      saved := disk;
    }

    /** `saveDatabase`: the live tables become the persisted image. */
    method SaveDatabase()
      modifies this`saved
      ensures saved == Live()
    {
      saved := Live();
    }

    /** `insertWorkspace`; `ok` is false when sql.js throws for a UNIQUE violation, and then nothing is written. */
    method InsertWorkspace(name: string, path: string) returns (ok: bool)
      requires Valid()
      modifies this
      ensures Valid()
      ensures ok == !WorkspaceConflict(old(workspaces), name, path)
      ensures Live() == if ok then AddWorkspace(old(Live()), name, path) else old(Live())
      ensures saved == if ok then Live() else old(saved)
    {
      ok := !WorkspaceConflict(workspaces, name, path);
      if ok {
        AddWorkspaceValid(Live(), name, path);
        workspaces := workspaces + [Workspace(NextRowId(WorkspaceIds(workspaces)), name, path)];
        SaveDatabase();
      }
    }

    /** `getWorkspaceIdByName`: the id of the row with that name, if any. */
    function GetWorkspaceIdByName(name: string): (id: Option<int>)
      reads this
      ensures id.Some? <==> exists i :: 0 <= i < |workspaces| && workspaces[i].name == name
      ensures id.Some? ==> exists i :: 0 <= i < |workspaces| && workspaces[i].name == name && workspaces[i].id == id.value
    {
      WorkspaceIdOf(WorkspaceByName(workspaces, name))
    }

    /** `getWorkspacePathByName`: the stored path of the row with that name, if any. */
    function GetWorkspacePathByName(name: string): (path: Option<string>)
      reads this
      ensures path.Some? <==> exists i :: 0 <= i < |workspaces| && workspaces[i].name == name
      ensures path.Some? ==> exists i :: 0 <= i < |workspaces| && workspaces[i].name == name && workspaces[i].path == path.value
    {
      var w := WorkspaceByName(workspaces, name);
      if w.Some? then Some(w.value.path) else None
    }

    method InsertFile(relativePath: string, workspaceId: int)
      requires Valid()
      modifies this
      ensures Valid()
      ensures Live() == AddFile(old(Live()), relativePath, workspaceId)
      ensures saved == Live()
    {
      AddFileValid(Live(), relativePath, workspaceId);
      files := files + [FileRow(NextRowId(FileIds(files)), relativePath, workspaceId)];
      SaveDatabase();
    }

    /** `getFileIdByPath`, including its one bounded retry. */
    method GetFileIdByPath(relativePath: string, workspaceId: int, insertIfNotExists: bool) returns (id: Option<int>)
      requires Valid()
      modifies this
      decreases insertIfNotExists
      ensures Valid()
      ensures (Live(), id) == ResolveFile(old(Live()), relativePath, workspaceId, insertIfNotExists)
      ensures saved == if Live() == old(Live()) then old(saved) else Live()
    {
      var res := FileIdOf(FileByPath(files, relativePath));
      if !Truthy(res) && insertIfNotExists {
        InsertFile(relativePath, workspaceId);
        id := GetFileIdByPath(relativePath, workspaceId, false);
        return;
      }
      id := res;
    }

    /** `getPathByFileId`. */
    function GetPathByFileId(fileId: int): (path: Option<string>)
      reads this
      ensures path.Some? <==> exists i :: 0 <= i < |files| && files[i].id == fileId
      ensures path.Some? ==> exists i :: 0 <= i < |files| && files[i].id == fileId && files[i].relativePath == path.value
    {
      var f := FileById(files, fileId);
      if f.Some? then Some(f.value.relativePath) else None
    }

    /**
     * `deleteFile`, with the id bound as an array (`stmt.run([id])`): only the
     * file row goes; notes that point at it stay.
     */
    method DeleteFile(id: int)
      requires Valid()
      modifies this
      ensures Valid()
      ensures files == RemoveFile(old(files), id)
      ensures FileById(files, id).None?
      ensures workspaces == old(workspaces) && notes == old(notes)
      ensures saved == Live()
    {
      RemoveFileValid(Live(), id);
      files := DeleteFileRows(files, BoundParam(Positional([id])));
      assert forall i :: 0 <= i < |files| ==> files[i] in files;
      SaveDatabase();
    }

    /** `insertNote`: returns `last_insert_rowid()`. */
    method InsertNote(note: Note, now: string) returns (rowId: int)
      requires Valid()
      modifies this
      ensures Valid()
      ensures rowId == NextRowId(NoteIds(old(notes)))
      ensures Live() == AddNote(old(Live()), note, now)
      ensures saved == Live()
    {
      AddNoteValid(Live(), note, now);
      rowId := NextRowId(NoteIds(notes));
      notes := notes + [StoredNote(note, rowId, now)];
      SaveDatabase();
    }

    method UpdateNote(note: Note)
      requires Valid()
      modifies this
      ensures Valid()
      ensures notes == UpdateNoteRows(old(notes), note)
      ensures workspaces == old(workspaces) && files == old(files)
      ensures saved == Live()
    {
      UpdatesValid(Live(), note, 0, "");
      notes := UpdateNoteRows(notes, note);
      SaveDatabase();
    }

    method DeleteNote(id: int)
      requires Valid()
      modifies this
      ensures Valid()
      ensures notes == RemoveNote(old(notes), id)
      ensures workspaces == old(workspaces) && files == old(files)
      ensures saved == Live()
    {
      RemoveNoteValid(Live(), id);
      notes := RemoveNote(notes, id);
      SaveDatabase();
    }

    /** `getNoteById`: the raw row, or nothing (`{}`). */
    function GetNoteById(id: int): (n: Option<Note>)
      reads this
      requires Valid()
      ensures n.Some? <==> id in NoteIds(notes)
      ensures n.Some? ==> n.value in notes && n.value.id == id
    {
      var r := NoteById(notes, id);
      assert r.Some? ==> exists i :: 0 <= i < |notes| && notes[i] == r.value && NoteIds(notes)[i] == id;
      assert id in NoteIds(notes) ==> exists i :: 0 <= i < |notes| && notes[i].id == id;
      r
    }

    /**
     * `getNoteTextFromLine`. When no note spans the line, `res` is `{}` and
     * `res.note_text.toString()` throws; that outcome is `None`.
     */
    function GetNoteTextFromLine(line: int, fileId: int): (text: Option<string>)
      reads this
      ensures text.Some? <==> exists i :: 0 <= i < |notes| && Covers(notes[i], fileId, line)
      ensures text.Some? ==> exists i :: 0 <= i < |notes| && Covers(notes[i], fileId, line) &&
                                         notes[i].noteText == text.value &&
                                         forall j :: 0 <= j < i ==> !Covers(notes[j], fileId, line)
    {
      var n := NoteAtLine(notes, fileId, line);
      if n.Some? then Some(n.value.noteText) else None
    }

    /** `getNotesFromFileId`: the `while (stmt.step())` loop over the matching rows. */
    method GetNotesFromFileId(fileId: int) returns (rows: seq<Note>)
      ensures rows == NotesOfFile(notes, fileId)
    {
      rows := [];
      var i := 0;
      while i < |notes|
        invariant 0 <= i <= |notes|
        invariant rows == NotesOfFile(notes[..i], fileId)
      {
        assert notes[..i + 1][..i] == notes[..i];
        if notes[i].fileId == fileId {
          rows := rows + [notes[i]];
        }
        i := i + 1;
      }
      assert notes[..i] == notes;
    }

    /** `getFilesFromWorkspaceId`: the `while (stmt.step())` loop over the matching rows. */
    method GetFilesFromWorkspaceId(workspaceId: int) returns (rows: seq<FileRow>)
      ensures rows == FilesOfWorkspace(files, workspaceId)
    {
      rows := [];
      var i := 0;
      while i < |files|
        invariant 0 <= i <= |files|
        invariant rows == FilesOfWorkspace(files[..i], workspaceId)
      {
        assert files[..i + 1][..i] == files[..i];
        if files[i].workspaceId == workspaceId {
          rows := rows + [files[i]];
        }
        i := i + 1;
      }
      assert files[..i] == files;
    }

    method UpdateNoteCategory(id: int, category: string)
      requires Valid()
      modifies this
      ensures Valid()
      ensures notes == SetCategory(old(notes), id, category)
      ensures workspaces == old(workspaces) && files == old(files)
      ensures saved == Live()
    {
      UpdatesValid(Live(), Note(0, "", "", "", 0, 0, "", None, 0, ""), id, category);
      notes := SetCategory(notes, id, category);
      SaveDatabase();
    }
  }
}
