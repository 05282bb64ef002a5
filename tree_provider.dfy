/**
 * The notes tree of the side panel: the files of the current workspace
 * that have notes, grouped into directories by their relative paths,
 * each file node holding one node per note; afterwards every chain of
 * directories with a lone directory child is merged into one node
 * labelled `outer/inner`.
 *
 * Tree nodes are values here: a `NoteTreeItem` is a label, a kind (the
 * `contextValue` "directory", "file" or "note", with the file or note id
 * its tree id carries) and its children.
 */
module TreeProvider {
  import opened Wrappers
  import opened Types
  import opened Strings
  import opened Icons
  import opened Database

  datatype Kind = Directory | FileNode(fileId: int) | NoteNode(noteId: int)

  datatype Item = Item(name: string, kind: Kind, children: seq<Item>)

  // ---------------------------------------------------------------------
  // Note nodes
  // ---------------------------------------------------------------------

  /** The category emoji, a space and the title cut to 50 characters. */
  function NoteLabel(n: Note): (text: string)
    ensures GetEmoji(n.category) + " " <= text
    ensures |text| <= |GetEmoji(n.category)| + 54
  {
    GetEmoji(n.category) + " " + Truncate(n.title, 50)
  }

  function NoteItem(n: Note): Item
  {
    Item(NoteLabel(n), NoteNode(n.id), [])
  }

  function NoteItems(ns: seq<Note>): (items: seq<Item>)
    ensures |items| == |ns|
  {
    seq(|ns|, i requires 0 <= i < |ns| => NoteItem(ns[i]))
  }

  /** A note label shows the title whole when it is at most 50 characters, otherwise its first 50 and "...". */
  lemma NoteLabelShape(n: Note)
    ensures var prefix := GetEmoji(n.category) + " ";
            && prefix <= NoteLabel(n)
            && (|n.title| <= 50 ==> NoteLabel(n)[|prefix|..] == n.title)
            && (|n.title| > 50 ==> NoteLabel(n)[|prefix|..] == n.title[..50] + "...")
  {
  }

  /** `getFileChildren`: one note node per stored note of the file, in store order. */
  method GetFileChildren(db: DatabaseService, file: FileRow) returns (children: seq<Item>)
    ensures children == NoteItems(NotesOfFile(db.notes, file.id))
  {
    var notes := db.GetNotesFromFileId(file.id);
    children := [];
    for i := 0 to |notes|
      invariant children == NoteItems(notes[..i])
    {
      assert notes[..i + 1] == notes[..i] + [notes[i]];
      children := children + [NoteItem(notes[i])];
    }
    assert notes[..|notes|] == notes;
  }

  // ---------------------------------------------------------------------
  // Building: find-or-create along the directory segments
  // ---------------------------------------------------------------------

  /** `children.find(item => item.label === name)`, as an index; `|ts|` when there is none. */
  function FindLabel(ts: seq<Item>, name: string): (k: nat)
    ensures k <= |ts|
    ensures k < |ts| ==> ts[k].name == name
    ensures forall i :: 0 <= i < k ==> ts[i].name != name
  {
    if ts == [] then 0
    else if ts[0].name == name then 0
    else 1 + FindLabel(ts[1..], name)
  }

  /**
   * Put `leaf` at the end of the children reached by following `dirs`
   * from `ts`: each segment enters the first node with that label,
   * whatever its kind, and a new directory is appended only when there
   * is none.
   */
  function Place(ts: seq<Item>, dirs: seq<string>, leaf: Item): (r: seq<Item>)
    decreases dirs
    ensures |r| == |ts| || |r| == |ts| + 1
    ensures |r| == |ts| + 1 <==> dirs == [] || FindLabel(ts, dirs[0]) == |ts|
    ensures forall i :: 0 <= i < |ts| ==> r[i].name == ts[i].name && r[i].kind == ts[i].kind
    ensures |r| == |ts| + 1 ==> r[|ts|] == if dirs == [] then leaf else Item(dirs[0], Directory, Place([], dirs[1..], leaf))
  {
    if dirs == [] then ts + [leaf]
    else
      var k := FindLabel(ts, dirs[0]);
      if k == |ts| then ts + [Item(dirs[0], Directory, Place([], dirs[1..], leaf))]
      else ts[k := ts[k].(children := Place(ts[k].children, dirs[1..], leaf))]
  }

  /** The directory segments of a relative path: all but the last piece. */
  function Dirs(relativePath: string): seq<string>
  {
    var parts := Split(relativePath, '/');
    parts[..|parts| - 1]
  }

  /** The file node: labelled with the last segment, holding the note nodes. */
  function FileItem(f: FileRow, notes: seq<Note>): Item
  {
    var parts := Split(f.relativePath, '/');
    Item(parts[|parts| - 1], FileNode(f.id), NoteItems(notes))
  }

  /** One round of the outer loop: a file without notes is skipped. */
  function AddToTree(ts: seq<Item>, f: FileRow, notes: seq<Note>): seq<Item>
  {
    if notes == [] then ts else Place(ts, Dirs(f.relativePath), FileItem(f, notes))
  }

  /** The tree `buildHierarchy` returns for `files`, given the notes table `ns`. */
  function Build(files: seq<FileRow>, ns: seq<Note>): (root: seq<Item>)
    decreases |files|
    ensures |root| <= |files|
  {
    if files == [] then []
    else
      var n := |files| - 1;
      AddToTree(Build(files[..n], ns), files[n], NotesOfFile(ns, files[n].id))
  }

  // ---------------------------------------------------------------------
  // The `currentChildren` cursor as a path of child indices
  // ---------------------------------------------------------------------

  predicate ValidPath(ts: seq<Item>, p: seq<nat>)
    decreases p
  {
    p == [] || (p[0] < |ts| && ValidPath(ts[p[0]].children, p[1..]))
  }

  /** The child list the cursor designates. */
  function ChildrenAt(ts: seq<Item>, p: seq<nat>): seq<Item>
    requires ValidPath(ts, p)
    decreases p
  {
    if p == [] then ts else ChildrenAt(ts[p[0]].children, p[1..])
  }

  /** `ts` with the child list at `p` replaced by `cs`. */
  function Plug(ts: seq<Item>, p: seq<nat>, cs: seq<Item>): seq<Item>
    requires ValidPath(ts, p)
    decreases p
  {
    if p == [] then cs
    else ts[p[0] := ts[p[0]].(children := Plug(ts[p[0]].children, p[1..], cs))]
  }

  lemma {:induction false} PlugThenRead(ts: seq<Item>, p: seq<nat>, cs: seq<Item>)
    requires ValidPath(ts, p)
    ensures ValidPath(Plug(ts, p, cs), p)
    ensures ChildrenAt(Plug(ts, p, cs), p) == cs
  {
    if p != [] {
      PlugThenRead(ts[p[0]].children, p[1..], cs);
    }
  }

  lemma {:induction false} PlugTwice(ts: seq<Item>, p: seq<nat>, a: seq<Item>, b: seq<Item>)
    requires ValidPath(ts, p)
    ensures ValidPath(Plug(ts, p, a), p) && Plug(Plug(ts, p, a), p, b) == Plug(ts, p, b)
  {
    PlugThenRead(ts, p, a);
    if p != [] {
      PlugTwice(ts[p[0]].children, p[1..], a, b);
    }
  }

  /** Descending one level: the cursor `p + [k]` designates the children of node `k` at `p`. */
  lemma {:induction false} PlugDeeper(ts: seq<Item>, p: seq<nat>, k: nat, cs: seq<Item>)
    requires ValidPath(ts, p) && k < |ChildrenAt(ts, p)|
    ensures ValidPath(ts, p + [k])
    ensures ChildrenAt(ts, p + [k]) == ChildrenAt(ts, p)[k].children
    ensures Plug(ts, p + [k], cs) == Plug(ts, p, ChildrenAt(ts, p)[k := ChildrenAt(ts, p)[k].(children := cs)])
  {
    if p != [] {
      assert (p + [k])[0] == p[0] && (p + [k])[1..] == p[1..] + [k];
      PlugDeeper(ts[p[0]].children, p[1..], k, cs);
    }
  }

  /**
   * `buildHierarchy`: for each file with notes, walk `currentChildren`
   * down the directory segments (creating missing directories) and push
   * the file node there.
   */
  method BuildHierarchy(db: DatabaseService, files: seq<FileRow>) returns (root: seq<Item>)
    ensures root == Build(files, db.notes)
  {
    root := [];
    for j := 0 to |files|
      invariant root == Build(files[..j], db.notes)
    {
      assert files[..j + 1][..j] == files[..j];
      var file := files[j];
      var notesChildren := GetFileChildren(db, file);
      if |notesChildren| == 0 {
        continue;
      }
      var parts := Split(file.relativePath, '/');
      var fileItem := Item(parts[|parts| - 1], FileNode(file.id), notesChildren);
      ghost var dirs := parts[..|parts| - 1];
      ghost var start := root;
      var p: seq<nat> := [];
      for i := 0 to |parts| - 1
        invariant ValidPath(root, p)
        invariant Place(start, dirs, fileItem) == Plug(root, p, Place(ChildrenAt(root, p), dirs[i..], fileItem))
      {
        var part := parts[i];
        var cs := ChildrenAt(root, p);
        var k := FindLabel(cs, part);
        assert dirs[i..][0] == part && dirs[i..][1..] == dirs[i + 1..];
        if k == |cs| {
          var grown := cs + [Item(part, Directory, [])];
          PlugThenRead(root, p, grown);
          PlugTwice(root, p, grown, cs + [Item(part, Directory, Place([], dirs[i + 1..], fileItem))]);
          root := Plug(root, p, grown);
        }
        ghost var grownCs := ChildrenAt(root, p);
        ghost var rest := Place(grownCs[k].children, dirs[i + 1..], fileItem);
        assert Place(cs, dirs[i..], fileItem) == grownCs[k := grownCs[k].(children := rest)];
        PlugDeeper(root, p, k, rest);
        p := p + [k];
      }
      root := Plug(root, p, ChildrenAt(root, p) + [fileItem]);
    }
    assert files[..|files|] == files;
  }

  // ---------------------------------------------------------------------
  // Compression
  // ---------------------------------------------------------------------

  function Size(t: Item): nat
  {
    1 + SizeAll(t.children)
  }

  function SizeAll(ts: seq<Item>): nat
  {
    if ts == [] then 0 else Size(ts[0]) + SizeAll(ts[1..])
  }

  /** The `while` test of `compressPath`. */
  predicate Collapsible(t: Item)
  {
    t.kind == Directory && |t.children| == 1 && t.children[0].kind == Directory
  }

  /** The node after the `while` loop: a lone directory child is absorbed, again and again. */
  function Collapse(t: Item): (r: Item)
    ensures r.kind == t.kind
    ensures !Collapsible(r)
    ensures Size(r) <= Size(t)
    ensures !Collapsible(t) ==> r == t
  {
    if Collapsible(t) then
      var c := Collapse(t.children[0]);
      assert SizeAll(t.children) == Size(t.children[0]);
      Item(t.name + "/" + c.name, Directory, c.children)
    else t
  }

  /** Collapse the node, then compress what lies below it. */
  function CompressOne(t: Item): (r: Item)
    decreases Size(t), 0
    ensures r.kind == t.kind
    ensures t.kind != Directory ==> r.name == t.name
  {
    var c := Collapse(t);
    Item(c.name, c.kind, CompressAll(c.children))
  }

  /** The list `compressPath` leaves behind. */
  function CompressAll(ts: seq<Item>): (r: seq<Item>)
    decreases SizeAll(ts), 1
    ensures |r| == |ts|
  {
    if ts == [] then [] else [CompressOne(ts[0])] + CompressAll(ts[1..])
  }

  lemma {:induction false} SizeAllBound(ts: seq<Item>, i: int)
    requires 0 <= i < |ts|
    ensures Size(ts[i]) <= SizeAll(ts)
  {
    if i > 0 {
      SizeAllBound(ts[1..], i - 1);
    }
  }

  lemma {:induction false} CompressAllAt(ts: seq<Item>)
    ensures |CompressAll(ts)| == |ts|
    ensures forall i :: 0 <= i < |ts| ==> CompressAll(ts)[i] == CompressOne(ts[i])
  {
    if ts != [] {
      CompressAllAt(ts[1..]);
    }
  }

  /** One pass of the `while` body keeps the eventual collapsed node. */
  lemma CollapseStep(t: Item)
    requires Collapsible(t)
    ensures var c := t.children[0];
            Collapse(Item(t.name + "/" + c.name, Directory, c.children)) == Collapse(t)
    ensures Size(Item(t.name + "/" + t.children[0].name, Directory, t.children[0].children)) < Size(t)
  {
    assert SizeAll(t.children) == Size(t.children[0]);
  }

  /** `compressPath`, in place on each node of the list and recursively on its children. */
  method CompressPath(root: seq<Item>) returns (r: seq<Item>)
    ensures r == CompressAll(root)
    decreases SizeAll(root)
  {
    r := root;
    for i := 0 to |root|
      invariant |r| == |root|
      invariant forall j :: 0 <= j < i ==> r[j] == CompressOne(root[j])
      invariant forall j :: i <= j < |root| ==> r[j] == root[j]
    {
      var node := r[i];
      while node.kind == Directory && |node.children| == 1 && node.children[0].kind == Directory
        invariant Collapse(node) == Collapse(root[i])
        decreases Size(node)
      {
        CollapseStep(node);
        var childNode := node.children[0];
        node := Item(node.name + "/" + childNode.name, node.kind, childNode.children);
      }
      if |node.children| > 0 {
        SizeAllBound(root, i);
        var cs := CompressPath(node.children);
        node := node.(children := cs);
      }
      r := r[i := node];
    }
    CompressAllAt(root);
  }

  // ---------------------------------------------------------------------
  // What compression promises
  // ---------------------------------------------------------------------

  /** No directory anywhere in the list has a lone directory child. */
  predicate Compressed(ts: seq<Item>)
  {
    forall i :: 0 <= i < |ts| ==> !Collapsible(ts[i]) && Compressed(ts[i].children)
  }

  /** After `compressPath` no directory has exactly one child that is a directory. */
  lemma {:induction false} CompressAllCompressed(ts: seq<Item>)
    ensures Compressed(CompressAll(ts))
    decreases SizeAll(ts)
  {
    CompressAllAt(ts);
    var r := CompressAll(ts);
    forall i | 0 <= i < |ts|
      ensures !Collapsible(r[i]) && Compressed(r[i].children)
    {
      var c := Collapse(ts[i]);
      SizeAllBound(ts, i);
      CompressAllAt(c.children);
      if |c.children| == 1 {
        assert r[i].children[0].kind == Collapse(c.children[0]).kind;
      }
      CompressAllCompressed(c.children);
    }
  }

  /** A tree that is already compressed is left exactly as it is. */
  lemma {:induction false} CompressedUnchanged(ts: seq<Item>)
    requires Compressed(ts)
    ensures CompressAll(ts) == ts
    decreases SizeAll(ts)
  {
    CompressAllAt(ts);
    forall i | 0 <= i < |ts|
      ensures CompressAll(ts)[i] == ts[i]
    {
      SizeAllBound(ts, i);
      CompressedUnchanged(ts[i].children);
    }
  }

  /** Compression is idempotent, and its fixed points are exactly the compressed trees. */
  lemma CompressIdempotent(ts: seq<Item>)
    ensures CompressAll(CompressAll(ts)) == CompressAll(ts)
    ensures CompressAll(ts) == ts <==> Compressed(ts)
  {
    CompressAllCompressed(ts);
    CompressedUnchanged(CompressAll(ts));
    if Compressed(ts) {
      CompressedUnchanged(ts);
    }
  }

  /**
   * The top-level list keeps its length and order; every node keeps its
   * kind, and file and note nodes keep their labels.
   */
  lemma CompressKeepsTopLevel(ts: seq<Item>)
    ensures |CompressAll(ts)| == |ts|
    ensures forall i :: 0 <= i < |ts| ==> CompressAll(ts)[i].kind == ts[i].kind
    ensures forall i :: 0 <= i < |ts| && ts[i].kind != Directory ==> CompressAll(ts)[i].name == ts[i].name
  {
    CompressAllAt(ts);
  }

  /**
   * The file and note nodes of a tree in preorder, each with the labels on
   * its way down joined by "/": what a reader of the panel can reach.
   */
  function Entries(ts: seq<Item>, pre: string): seq<(string, Kind)>
  {
    if ts == [] then [] else EntriesOne(ts[0], pre) + Entries(ts[1..], pre)
  }

  function EntriesOne(t: Item, pre: string): seq<(string, Kind)>
  {
    (if t.kind == Directory then [] else [(pre + t.name, t.kind)]) + Entries(t.children, pre + t.name + "/")
  }

  lemma {:induction false} EntriesAppend(a: seq<Item>, b: seq<Item>, pre: string)
    ensures Entries(a + b, pre) == Entries(a, pre) + Entries(b, pre)
  {
    if a == [] {
      assert a + b == b;
    } else {
      assert (a + b)[0] == a[0] && (a + b)[1..] == a[1..] + b;
      EntriesAppend(a[1..], b, pre);
    }
  }

  lemma {:induction false} EntriesCollapse(t: Item, pre: string)
    ensures EntriesOne(Collapse(t), pre) == EntriesOne(t, pre)
  {
    if Collapsible(t) {
      var c := Collapse(t.children[0]);
      EntriesCollapse(t.children[0], pre + t.name + "/");
      assert Entries(t.children, pre + t.name + "/") == EntriesOne(t.children[0], pre + t.name + "/");
      assert pre + (t.name + "/" + c.name) + "/" == pre + t.name + "/" + c.name + "/";
    }
  }

  /**
   * Compression loses, adds and reorders nothing that a reader can reach:
   * every file and note node keeps its full path and its place in preorder.
   */
  lemma {:induction false} CompressKeepsEntries(ts: seq<Item>, pre: string)
    ensures Entries(CompressAll(ts), pre) == Entries(ts, pre)
    decreases SizeAll(ts), 1
  {
    if ts != [] {
      CompressOneKeepsEntries(ts[0], pre);
      CompressKeepsEntries(ts[1..], pre);
    }
  }

  lemma {:induction false} CompressOneKeepsEntries(t: Item, pre: string)
    ensures EntriesOne(CompressOne(t), pre) == EntriesOne(t, pre)
    decreases Size(t), 0
  {
    var c := Collapse(t);
    CompressKeepsEntries(c.children, pre + c.name + "/");
    EntriesCollapse(t, pre);
  }

  // ---------------------------------------------------------------------
  // What building promises
  // ---------------------------------------------------------------------

  /** The path prefix a node reached through `dirs` carries: each segment followed by "/". */
  function Prefix(dirs: seq<string>): string
  {
    if dirs == [] then "" else dirs[0] + "/" + Prefix(dirs[1..])
  }

  lemma {:induction false} PrefixJoin(dirs: seq<string>, last: string)
    ensures Prefix(dirs) + last == Join(dirs + [last], '/')
  {
    if dirs != [] {
      assert (dirs + [last])[1..] == dirs[1..] + [last];
      PrefixJoin(dirs[1..], last);
    }
  }

  /** Descending through the directory segments and then the file label spells the relative path. */
  lemma FilePath(relativePath: string)
    ensures var parts := Split(relativePath, '/');
            Prefix(Dirs(relativePath)) + parts[|parts| - 1] == relativePath
  {
    var parts := Split(relativePath, '/');
    assert parts == parts[..|parts| - 1] + [parts[|parts| - 1]];
    PrefixJoin(parts[..|parts| - 1], parts[|parts| - 1]);
    JoinSplit(relativePath, '/');
  }

  /** The entries one file contributes: the file at its relative path, then its notes beneath it. */
  function FileEntries(f: FileRow, notes: seq<Note>): seq<(string, Kind)>
  {
    [(f.relativePath, FileNode(f.id))] +
    seq(|notes|, i requires 0 <= i < |notes| => (f.relativePath + "/" + NoteLabel(notes[i]), NoteNode(notes[i].id)))
  }

  /** What the panel should show for `files`: one group of entries per file that has notes, in file order. */
  function Expected(files: seq<FileRow>, ns: seq<Note>): seq<(string, Kind)>
    decreases |files|
  {
    if files == [] then []
    else
      var n := |files| - 1;
      var notes := NotesOfFile(ns, files[n].id);
      Expected(files[..n], ns) + (if notes == [] then [] else FileEntries(files[n], notes))
  }

  lemma {:induction false} NoteEntries(notes: seq<Note>, pre: string)
    ensures Entries(NoteItems(notes), pre) ==
            seq(|notes|, i requires 0 <= i < |notes| => (pre + NoteLabel(notes[i]), NoteNode(notes[i].id)))
  {
    if notes != [] {
      NoteEntries(notes[1..], pre);
      var items := NoteItems(notes);
      assert items[1..] == NoteItems(notes[1..]);
      assert EntriesOne(items[0], pre) == [(pre + NoteLabel(notes[0]), NoteNode(notes[0].id))];
    }
  }

  lemma FileItemEntries(f: FileRow, notes: seq<Note>)
    ensures EntriesOne(FileItem(f, notes), Prefix(Dirs(f.relativePath))) == FileEntries(f, notes)
  {
    FilePath(f.relativePath);
    var parts := Split(f.relativePath, '/');
    NoteEntries(notes, Prefix(Dirs(f.relativePath)) + parts[|parts| - 1] + "/");
  }

  /** The entries of a list, split around position `k`. */
  lemma EntriesAround(ts: seq<Item>, k: nat, pre: string)
    requires k < |ts|
    ensures multiset(Entries(ts, pre)) ==
            multiset(Entries(ts[..k], pre)) + multiset(EntriesOne(ts[k], pre)) + multiset(Entries(ts[k + 1..], pre))
  {
    assert ts == ts[..k] + [ts[k]] + ts[k + 1..];
    EntriesAppend(ts[..k] + [ts[k]], ts[k + 1..], pre);
    EntriesAppend(ts[..k], [ts[k]], pre);
  }

  /** Replacing one node changes the entries of the list by what it changes in that node's. */
  lemma ReplaceEntries(ts: seq<Item>, k: nat, x: Item, pre: string, added: multiset<(string, Kind)>)
    requires k < |ts|
    requires multiset(EntriesOne(x, pre)) == multiset(EntriesOne(ts[k], pre)) + added
    ensures multiset(Entries(ts[k := x], pre)) == multiset(Entries(ts, pre)) + added
  {
    var r := ts[k := x];
    EntriesAround(ts, k, pre);
    EntriesAround(r, k, pre);
    assert r[..k] == ts[..k] && r[k + 1..] == ts[k + 1..] && r[k] == x;
  }

  /** Placing a node adds exactly its own entries, at the path spelled by `dirs`. */
  lemma {:induction false} PlaceEntries(ts: seq<Item>, dirs: seq<string>, leaf: Item, pre: string)
    ensures multiset(Entries(Place(ts, dirs, leaf), pre)) ==
            multiset(Entries(ts, pre)) + multiset(EntriesOne(leaf, pre + Prefix(dirs)))
    decreases dirs
  {
    if dirs == [] {
      EntriesAppend(ts, [leaf], pre);
      assert pre + Prefix(dirs) == pre;
    } else {
      var k := FindLabel(ts, dirs[0]);
      var sub := if k == |ts| then [] else ts[k].children;
      PlaceEntries(sub, dirs[1..], leaf, pre + dirs[0] + "/");
      if k == |ts| {
        PlaceEntriesNew(ts, dirs, leaf, pre);
      } else {
        PlaceEntriesExisting(ts, dirs, leaf, pre, k);
      }
    }
  }

  lemma PlacePrefix(dirs: seq<string>, pre: string)
    requires dirs != []
    ensures pre + Prefix(dirs) == pre + dirs[0] + "/" + Prefix(dirs[1..])
  {
  }

  lemma PlaceEntriesNew(ts: seq<Item>, dirs: seq<string>, leaf: Item, pre: string)
    requires dirs != [] && FindLabel(ts, dirs[0]) == |ts|
    requires multiset(Entries(Place([], dirs[1..], leaf), pre + dirs[0] + "/")) ==
             multiset(EntriesOne(leaf, pre + dirs[0] + "/" + Prefix(dirs[1..])))
    ensures multiset(Entries(Place(ts, dirs, leaf), pre)) ==
            multiset(Entries(ts, pre)) + multiset(EntriesOne(leaf, pre + Prefix(dirs)))
  {
    var dir := Item(dirs[0], Directory, Place([], dirs[1..], leaf));
    assert Place(ts, dirs, leaf) == ts + [dir];
    EntriesAppend(ts, [dir], pre);
    assert Entries([dir], pre) == EntriesOne(dir, pre);
    assert EntriesOne(dir, pre) == Entries(Place([], dirs[1..], leaf), pre + dirs[0] + "/");
    PlacePrefix(dirs, pre);
  }

  lemma PlaceEntriesExisting(ts: seq<Item>, dirs: seq<string>, leaf: Item, pre: string, k: nat)
    requires dirs != [] && k == FindLabel(ts, dirs[0]) && k < |ts|
    requires multiset(Entries(Place(ts[k].children, dirs[1..], leaf), pre + dirs[0] + "/")) ==
             multiset(Entries(ts[k].children, pre + dirs[0] + "/")) +
             multiset(EntriesOne(leaf, pre + dirs[0] + "/" + Prefix(dirs[1..])))
    ensures multiset(Entries(Place(ts, dirs, leaf), pre)) ==
            multiset(Entries(ts, pre)) + multiset(EntriesOne(leaf, pre + Prefix(dirs)))
  {
    var x := ts[k].(children := Place(ts[k].children, dirs[1..], leaf));
    assert Place(ts, dirs, leaf) == ts[k := x];
    assert ts[k].name == dirs[0];
    OwnEntries(ts[k], x.children, pre);
    PlacePrefix(dirs, pre);
    ReplaceEntries(ts, k, x, pre, multiset(EntriesOne(leaf, pre + Prefix(dirs))));
  }

  /** A node's entries are its own, if any, followed by those of its children. */
  lemma OwnEntries(t: Item, cs: seq<Item>, pre: string)
    ensures EntriesOne(t.(children := cs), pre) ==
            (if t.kind == Directory then [] else [(pre + t.name, t.kind)]) + Entries(cs, pre + t.name + "/")
    ensures EntriesOne(t, pre) ==
            (if t.kind == Directory then [] else [(pre + t.name, t.kind)]) + Entries(t.children, pre + t.name + "/")
  {
  }

  /**
   * The built tree holds exactly the expected entries: each file with notes
   * once, at its relative path, each of its notes beneath it, and nothing else.
   */
  lemma {:induction false} BuildEntries(files: seq<FileRow>, ns: seq<Note>)
    ensures multiset(Entries(Build(files, ns), "")) == multiset(Expected(files, ns))
    decreases |files|
  {
    if files != [] {
      var n := |files| - 1;
      var f := files[n];
      var notes := NotesOfFile(ns, f.id);
      BuildEntries(files[..n], ns);
      if notes != [] {
        PlaceEntries(Build(files[..n], ns), Dirs(f.relativePath), FileItem(f, notes), "");
        assert "" + Prefix(Dirs(f.relativePath)) == Prefix(Dirs(f.relativePath));
        FileItemEntries(f, notes);
      }
    }
  }

  /** Some listed file with notes has this path and id. */
  predicate Listed(files: seq<FileRow>, ns: seq<Note>, path: string, id: int)
  {
    exists i :: 0 <= i < |files| && files[i].id == id && files[i].relativePath == path && NotesOfFile(ns, id) != []
  }

  /** A file is listed in `files` when it is listed before the last one, or is the last one. */
  lemma ListedLast(files: seq<FileRow>, ns: seq<Note>, path: string, id: int)
    requires files != []
    ensures var n := |files| - 1;
            Listed(files, ns, path, id) <==>
            Listed(files[..n], ns, path, id) ||
            (files[n].id == id && files[n].relativePath == path && NotesOfFile(ns, id) != [])
  {
    var n := |files| - 1;
    if Listed(files, ns, path, id) {
      var i :| 0 <= i < |files| && files[i].id == id && files[i].relativePath == path && NotesOfFile(ns, id) != [];
      if i < n {
        assert files[..n][i] == files[i];
      }
    }
    if Listed(files[..n], ns, path, id) {
      var i :| 0 <= i < n && files[..n][i].id == id && files[..n][i].relativePath == path && NotesOfFile(ns, id) != [];
      assert files[i] == files[..n][i];
    }
  }

  /** Among a file's entries, the only file entry is the file itself. */
  lemma FileEntryOf(f: FileRow, notes: seq<Note>, path: string, id: int)
    ensures (path, FileNode(id)) in FileEntries(f, notes) <==> f.id == id && f.relativePath == path
  {
    var e := FileEntries(f, notes);
    if (path, FileNode(id)) in e {
      var k :| 0 <= k < |e| && e[k] == (path, FileNode(id));
      assert k == 0;
    }
  }

  /** A file shows up exactly when it is one of the listed files and has at least one note. */
  lemma {:induction false} ExpectedFiles(files: seq<FileRow>, ns: seq<Note>, path: string, id: int)
    ensures (path, FileNode(id)) in Expected(files, ns) <==> Listed(files, ns, path, id)
    decreases |files|
  {
    if files != [] {
      var n := |files| - 1;
      ExpectedFiles(files[..n], ns, path, id);
      ListedLast(files, ns, path, id);
      var notes := NotesOfFile(ns, files[n].id);
      if notes != [] {
        FileEntryOf(files[n], notes, path, id);
      }
    }
  }

  /** The panel for `files`: compressed, it shows the same entries as before compression. */
  lemma TreeContents(files: seq<FileRow>, ns: seq<Note>, path: string, id: int)
    ensures multiset(Entries(CompressAll(Build(files, ns)), "")) == multiset(Expected(files, ns))
    ensures (path, FileNode(id)) in Entries(CompressAll(Build(files, ns)), "") <==> Listed(files, ns, path, id)
  {
    CompressKeepsEntries(Build(files, ns), "");
    BuildEntries(files, ns);
    ExpectedFiles(files, ns, path, id);
    assert (path, FileNode(id)) in multiset(Expected(files, ns)) <==> (path, FileNode(id)) in Expected(files, ns);
  }

  /**
   * Sibling directories never repeat a label: a directory's label differs
   * from that of every earlier sibling, at every level.
   */
  predicate NoDuplicateDirs(ts: seq<Item>)
  {
    forall j :: 0 <= j < |ts| ==>
      (ts[j].kind == Directory ==> forall i :: 0 <= i < j ==> ts[i].name != ts[j].name) &&
      NoDuplicateDirs(ts[j].children)
  }

  lemma {:induction false} PlaceNoDuplicateDirs(ts: seq<Item>, dirs: seq<string>, leaf: Item)
    requires NoDuplicateDirs(ts) && NoDuplicateDirs(leaf.children) && leaf.kind != Directory
    ensures NoDuplicateDirs(Place(ts, dirs, leaf))
    decreases dirs
  {
    if dirs != [] {
      var k := FindLabel(ts, dirs[0]);
      if k == |ts| {
        PlaceNoDuplicateDirs([], dirs[1..], leaf);
      } else {
        PlaceNoDuplicateDirs(ts[k].children, dirs[1..], leaf);
      }
    }
  }

  /** One build never creates two directories with the same label side by side. */
  lemma {:induction false} BuildNoDuplicateDirs(files: seq<FileRow>, ns: seq<Note>)
    ensures NoDuplicateDirs(Build(files, ns))
    decreases |files|
  {
    if files != [] {
      var n := |files| - 1;
      BuildNoDuplicateDirs(files[..n], ns);
      var notes := NotesOfFile(ns, files[n].id);
      if notes != [] {
        assert NoDuplicateDirs(FileItem(files[n], notes).children);
        PlaceNoDuplicateDirs(Build(files[..n], ns), Dirs(files[n].relativePath), FileItem(files[n], notes));
      }
    }
  }

  /** `buildRoot`: nothing without a workspace id; otherwise the compressed tree of the workspace's files. */
  method BuildRoot(db: DatabaseService, workspaceId: Option<int>) returns (tree: Option<seq<Item>>)
    ensures tree.None? <==> !Truthy(workspaceId)
    ensures tree.Some? ==> tree.value == CompressAll(Build(FilesOfWorkspace(db.files, workspaceId.value), db.notes))
  {
    if !Truthy(workspaceId) {
      return None;
    }
    var files := db.GetFilesFromWorkspaceId(workspaceId.value);
    var root := BuildHierarchy(db, files);
    var compressed := CompressPath(root);
    tree := Some(compressed);
  }
}
