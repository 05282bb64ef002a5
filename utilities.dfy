/**
 * Renaming the snake_case columns of a store row to the camelCase fields
 * of a note: `key.replace(/_([a-z])/g, g => g[1].toUpperCase())` applied
 * to every own key of the row object, values copied verbatim.
 */
module Utilities {

  predicate IsLower(c: char) { 'a' <= c <= 'z' }

  /** `toUpperCase` on a lower-case ASCII letter. */
  function Upper(c: char): (u: char)
    requires IsLower(c)
    ensures 'A' <= u <= 'Z'
  {
    (c as int - 32) as char
  }

  /** The regular expression `_([a-z])` matches at position `i` of `s`. */
  predicate MatchAt(s: string, i: int)
  {
    0 <= i < |s| - 1 && s[i] == '_' && IsLower(s[i + 1])
  }

  /** `s` contains some `_` followed by a lower-case letter. */
  predicate HasMatch(s: string)
  {
    exists i | 0 <= i < |s| :: MatchAt(s, i)
  }

  /**
   * The global replace: scanning left to right, each match `_x` becomes
   * `X` and scanning resumes after it; every other character is kept.
   */
  function CamelKey(s: string): string
  {
    if |s| >= 2 && s[0] == '_' && IsLower(s[1]) then [Upper(s[1])] + CamelKey(s[2..])
    else if s == [] then []
    else [s[0]] + CamelKey(s[1..])
  }

  /** After the replace no match is left, and the first character is never a fresh lower-case letter. */
  lemma {:induction false} CamelKeyNoMatch(s: string)
    ensures !HasMatch(CamelKey(s))
    ensures |s| > 0 ==> |CamelKey(s)| > 0 && (IsLower(CamelKey(s)[0]) ==> CamelKey(s)[0] == s[0])
  {
    var r := CamelKey(s);
    if |s| >= 2 && s[0] == '_' && IsLower(s[1]) {
      CamelKeyNoMatch(s[2..]);
      var t := CamelKey(s[2..]);
      assert r == [Upper(s[1])] + t;
      forall i | 0 <= i < |r| ensures !MatchAt(r, i) {
        if i > 0 {
          assert r[i..] == t[i - 1..];
          assert !MatchAt(t, i - 1);
        }
      }
    } else if s == [] {
    } else {
      CamelKeyNoMatch(s[1..]);
      var t := CamelKey(s[1..]);
      assert r == [s[0]] + t;
      forall i | 0 <= i < |r| ensures !MatchAt(r, i) {
        // a kept `_` is not followed by a lower-case letter, and neither is t's first character
        if i > 0 {
          assert r[i..] == t[i - 1..];
          assert !MatchAt(t, i - 1);
        }
      }
    }
  }

  /** A key without any `_x` match is left exactly as it is. */
  lemma {:induction false} CamelKeyUnchanged(s: string)
    requires !HasMatch(s)
    ensures CamelKey(s) == s
  {
    if s != [] {
      assert !MatchAt(s, 0);
      forall i | MatchAt(s[1..], i) ensures false {
        assert MatchAt(s, i + 1);
      }
      CamelKeyUnchanged(s[1..]);
      assert [s[0]] + s[1..] == s;
    }
  }

  /** A key is a fixed point of the renaming exactly when it contains no `_x` match. */
  lemma CamelKeyFixedPoint(s: string)
    ensures CamelKey(s) == s <==> !HasMatch(s)
  {
    CamelKeyNoMatch(s);
    if !HasMatch(s) {
      CamelKeyUnchanged(s);
    }
  }

  /** Renaming an already renamed key changes nothing. */
  lemma CamelKeyIdempotent(s: string)
    ensures CamelKey(CamelKey(s)) == CamelKey(s)
  {
    CamelKeyNoMatch(s);
    CamelKeyUnchanged(CamelKey(s));
  }

  /** A value held in a column of a store row. */
  datatype Value = Int(n: int) | Text(s: string) | Null

  /** A row object as the store hands it out: its own keys, in order, with their values. */
  type Row = seq<(string, Value)>

  /** The object `transformed` once the loop has visited every key of `row`; a later key wins. */
  function Renamed(row: Row): map<string, Value>
  {
    if row == [] then map[]
    else Renamed(row[..|row| - 1])[CamelKey(row[|row| - 1].0) := row[|row| - 1].1]
  }

  /** `transformDbNoteToNote`: every own key is renamed and its value copied across. */
  method TransformDbNoteToNote(row: Row) returns (transformed: map<string, Value>)
    ensures transformed == Renamed(row)
  {
    transformed := map[];
    for i := 0 to |row|
      invariant transformed == Renamed(row[..i])
    {
      assert row[..i + 1][..i] == row[..i];
      var (key, value) := row[i];
      transformed := transformed[CamelKey(key) := value];
    }
    assert row[..|row|] == row;
  }

  /** The renamed object has exactly the renamed keys. */
  lemma {:induction false} RenamedKeys(row: Row)
    ensures Renamed(row).Keys == set i | 0 <= i < |row| :: CamelKey(row[i].0)
  {
    if row != [] {
      var init := row[..|row| - 1];
      RenamedKeys(init);
      assert forall i :: 0 <= i < |init| ==> init[i] == row[i];
    }
  }

  /** When no two keys rename to the same key, each value sits under its renamed key. */
  lemma {:induction false} RenamedValues(row: Row, i: nat)
    requires i < |row|
    requires forall j, k :: 0 <= j < k < |row| ==> CamelKey(row[j].0) != CamelKey(row[k].0)
    ensures CamelKey(row[i].0) in Renamed(row) && Renamed(row)[CamelKey(row[i].0)] == row[i].1
  {
    var init := row[..|row| - 1];
    if i < |row| - 1 {
      assert forall j :: 0 <= j < |init| ==> init[j] == row[j];
      RenamedValues(init, i);
    }
  }

  /** Renaming the schema's columns yields the note's fields, one for one. */
  lemma ColumnsBecomeFields()
    ensures CamelKey("id") == "id" && CamelKey("title") == "title"
    ensures CamelKey("note_text") == "noteText" && CamelKey("code_text") == "codeText"
    ensures CamelKey("start_line") == "startLine" && CamelKey("end_line") == "endLine"
    ensures CamelKey("language_id") == "languageId" && CamelKey("category") == "category"
    ensures CamelKey("file_id") == "fileId" && CamelKey("createdDate") == "createdDate"
  {
    PlainColumnsKept();
    NoteTextRenamed();
    CodeTextRenamed();
    StartLineRenamed();
    EndLineRenamed();
    LanguageIdRenamed();
    FileIdRenamed();
  }

  lemma PlainColumnsKept()
    ensures CamelKey("id") == "id" && CamelKey("title") == "title"
    ensures CamelKey("category") == "category" && CamelKey("createdDate") == "createdDate"
  {
    CamelKeyPlain("id");
    CamelKeyPlain("title");
    CamelKeyPlain("category");
    CamelKeyPlain("createdDate");
  }

  lemma NoteTextRenamed()
    ensures CamelKey("note_text") == "noteText"
  {
    Renames("note", 't', "ext", "note_text", "noteText");
  }

  lemma CodeTextRenamed()
    ensures CamelKey("code_text") == "codeText"
  {
    Renames("code", 't', "ext", "code_text", "codeText");
  }

  lemma StartLineRenamed()
    ensures CamelKey("start_line") == "startLine"
  {
    Renames("start", 'l', "ine", "start_line", "startLine");
  }

  lemma EndLineRenamed()
    ensures CamelKey("end_line") == "endLine"
  {
    Renames("end", 'l', "ine", "end_line", "endLine");
  }

  lemma LanguageIdRenamed()
    ensures CamelKey("language_id") == "languageId"
  {
    Renames("language", 'i', "d", "language_id", "languageId");
  }

  lemma FileIdRenamed()
    ensures CamelKey("file_id") == "fileId"
  {
    Renames("file", 'i', "d", "file_id", "fileId");
  }

  lemma Renames(a: string, c: char, b: string, column: string, field: string)
    requires '_' !in a && '_' !in b && IsLower(c)
    requires column == a + ['_', c] + b && field == a + [Upper(c)] + b
    ensures CamelKey(column) == field
  {
    CamelKeyOne(a, c, b);
  }

  /** A prefix without underscores is kept as it is. */
  lemma {:induction false} CamelKeyAppend(a: string, b: string)
    requires '_' !in a
    ensures CamelKey(a + b) == a + CamelKey(b)
  {
    if a != [] {
      assert (a + b)[0] == a[0] != '_';
      assert (a + b)[1..] == a[1..] + b;
      assert CamelKey(a + b) == [a[0]] + CamelKey(a[1..] + b);
      CamelKeyAppend(a[1..], b);
      assert [a[0]] + a[1..] == a;
    } else {
      assert a + b == b;
    }
  }

  lemma CamelKeyPlain(a: string)
    requires '_' !in a
    ensures CamelKey(a) == a
  {
    CamelKeyAppend(a, "");
    assert a + "" == a;
  }

  /** One `_x` between two underscore-free pieces becomes `X`. */
  lemma CamelKeyOne(a: string, c: char, b: string)
    requires '_' !in a && '_' !in b && IsLower(c)
    ensures CamelKey(a + ['_', c] + b) == a + [Upper(c)] + b
  {
    CamelKeyAppend(a, ['_', c] + b);
    assert a + ['_', c] + b == a + (['_', c] + b);
    assert (['_', c] + b)[2..] == b;
    CamelKeyPlain(b);
  }
}
