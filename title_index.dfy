// The first pass of the conversion: every candidate document whose first
// line is a `# ` heading contributes `id -> sanitised title` to the index
// that later resolves relations and names the converted files
// (src/main.ts:92-108; the thunk body at src/importer.ts:39-47).

module TitleIndex {
  import opened Strings
  import opened NotionId
  import opened Vault

  type Index = map<String, String>

  /** `text.match(/^# (.*)\n/)?.[1]`: the rest of a first line that starts
      with `# `, provided that line is ended by `\n`. */
  function HeadingTitle(text: String): (title: Option<String>)
    ensures title.Some? ==> "# " + title.value + "\n" <= text && NoLineTerminator(title.value)
  {
    if |text| >= 2 && text[..2] == "# " then
      var e := LineEnd(text, 2);
      if e < |text| && text[e] == '\n' then
        assert text[..e + 1] == "# " + text[2..e] + "\n";
        Some(text[2..e])
      else None
    else None
  }

  /** Any first line `# t` followed by `\n` is found as the heading `t`. */
  lemma HeadingTitleComplete(text: String, t: String)
    requires "# " + t + "\n" <= text && NoLineTerminator(t)
    ensures HeadingTitle(text) == Some(t)
  {
    var n := 2 + |t|;
    assert text[..2] == "# ";
    assert text[n] == '\n';
    assert text[2..n] == t;
    LineEndAt(text, 2, n);
  }

  predicate IsUnsafeTitleChar(c: char) {
    c == '/' || c == '\\' || c == ':'
  }

  /** `title.replace(/[\/\\:]/g, '-')` */
  function Sanitize(title: String): (r: String)
    ensures |r| == |title|
    ensures forall i :: 0 <= i < |r| ==> !IsUnsafeTitleChar(r[i])
    ensures forall i :: 0 <= i < |r| ==> r[i] == if IsUnsafeTitleChar(title[i]) then '-' else title[i]
  {
    if |title| == 0 then []
    else [if IsUnsafeTitleChar(title[0]) then '-' else title[0]] + Sanitize(title[1..])
  }

  /** What one document contributes: nothing without an id in its name or
      without a non-empty heading (`if (!id || !title) return`). */
  function IndexEntry(file: Item): Option<(String, String)> {
    var id := GetNotionId(file.name);
    var title := HeadingTitle(file.text);
    if id.None? || title.None? || title.value == [] then None
    else Some((id.value, Sanitize(title.value)))
  }

  /** The entries the documents contribute, in listing order. */
  function Entries(files: seq<Item>): (es: seq<Option<(String, String)>>)
    ensures |es| == |files| && forall i :: 0 <= i < |files| ==> es[i] == IndexEntry(files[i])
  {
    if |files| == 0 then [] else Entries(files[..|files| - 1]) + [IndexEntry(files[|files| - 1])]
  }

  /** Writing the entries into a map in order; a later entry with the same
      id overwrites the earlier one. */
  function Fold(entries: seq<Option<(String, String)>>): Index
    decreases |entries|
  {
    if |entries| == 0 then map[]
    else
      var before := Fold(entries[..|entries| - 1]);
      match entries[|entries| - 1]
      case None => before
      case Some(entry) => before[entry.0 := entry.1]
  }

  /** The index after visiting `files` in order. */
  function TitleIndexOf(files: seq<Item>): Index {
    Fold(Entries(files))
  }

  /** The `for (let file of files)` loop that fills `idsToTitles`. */
  method BuildTitleIndex(files: seq<Item>) returns (idsToTitles: Index)
    ensures idsToTitles == TitleIndexOf(files)
  {
    idsToTitles := map[];
    ghost var entries := Entries(files);
    for n := 0 to |files|
      invariant idsToTitles == Fold(entries[..n])
    {
      FoldStep(entries, n);
      var file := files[n];
      var title := HeadingTitle(file.text);
      var id := GetNotionId(file.name);
      if id.None? || title.None? || title.value == [] {
        continue;
      }
      idsToTitles := idsToTitles[id.value := Sanitize(title.value)];
    }
    assert entries[..|files|] == entries;
  }

  /** One more turn of the loop writes one more entry. */
  lemma FoldStep(entries: seq<Option<(String, String)>>, n: nat)
    requires n < |entries|
    ensures Fold(entries[..n + 1]) ==
            match entries[n]
            case None => Fold(entries[..n])
            case Some(entry) => Fold(entries[..n])[entry.0 := entry.1]
  {
    assert entries[..n + 1][..n] == entries[..n];
  }

  /** Every entry is keyed by a 32-character id and holds a non-empty title
      free of `/`, `\` and `:`. */
  lemma TitleIndexWellFormed(files: seq<Item>)
    ensures forall k :: k in TitleIndexOf(files) ==>
              IsIdToken(k) && |TitleIndexOf(files)[k]| > 0
              && forall i :: 0 <= i < |TitleIndexOf(files)[k]| ==> !IsUnsafeTitleChar(TitleIndexOf(files)[k][i])
  {
    FoldWellFormed(Entries(files));
  }

  /** A well-formed entry: a 32-character id and a clean non-empty title. */
  predicate WellFormedEntry(e: Option<(String, String)>) {
    e.Some? ==> IsIdToken(e.value.0) && |e.value.1| > 0
                && forall i :: 0 <= i < |e.value.1| ==> !IsUnsafeTitleChar(e.value.1[i])
  }

  lemma {:induction false} FoldWellFormed(entries: seq<Option<(String, String)>>)
    requires forall i :: 0 <= i < |entries| ==> WellFormedEntry(entries[i])
    ensures forall k :: k in Fold(entries) ==>
              IsIdToken(k) && |Fold(entries)[k]| > 0
              && forall i :: 0 <= i < |Fold(entries)[k]| ==> !IsUnsafeTitleChar(Fold(entries)[k][i])
    decreases |entries|
  {
    if |entries| > 0 {
      FoldWellFormed(entries[..|entries| - 1]);
      assert WellFormedEntry(entries[|entries| - 1]);
    }
  }

  /** The entry at `i` is for `k`. */
  predicate EntryFor(entries: seq<Option<(String, String)>>, i: int, k: String)
    requires 0 <= i < |entries|
  {
    entries[i].Some? && entries[i].value.0 == k
  }

  lemma {:induction false} FoldKeys(entries: seq<Option<(String, String)>>, k: String)
    ensures (k in Fold(entries)) <==> exists i :: 0 <= i < |entries| && EntryFor(entries, i, k)
    decreases |entries|
  {
    if |entries| > 0 {
      var n := |entries| - 1;
      var init := entries[..n];
      FoldKeys(init, k);
      if k in Fold(entries) && !EntryFor(entries, n, k) {
        var i :| 0 <= i < n && EntryFor(init, i, k);
        assert EntryFor(entries, i, k);
      }
      if !(k in Fold(entries)) && exists i :: 0 <= i < |entries| && EntryFor(entries, i, k) {
        var i :| 0 <= i < |entries| && EntryFor(entries, i, k);
        assert i < n && EntryFor(init, i, k);
      }
    }
  }

  lemma {:induction false} FoldLastWins(entries: seq<Option<(String, String)>>, k: String, i: int)
    requires 0 <= i < |entries| && EntryFor(entries, i, k)
    requires forall j :: i < j < |entries| ==> !EntryFor(entries, j, k)
    ensures k in Fold(entries) && Fold(entries)[k] == entries[i].value.1
    decreases |entries|
  {
    var n := |entries| - 1;
    if i < n {
      var init := entries[..n];
      assert EntryFor(init, i, k);
      forall j | i < j < n ensures !EntryFor(init, j, k) {
        assert !EntryFor(entries, j, k);
      }
      FoldLastWins(init, k, i);
      assert !EntryFor(entries, n, k);
    }
  }

  /** The document contributes an entry for `k`. */
  predicate Contributes(file: Item, k: String) {
    IndexEntry(file).Some? && IndexEntry(file).value.0 == k
  }

  /** An id is in the index exactly when some document contributes it. */
  lemma TitleIndexKeys(files: seq<Item>, k: String)
    ensures (k in TitleIndexOf(files)) <==> exists i :: 0 <= i < |files| && Contributes(files[i], k)
  {
    var es := Entries(files);
    FoldKeys(es, k);
    if k in TitleIndexOf(files) {
      var i :| 0 <= i < |es| && EntryFor(es, i, k);
      assert Contributes(files[i], k);
    }
    if exists i :: 0 <= i < |files| && Contributes(files[i], k) {
      var i :| 0 <= i < |files| && Contributes(files[i], k);
      assert EntryFor(es, i, k);
    }
  }

  /** The entry for `k` holds the title of the last document contributing
      `k`: a later document with the same id overwrites an earlier one. */
  lemma TitleIndexLastWins(files: seq<Item>, k: String, i: int)
    requires 0 <= i < |files| && Contributes(files[i], k)
    requires forall j :: i < j < |files| ==> !Contributes(files[j], k)
    ensures k in TitleIndexOf(files) && TitleIndexOf(files)[k] == IndexEntry(files[i]).value.1
  {
    var es := Entries(files);
    forall j | i < j < |es| ensures !EntryFor(es, j, k) {
      assert !Contributes(files[j], k);
    }
    FoldLastWins(es, k, i);
  }
}
