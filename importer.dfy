// The import as a whole: `ImportOptions.importFiles` (src/main.ts:83-286)
// and `processImports` with `processFile` (src/importer.ts:24-195). The
// listings of the vault and the texts read from it are inputs; the vault is
// the set of its paths, and what the import writes is returned as a map
// from a file's path (before its rename) to its new text.

module Importer {
  import opened Strings
  import opened NotionId
  import opened OrderedRecord
  import opened Vault
  import TitleIndex
  import Segmenter
  import opened Classifier
  import Rewriter
  import opened Renamer

  /** `items.filter(keep)` */
  function Filter(items: seq<Item>, keep: Item -> bool): (r: seq<Item>)
    ensures |r| <= |items|
    ensures forall k :: 0 <= k < |r| ==> keep(r[k]) && r[k] in items
    ensures forall k :: 0 <= k < |items| && keep(items[k]) ==> items[k] in r
  {
    if |items| == 0 then []
    else (if keep(items[0]) then [items[0]] else []) + Filter(items[1..], keep)
  }

  /** Filtering keeps the listing's order and repetitions. */
  lemma {:induction false} FilterAppend(a: seq<Item>, b: seq<Item>, keep: Item -> bool)
    ensures Filter(a + b, keep) == Filter(a, keep) + Filter(b, keep)
    ensures |a| == 1 ==> Filter(a, keep) == if keep(a[0]) then a else []
    decreases |a|
  {
    if |a| == 0 {
      assert a + b == b;
    } else {
      var head := if keep(a[0]) then [a[0]] else [];
      assert (a + b)[0] == a[0];
      assert (a + b)[1..] == a[1..] + b;
      FilterAppend(a[1..], b, keep);
      assert Filter(a + b, keep) == head + Filter(a[1..] + b, keep);
      assert Filter(a, keep) == head + Filter(a[1..], keep);
      if |a| == 1 {
        assert a[1..] == [];
      }
    }
  }

  predicate StartsWith(s: String, prefix: String) {
    prefix <= s
  }

  // ---------------------------------------------------------------------
  // One document

  /** What a document is rewritten to and where it is moved. */
  datatype Conversion = Conversion(text: String, path: String)

  /** The rewritten text of a document. */
  function ConvertText(o: Oracles, index: TitleIndex.Index, addTags: bool, text: String): String {
    var seg := Segmenter.Segment(text);
    var st := ConvertAll(o, index, addTags, seg.0);
    Rewriter.Render(WithTags(st.structured, st.tags, addTags), st.listed, seg.1)
  }

  /** A document without an id in its name is left alone; otherwise it is
      rewritten and moved to `<parent>/<title>.md`. */
  function ConvertFile(o: Oracles, index: TitleIndex.Index, addTags: bool, file: Item): Option<Conversion> {
    match GetNotionId(file.name)
    case None => None
    case Some(id) =>
      Some(Conversion(ConvertText(o, index, addTags, file.text),
                      Rewriter.NewPath(file, if id in index then Some(index[id]) else None)))
  }

  /** The body of `processFile` (and of the per-file callback of
      `importFiles`, which adds the tag branch when `addTags` holds). */
  method ProcessFile(o: Oracles, idsToTitles: TitleIndex.Index, addTags: bool, file: Item)
    returns (r: Option<Conversion>)
    ensures r == ConvertFile(o, idsToTitles, addTags, file)
  {
    var id := GetNotionId(file.name);
    if id.None? {
      return None;
    }
    var title := if id.value in idsToTitles then Some(idsToTitles[id.value]) else None;
    var text := Segmenter.DropTitleLine(file.text);
    var content := "";
    var i := IndexOf(text, "\n\n");
    if i >= 0 {
      content := text[i + 2..];
      text := text[..i];
    }
    assert (text, content) == Segmenter.SplitAtBlankLine(Segmenter.DropTitleLine(file.text));
    var propertiesFiltered := Segmenter.ParseProperties(text);
    var propertyMap, listedProperties := ConvertProperties(o, idsToTitles, addTags, propertiesFiltered);
    var newText := Rewriter.Render(propertyMap, listedProperties, content);
    var newTitle := Rewriter.NewPath(file, title);
    r := Some(Conversion(newText, newTitle));
  }

  // ---------------------------------------------------------------------
  // The conversion pass

  /** What has been written and the paths after converting `files` in
      order; a rename onto an existing path is not awaited, so its failure
      only leaves the file where it was. */
  function ConversionPass(o: Oracles, index: TitleIndex.Index, addTags: bool, paths: set<String>, files: seq<Item>)
    : (map<String, String>, set<String>)
    decreases |files|
  {
    if |files| == 0 then (map[], paths)
    else
      var before := ConversionPass(o, index, addTags, paths, files[..|files| - 1]);
      var file := files[|files| - 1];
      match ConvertFile(o, index, addTags, file)
      case None => before
      case Some(c) => (before.0[file.path := c.text], Rename(before.1, file.path, c.path).1)
  }

  method ConvertFiles(o: Oracles, index: TitleIndex.Index, addTags: bool, paths: set<String>, files: seq<Item>)
    returns (written: map<String, String>, result: set<String>)
    ensures (written, result) == ConversionPass(o, index, addTags, paths, files)
  {
    written, result := map[], paths;
    for n := 0 to |files|
      invariant (written, result) == ConversionPass(o, index, addTags, paths, files[..n])
    {
      assert files[..n + 1][..n] == files[..n];
      var file := files[n];
      var c := ProcessFile(o, index, addTags, file);
      if c.Some? {
        written := written[file.path := c.value.text];
        var r := Rename(result, file.path, c.value.path);
        result := r.1;
      }
    }
    assert files[..|files|] == files;
  }

  predicate CarriesId(file: Item) {
    GetNotionId(file.name).Some?
  }

  /** One of the files has path `p` and satisfies `keep`. */
  predicate SomeFileAt(files: seq<Item>, p: String, keep: Item -> bool) {
    exists i :: 0 <= i < |files| && files[i].path == p && keep(files[i])
  }

  /** A path is written exactly when one of the files has it and carries an
      id in its name. */
  lemma {:induction false} ConversionPassWrites(o: Oracles, index: TitleIndex.Index, addTags: bool,
                                                paths: set<String>, files: seq<Item>, p: String)
    ensures p in ConversionPass(o, index, addTags, paths, files).0 <==> SomeFileAt(files, p, CarriesId)
    decreases |files|
  {
    if |files| > 0 {
      ConversionPassWrites(o, index, addTags, paths, files[..|files| - 1], p);
      WrittenStep(o, index, addTags, paths, files, p);
      SomeFileAtStep(files, p, CarriesId);
    }
  }

  lemma SomeFileAtStep(files: seq<Item>, p: String, keep: Item -> bool)
    requires |files| > 0
    ensures SomeFileAt(files, p, keep) <==>
            SomeFileAt(files[..|files| - 1], p, keep) || (p == files[|files| - 1].path && keep(files[|files| - 1]))
  {
    var n := |files| - 1;
    var init := files[..n];
    if SomeFileAt(init, p, keep) {
      var i :| 0 <= i < n && init[i].path == p && keep(init[i]);
      assert files[i] == init[i];
    }
    if SomeFileAt(files, p, keep) {
      var i :| 0 <= i < |files| && files[i].path == p && keep(files[i]);
      if i < n {
        assert init[i] == files[i];
      }
    }
  }

  /** Converting one more file writes its path when it carries an id. */
  lemma WrittenStep(o: Oracles, index: TitleIndex.Index, addTags: bool, paths: set<String>, files: seq<Item>, p: String)
    requires |files| > 0
    ensures var last := files[|files| - 1];
            p in ConversionPass(o, index, addTags, paths, files).0 <==>
            p in ConversionPass(o, index, addTags, paths, files[..|files| - 1]).0
            || (p == last.path && CarriesId(last))
  {
    var last := files[|files| - 1];
    assert ConvertFile(o, index, addTags, last).Some? <==> GetNotionId(last.name).Some?;
  }

  // ---------------------------------------------------------------------
  // Properties of one document's conversion

  /** A document whose region before the first blank line has no
      `key: value` line is rewritten to its body alone. */
  lemma NoPropertiesGivesBody(o: Oracles, index: TitleIndex.Index, addTags: bool, text: String)
    requires Segmenter.PropertyLines(Segmenter.SplitAtBlankLine(Segmenter.DropTitleLine(text)).0) == []
    ensures ConvertText(o, index, addTags, text) == Segmenter.Segment(text).1
  {
    var region := Segmenter.SplitAtBlankLine(Segmenter.DropTitleLine(text)).0;
    Segmenter.ParsePropertiesRoundTrip(region);
    var seg := Segmenter.Segment(text);
    assert seg.0 == [];
    Rewriter.RenderIsBody([], [], seg.1);
  }

  /** With tags disabled (as in `processFile`) no `tags` entry is written:
      the structured map is the structured pairs assigned in order. */
  lemma NoTagEntryWithoutTags(o: Oracles, index: TitleIndex.Index, props: seq<Entry>)
    ensures var st := ConvertAll(o, index, false, props);
            WithTags(st.structured, st.tags, false)
            == PutAll([], StructuredPairs(props, Outcomes(o, index, false, props)))
  {
    NoTagsWhenDisabled(o, index, props);
    StoreAllAssigns(props, Outcomes(o, index, false, props));
  }

  /** A converted document stays in its folder: the index only holds titles
      free of `/`, so its new path is the parent, `/`, and a single segment
      that is its title (or `undefined`) followed by `.md`. */
  lemma ConvertedFileStaysInFolder(o: Oracles, addTags: bool, files: seq<Item>, file: Item)
    requires ConvertFile(o, TitleIndex.TitleIndexOf(files), addTags, file).Some?
    ensures var p := ConvertFile(o, TitleIndex.TitleIndexOf(files), addTags, file).value.path;
            var name := p[|ParentPath(file)| + 1..];
            p == ParentPath(file) + "/" + name && EndsWith(name, ".md")
            && forall i :: 0 <= i < |name| ==> name[i] != '/'
  {
    var index := TitleIndex.TitleIndexOf(files);
    TitleIndex.TitleIndexWellFormed(files);
    var id := GetNotionId(file.name).value;
    var title := if id in index then Some(index[id]) else None;
    if title.Some? {
      assert forall i :: 0 <= i < |title.value| ==> !TitleIndex.IsUnsafeTitleChar(title.value[i]);
    }
    Rewriter.NewPathInParent(file, title);
  }

  // ---------------------------------------------------------------------
  // The two importers

  /** `importFiles`' first filter: id-bearing Markdown files in the target
      directory. */
  predicate SelectedDocument(targetDirectory: String, file: Item) {
    StartsWith(file.path, targetDirectory) && EndsWith(file.path, ".md") && IsNotionId(file.path)
  }

  /** When a selected document's path is its parent's path, `/` and its
      name, its name carries an id, so the per-file callback never takes the
      early exit that would leave `Promise.all` waiting. */
  lemma SelectedDocumentCarriesId(targetDirectory: String, file: Item)
    requires SelectedDocument(targetDirectory, file)
    requires file.path == ParentPath(file) + "/" + file.name
    ensures CarriesId(file)
  {
    IdInLastSegment(ParentPath(file), file.name);
    IdRecognitionAgrees(file.name);
  }

  /** `importFiles`' folder filter: an id-bearing path whose name holds no
      `.`. */
  predicate SelectedFolder(targetDirectory: String, file: Item) {
    StartsWith(file.path, targetDirectory) && IsNotionId(file.path) && '.' !in file.name
  }

  /** Both importers' filter for the duplicate-file pass. */
  predicate SelectedDuplicate(targetDirectory: String, file: Item) {
    StartsWith(file.path, targetDirectory) && IsNotionId(file.path) && EndsWith(file.path, ".md")
  }

  /** `ImportOptions.importFiles`: the title index, the conversion of every
      selected document, the folder pass over a fresh listing and, unless a
      folder rename threw, the duplicate-file pass over another one. */
  method ImportFiles(o: Oracles, targetDirectory: String, addTags: bool, paths: set<String>,
                     listing: seq<Item>, folderListing: seq<Item>, duplicateListing: seq<Item>)
    returns (written: map<String, String>, result: set<String>, completed: bool)
    ensures var files := Filter(listing, f => SelectedDocument(targetDirectory, f));
            var converted := ConversionPass(o, TitleIndex.TitleIndexOf(files), addTags, paths, files);
            var folders := FolderPass(converted.1, Filter(folderListing, f => SelectedFolder(targetDirectory, f)));
            written == converted.0
            && completed == folders.completed
            && result == if completed
                         then DuplicatePass(folders.paths, Filter(duplicateListing, f => SelectedDuplicate(targetDirectory, f)))
                         else folders.paths
  {
    var files := Filter(listing, f => SelectedDocument(targetDirectory, f));
    var idsToTitles := TitleIndex.BuildTitleIndex(files);
    written, result := ConvertFiles(o, idsToTitles, addTags, paths, files);
    var folders := Filter(folderListing, f => SelectedFolder(targetDirectory, f));
    result, completed := RenameFolders(result, folders);
    if completed {
      var duplicateFiles := Filter(duplicateListing, f => SelectedDuplicate(targetDirectory, f));
      result := RenameDuplicates(result, duplicateFiles);
    }
  }

  /** `processImports`' first filter: id-bearing paths in the target
      directory. */
  predicate SelectedPath(targetDirectory: String, file: Item) {
    StartsWith(file.path, targetDirectory) && IsNotionId(file.path)
  }

  predicate IsMarkdownFile(file: Item) {
    !file.isFolder && file.extension == "md"
  }

  predicate IsFolder(file: Item) {
    file.isFolder
  }

  /** `processImports` with the bodies of its two mapped callbacks run for
      every Markdown file: the same conversion without tags, the folder
      pass over folders of the first listing and, unless a folder rename
      threw, the duplicate-file pass over a fresh listing. */
  method ProcessImports(o: Oracles, targetDirectory: String, paths: set<String>,
                        listing: seq<Item>, duplicateListing: seq<Item>)
    returns (written: map<String, String>, result: set<String>, completed: bool)
    ensures var selected := Filter(listing, f => SelectedPath(targetDirectory, f));
            var markdownFiles := Filter(selected, IsMarkdownFile);
            var converted := ConversionPass(o, TitleIndex.TitleIndexOf(markdownFiles), false, paths, markdownFiles);
            var folders := FolderPass(converted.1, Filter(selected, IsFolder));
            written == converted.0
            && completed == folders.completed
            && result == if completed
                         then DuplicatePass(folders.paths, Filter(duplicateListing, f => SelectedDuplicate(targetDirectory, f)))
                         else folders.paths
  {
    var selected := Filter(listing, f => SelectedPath(targetDirectory, f));
    var markdownFiles := Filter(selected, IsMarkdownFile);
    var folders := Filter(selected, IsFolder);
    var idsToTitles := TitleIndex.BuildTitleIndex(markdownFiles);
    written, result := ConvertFiles(o, idsToTitles, false, paths, markdownFiles);
    result, completed := RenameFolders(result, folders);
    if completed {
      var duplicateFiles := Filter(duplicateListing, f => SelectedDuplicate(targetDirectory, f));
      result := RenameDuplicates(result, duplicateFiles);
    }
  }

  /** `processImports` as written: both `map` callbacks return an async
      function that nothing calls, so each `Promise.all` settles at once,
      the index stays empty and no document is read, rewritten or moved;
      only the folder pass and the duplicate-file pass run. */
  method ProcessImportsAsWritten(targetDirectory: String, paths: set<String>,
                                 listing: seq<Item>, duplicateListing: seq<Item>)
    returns (written: map<String, String>, result: set<String>, completed: bool)
    ensures var selected := Filter(listing, f => SelectedPath(targetDirectory, f));
            var folders := FolderPass(paths, Filter(selected, IsFolder));
            written == map[]
            && completed == folders.completed
            && result == if completed
                         then DuplicatePass(folders.paths, Filter(duplicateListing, f => SelectedDuplicate(targetDirectory, f)))
                         else folders.paths
  {
    var selected := Filter(listing, f => SelectedPath(targetDirectory, f));
    var folders := Filter(selected, IsFolder);
    written := map[];
    result, completed := RenameFolders(paths, folders);
    if completed {
      var duplicateFiles := Filter(duplicateListing, f => SelectedDuplicate(targetDirectory, f));
      result := RenameDuplicates(result, duplicateFiles);
    }
  }

  /** What the callbacks would do if they were called: every selected
      Markdown document whose name carries an id is rewritten, where the
      import as written rewrites nothing. */
  lemma CallbacksWouldConvert(o: Oracles, targetDirectory: String, paths: set<String>, listing: seq<Item>, file: Item)
    requires file in Filter(Filter(listing, f => SelectedPath(targetDirectory, f)), IsMarkdownFile)
    requires CarriesId(file)
    ensures var markdownFiles := Filter(Filter(listing, f => SelectedPath(targetDirectory, f)), IsMarkdownFile);
            file.path in ConversionPass(o, TitleIndex.TitleIndexOf(markdownFiles), false, paths, markdownFiles).0
  {
    var markdownFiles := Filter(Filter(listing, f => SelectedPath(targetDirectory, f)), IsMarkdownFile);
    var i :| 0 <= i < |markdownFiles| && markdownFiles[i] == file;
    assert SomeFileAt(markdownFiles, file.path, CarriesId);
    ConversionPassWrites(o, TitleIndex.TitleIndexOf(markdownFiles), false, paths, markdownFiles, file.path);
  }
}
