// Assembling the converted document and its new path (src/main.ts:223-237,
// src/importer.ts:177-191): the fenced `key: value` block of the structured
// map, the `key:: value` line of the listed map, then the body.

module Rewriter {
  import opened Strings
  import opened OrderedRecord
  import opened Vault
  import Segmenter

  function EntryLines(r: Record): (ls: seq<String>)
    ensures |ls| == |r| && forall i :: 0 <= i < |r| ==> ls[i] == Segmenter.EntryLine(r[i])
  {
    if |r| == 0 then [] else [Segmenter.EntryLine(r[0])] + EntryLines(r[1..])
  }

  /** `---\n`, one `key: value` line per structured property, `\n---\n\n`;
      nothing when the structured map is empty. */
  function FrontMatter(propertyMap: Record): String {
    if |propertyMap| > 0 then "---\n" + Join(EntryLines(propertyMap), "\n") + "\n---\n\n" else ""
  }

  function InlineEntry(e: Entry): String {
    e.key + ":: " + e.value
  }

  function InlineEntries(r: Record): (ls: seq<String>)
    ensures |ls| == |r| && forall i :: 0 <= i < |r| ==> ls[i] == InlineEntry(r[i])
  {
    if |r| == 0 then [] else [InlineEntry(r[0])] + InlineEntries(r[1..])
  }

  /** The `key:: value` entries joined by `", "` and ended by `\n`; nothing
      when the listed map is empty. */
  function InlineLine(listedProperties: Record): String {
    if |listedProperties| > 0 then Join(InlineEntries(listedProperties), ", ") + "\n" else ""
  }

  /** `newText` */
  function Render(propertyMap: Record, listedProperties: Record, content: String): String {
    FrontMatter(propertyMap) + InlineLine(listedProperties) + content
  }

  /** `(file.parent?.path ?? '') + '/' + title + '.md'`, where an id the
      index lacks gives the title `undefined`. */
  function NewPath(file: Item, title: Option<String>): String {
    ParentPath(file) + "/" + (match title case Some(t) => t case None => "undefined") + ".md"
  }

  // ---------------------------------------------------------------------
  // Properties

  /** The rewritten text is the body exactly when both maps are empty;
      otherwise something precedes the body. */
  lemma RenderIsBody(propertyMap: Record, listedProperties: Record, content: String)
    ensures Render(propertyMap, listedProperties, content) == content
            <==> |propertyMap| == 0 && |listedProperties| == 0
    ensures EndsWith(Render(propertyMap, listedProperties, content), content)
  {
    var out := Render(propertyMap, listedProperties, content);
    var prefix := FrontMatter(propertyMap) + InlineLine(listedProperties);
    assert out == prefix + content;
    assert |propertyMap| > 0 ==> |FrontMatter(propertyMap)| >= 4;
    assert |listedProperties| > 0 ==> |InlineLine(listedProperties)| >= 1;
    assert out[|out| - |content|..] == content;
  }

  /** The fenced block reads back: between the opening `---\n` and the
      closing `\n---\n\n` lie the `key: value` lines of the structured map,
      one per line and in its order, provided no key or value holds a line
      feed. */
  lemma FrontMatterReadBack(propertyMap: Record)
    requires |propertyMap| > 0
    requires forall i :: 0 <= i < |propertyMap| ==> IndexOf(Segmenter.EntryLine(propertyMap[i]), "\n") < 0
    ensures var block := Join(EntryLines(propertyMap), "\n");
            FrontMatter(propertyMap) == "---\n" + block + "\n---\n\n"
            && Split(block, "\n") == EntryLines(propertyMap)
  {
    var lines := EntryLines(propertyMap);
    assert HeadDoesNotRecur("\n");
    SplitJoin(lines, "\n");
  }

  /** A title free of `/` names a file directly inside the original parent
      folder: the new path is the parent, `/`, and a last segment that is
      the title followed by `.md`. */
  lemma NewPathInParent(file: Item, title: Option<String>)
    requires title.Some? ==> forall i :: 0 <= i < |title.value| ==> title.value[i] != '/'
    ensures var p := NewPath(file, title);
            var name := p[|ParentPath(file)| + 1..];
            p == ParentPath(file) + "/" + name
            && EndsWith(name, ".md")
            && (forall i :: 0 <= i < |name| ==> name[i] != '/')
            && name[..|name| - 3] == (if title.Some? then title.value else "undefined")
  {
    var t := if title.Some? then title.value else "undefined";
    var p := NewPath(file, title);
    var name := t + ".md";
    assert p == ParentPath(file) + "/" + name;
    assert p[|ParentPath(file)| + 1..] == name;
    assert name[..|name| - 3] == t;
    assert name[|name| - 3..] == ".md";
    forall i | 0 <= i < |name| ensures name[i] != '/' {
      if i < |t| {
        assert name[i] == t[i];
      } else {
        assert name[i] == ".md"[i - |t|];
      }
    }
  }
}
