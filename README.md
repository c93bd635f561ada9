# Notion export normalisation, modelled in Dafny

This project models the conversion engine of an Obsidian plugin. The plugin
turns a Notion Markdown/CSV export that has been copied into a vault into
ordinary Obsidian notes. Two entry points share the engine:

- `ImportOptions.importFiles` in `src/main.ts`, the command the modal runs;
- `processImports` with `processFile` in `src/importer.ts`, a second copy
  without the tag branch.

The import works in these steps:

1. It selects every listed path under the target directory whose name ends
   in a Notion id. An id is 32 characters of `[a-z0-9]`, optionally preceded
   by a space and followed by `.md` or `.csv`.
2. It builds an index from each document's id to its sanitised `# ` heading.
3. It rewrites each document:
   - the first line is dropped when a blank line follows it;
   - the `key: value` lines before the first blank line are classified as a
     date, a checkbox, a relation list, inline links, a tag list or plain
     text;
   - the properties go to a YAML-like front-matter block, the inline links
     to a `key:: value` line, and the body follows.
4. It moves each document to `<parent>/<title>.md`.
5. It strips the id from each id-bearing folder in turn, until a rename fails;
   a failed rename ends the import, and the later folders keep their ids.
6. Unless a folder rename failed, it moves every file that still carries an id
   to `<parent>/<name> <i>.md`,
   using the first free `i` from 2 to 10.

## Modules

| module | models |
|---|---|
| `Strings` (strings.dfy) | The JavaScript string operations the engine relies on: `indexOf`, `split`/`join`, `replace` of a first occurrence, line-bounded `.` in regular expressions, ASCII `toLowerCase`. |
| `NotionId` (notion_id.dfy) | The three id helpers, as a regular language recognised at some position of the string (`isNotionId`), its leftmost match removed (`stripNotionId`), and the last 32 characters before a known extension (`getNotionId`). |
| `OrderedRecord` (ordered_record.dfy) | A JavaScript `Record<string, string>`: an association list in insertion order. An assignment to an existing key updates it in place. |
| `Vault` (vault.dfy) | The vault as a set of paths, and a `rename` that fails when the destination exists. |
| `TitleIndex` (title_index.dfy) | The id → title index. |
| `Segmenter` (segmenter.dfy) | Splitting a document into property pairs and body. |
| `Classifier` (classifier.dfy) | The per-property `forEach` and the `tags` entry. |
| `Rewriter` (rewriter.dfy) | Rendering the new text and computing the new path. |
| `Renamer` (renamer.dfy) | The folder pass and the duplicate-file pass. |
| `Importer` (importer.dfy) | The two pipelines. |

`processFile` is the `importFiles` callback with `addTags` false. The model
therefore has one converter with an `addTags` flag.

## Behaviours of the code

The model follows three behaviours of the code that a reader might not expect:

- **The end-of-properties search finds nothing.** Every line the property
  regular expression matches starts with a key, so the `findIndex` search at
  `src/main.ts:128-134` always returns -1 (`Segmenter.NoEndOfProperties`).
- **No continuation lines.** The trailing group of that expression is lazy
  with nothing after it, so a property never spans a continuation line.
- **A tag list joins with no separator.** A tag list that keeps two or more
  tokens stores them joined with `''`. It is modelled as written.

## Model

| member | source | states |
|---|---|---|
| Strings.IndexOfFrom | src/main.ts:122-124 | The result is the first position at or after `from` where the pattern occurs, or -1 exactly when it occurs nowhere there. |
| Strings.LineEnd | src/main.ts:97 | A regular-expression `.` run from `from` stops at the first JavaScript line terminator (or the end), and nothing before it is a terminator. |
| Strings.LineEndAt | src/main.ts:97 | Any position that ends a terminator-free run at a terminator is the run's end. |
| Strings.Split | src/main.ts:166 | `split` always yields at least one part. |
| Strings.JoinSplit | src/main.ts:171-178 | Joining the parts of a split with the same separator gives back the original string. |
| Strings.SplitJoin | src/main.ts:224-229 | Splitting a join recovers the parts, when no part holds the separator and the separator cannot overlap itself. |
| Strings.SplitPartsFree | src/main.ts:166 | No part of a split contains the separator. |
| Strings.SplitWhere | src/main.ts:199 | Splitting on a character class yields one more part than there are separator characters, and no part holds one. |
| Strings.SplitWhereRebuild | src/main.ts:199 | The parts, put back together with the separator characters in the order they occur, give back the string. |
| Strings.ReplaceFirst | src/main.ts:189 | `replace` with a string pattern changes only the first occurrence: the text before and after it is kept, and nothing changes when there is no occurrence. |
| Strings.ReplaceFirstAt | src/main.ts:189 | When the pattern occurs, the result is the text before its first occurrence, the replacement, and the text after that occurrence. |
| Strings.ReplaceChar | src/main.ts:202-204 | Replacing a character everywhere keeps the length. |
| Strings.ReplaceCharAt | src/main.ts:202-204 | After replacing a character everywhere, each position holds the replacement exactly where it held the replaced character. |
| Strings.ReplaceCharIdentity | src/main.ts:202-204 | Replacing a character that does not occur changes nothing. |
| Strings.SplitJoinReplacesChar | src/main.ts:202-204 | `split(c).join(d)` on single characters replaces every `c` with `d`. |
| Strings.AsciiLowerChar | src/main.ts:204 | Lower-casing maps each letter of `A-Z` to its own lower-case letter (32 code points on) and leaves every other character alone. |
| Strings.AsciiLower | src/main.ts:204 | Lower-casing keeps the length and lower-cases position by position. |
| Strings.AsciiLowerAppend | src/main.ts:202-204 | Lower-casing distributes over concatenation. |
| Strings.NatToString | src/main.ts:278 | A suffix number renders as a non-empty string of decimal digits whose decimal value is the number. |
| Strings.NatToStringInjective | src/main.ts:278 | Two numbers that render alike are equal. |
| NotionId.FirstMatchFrom | src/main.ts:68 | The search returns the leftmost position at which the id expression matches through to the end, or reports that none does. |
| NotionId.StripNotionId | src/main.ts:67-69 | Stripping yields a prefix of the name, and leaves a name without an id unchanged. |
| NotionId.FirstMatchExists | src/main.ts:67-69 | For an id-bearing name, stripping cuts at the leftmost match. |
| NotionId.KnownExtension | src/main.ts:72 | The extension removed before extraction is `.csv` when the name ends in `.csv`, `.md` when it ends in `.md`, and `''` otherwise. |
| NotionId.GetNotionId | src/main.ts:71-73 | An extracted id is 32 characters of `[a-z0-9]`. |
| NotionId.ExtractAt | src/main.ts:71-73 | Wherever an id with an optional extension ends a name, extraction returns that id and that extension. |
| NotionId.IdRecognitionAgrees | src/main.ts:65-73 | `isNotionId` holds exactly when `getNotionId` finds an id. |
| NotionId.MatchWithoutSpace | src/main.ts:65-69 | When the leftmost match has no leading space, the name is the stripped prefix, the id and the extension, and the prefix does not end in a space. |
| NotionId.MatchWithSpace | src/main.ts:65-69 | When a match starts with its optional space, the name is the prefix, a space, the id and the extension. |
| NotionId.StripExtractAgree | src/main.ts:65-73 | An id-bearing name is its stripped form, an optional space, its extracted id and its extension. |
| NotionId.NoSlashInMatch | src/main.ts:65 | No character of a match is `/`. |
| NotionId.IdInLastSegment | src/main.ts:89 | A path carries an id exactly when its last segment does. |
| NotionId.StripLeavesEarlierId | src/main.ts:67-69 | For two adjacent ids, stripping removes only the last, and the result still carries an id. |
| OrderedRecord.Keys | src/main.ts:224 | `_.keys` lists the keys in entry order. |
| OrderedRecord.Position | src/main.ts:151 | The lookup finds the first entry with the key, or -1 when none has it. |
| OrderedRecord.Get | src/main.ts:151 | A lookup finds a value exactly when the key is present; it specifies what an assignment leaves in the record. |
| OrderedRecord.Put | src/main.ts:151 | An assignment makes the key map to the value and leaves every other key alone. It appends a new key at the end, keeps an existing key's place, and preserves distinct keys. |
| OrderedRecord.PutAllKeys | src/main.ts:141-218 | After a series of assignments, the keys are the old keys followed by each new key at its first assignment. |
| OrderedRecord.PutAllLastWins | src/main.ts:141-218 | After a series of assignments, each key holds the last value assigned to it, or its old value. |
| OrderedRecord.PutAllDistinct | src/main.ts:141-218 | A series of assignments keeps keys distinct. |
| Vault.Rename | src/main.ts:256-259 | A rename succeeds exactly when the destination is free. It then adds the destination, removes the source and keeps every other path. A failed rename changes nothing. |
| TitleIndex.HeadingTitle | src/main.ts:97 | A title found is the rest of a first line `# ...` ended by `\n`, and holds no line terminator. |
| TitleIndex.HeadingTitleComplete | src/main.ts:97 | Every first line `# t` ended by `\n` yields the title `t`. |
| TitleIndex.Sanitize | src/main.ts:104 | Sanitising keeps the length, puts `-` in place of every `/`, `\` and `:`, and changes no other character. |
| TitleIndex.Entries | src/main.ts:94-108 | Each document contributes its own entry, in listing order. |
| TitleIndex.BuildTitleIndex | src/main.ts:92-108 | The loop builds the index that the documents' entries define. |
| TitleIndex.TitleIndexWellFormed | src/main.ts:100-104 | Every key is an id and every title is non-empty and free of `/`, `\` and `:`. |
| TitleIndex.TitleIndexKeys | src/main.ts:98-103 | An id is indexed exactly when some document has it in its name and a non-empty heading. |
| TitleIndex.TitleIndexLastWins | src/main.ts:104 | An id holds the sanitised title of the last document contributing it. |
| Segmenter.DropTitleLine | src/main.ts:119-120 | The text is either left as it is or is a terminator-free first line, a blank line and the result. |
| Segmenter.DropTitleLineComplete | src/main.ts:119-120 | A first line followed by a blank line is always dropped. |
| Segmenter.SplitAtBlankLine | src/main.ts:121-125 | Without a blank line the body is empty. Otherwise the text is region, `\n\n` and body, and the region holds no blank line and does not end in `\n`. |
| Segmenter.KeepKeyLines | src/main.ts:126 | Exactly the lines starting with a key are kept. |
| Segmenter.KeepKeyLinesAppend | src/main.ts:126 | The lines kept from two stretches of text are those kept from each, in order: a line is kept where it stands, with its repetitions, or dropped. |
| Segmenter.FindEndOfProperties | src/main.ts:128-132 | The search returns -1 or a position within the matched lines. |
| Segmenter.NoEndOfProperties | src/main.ts:128-134 | When every matched line starts with a key, the search returns -1, so no property is cut off. |
| Segmenter.SplitPropertyRoundTrip | src/main.ts:139 | A property line splits into a non-empty key that holds no earlier `": "` and a value, and `key: value` gives back the line. |
| Segmenter.SplitAllRoundTrip | src/main.ts:137-140 | Every matched line yields exactly one pair, in order, that renders back to it. |
| Segmenter.ParsePropertiesRoundTrip | src/main.ts:126-140 | The property pairs of a region are exactly its property lines, in order, each one rendering back to its line. |
| Rewriter.EntryLines | src/main.ts:226-227 | One `key: value` line per structured entry, in order. |
| Rewriter.InlineEntries | src/main.ts:232-233 | One `key:: value` entry per listed entry, in order. |
| Rewriter.RenderIsBody | src/main.ts:223-236 | The new text is the body exactly when both maps are empty, and it always ends with the body. |
| Rewriter.FrontMatterReadBack | src/main.ts:224-229 | The fenced block splits back, line by line, into the structured entries in order. |
| Rewriter.NewPathInParent | src/main.ts:237 | With a title free of `/`, the new path is the parent, `/`, and one segment: the title (or `undefined`) followed by `.md`. |
| Classifier.Unfold | src/main.ts:147 | A value without a line feed is unchanged. |
| Classifier.UnfoldSingleLine | src/main.ts:147 | A one-line value reaches the classification unchanged. |
| Classifier.RelationLinks | src/main.ts:171-177 | One link per relation token. |
| Classifier.RelationLinkAt | src/main.ts:171-178 | Each relation token becomes `[[title]]` in its own position. |
| Classifier.RelationTokensResolve | src/main.ts:164-178 | Each token of a relation list becomes `[[t]]`, where `t` is the indexed title of its id, or `undefined` when the id is not indexed. |
| Classifier.FilterIds | src/main.ts:181-183 | Exactly the id-bearing tokens are candidates for inline links. |
| Classifier.FilterIdsAppend | src/main.ts:181-183 | The candidates keep the tokens' order and repetitions: each token is kept where it stands when it carries an id, and dropped otherwise. |
| Classifier.ResolvedTitle | src/main.ts:187-188 | A candidate resolves exactly when the id extracted from its decoded form is indexed with a non-empty title, and it then resolves to that title. |
| Classifier.ResolveInlineLinks | src/main.ts:186-190 | The loop replaces each resolvable candidate in turn, at its first occurrence. |
| Classifier.ResolveLast | src/main.ts:186-190 | Visiting a resolvable candidate replaces its first occurrence in the value so far by `[[title]]`, with the title of its id, and keeps the text before and after. |
| Classifier.UnresolvedLeaveValue | src/main.ts:186-190 | When no candidate resolves, the value is unchanged. |
| Classifier.LeadingTagChars | src/main.ts:193 | The run counted is the longest prefix of `[a-zA-Z0-9 ]`. |
| Classifier.TagListBySplit | src/main.ts:193 | A value is a tag list exactly when, split on `", "`, every part is a non-empty run of `[a-zA-Z0-9 ]`, except that a trailing `", "` leaves an empty last part. |
| Classifier.KeptTags | src/main.ts:197-199 | Exactly the tokens with fewer than two white-space characters are kept, and only those. |
| Classifier.KeptTagsAppend | src/main.ts:197-199 | The kept tokens keep their order and repetitions: each token is kept where it stands when it has fewer than two white-space characters, and dropped otherwise. |
| Classifier.TagNames | src/main.ts:200-206 | One tag name per kept token, in order. |
| Classifier.TagNameShape | src/main.ts:202-204 | A tag is the key and the token with spaces turned into hyphens, each lower-cased, joined by `/`. It holds no space and no upper-case ASCII letter. |
| Classifier.TagValue | src/main.ts:207-213 | With no kept token the value stays; with one, the value is that token; with two or more, the tokens run together with no separator. |
| Classifier.Classify | src/main.ts:146-217 | First match wins: a value is a date iff the date parser accepts it; a checkbox iff not and it is `Yes`/`No`; a relation iff neither and every token carries an id; inline links iff none of those and some token carries an id; a tag list iff none of those, tags are on and it has the tag-list shape; text otherwise. A date at midnight renders as its ISO date and any other as its ISO date and time, `Yes`/`No` map to `true`/`false`, a relation list renders as its `[[title]]` links, inline links are resolved candidate by candidate, text is copied, and only a tag list adds tags. |
| Classifier.ConvertProperty | src/main.ts:147-216 | The branch-by-branch conversion, with the inline-link loop run as a loop, computes the classification. |
| Classifier.PlainValueCopied | src/main.ts:214-216 | A value matching no branch is stored as it is. |
| Classifier.StatusDoneIsTagged | src/main.ts:192-213 | With tags on, `Status: Done` keeps `Done` as its value and adds the tag `status/done`. |
| Classifier.TwoTagsRunTogether | src/main.ts:192-213 | With tags on, `k: a, b` stores the value `ab` and adds the tags `k/a` and `k/b`, in order. |
| Classifier.DateAtMidnight | src/main.ts:148-157 | A value the date parser reads as a midnight time is stored as its ISO date alone, with no tags. |
| Classifier.Outcomes | src/main.ts:146 | Each property is classified independently of the others, in order. |
| Classifier.StoreAllAssigns | src/main.ts:146-218 | The structured and the listed map are the assignments of the non-inline and of the inline outcomes, in order. |
| Classifier.StoreAllLastWins | src/main.ts:146-218 | Each key holds the value of its last assignment, and keys stand in the order of their first assignment. |
| Classifier.StoreAllKeys | src/main.ts:146-218 | A key lands in one of the two maps exactly when it is a property key, and each map has distinct keys. |
| Classifier.StoreAllNoTags | src/main.ts:144 | Outcomes without tags collect no tags. |
| Classifier.WithTags | src/main.ts:220-221 | With tags on and some collected, `tags` maps to `[t1, t2, ...]`, every other key is unchanged and `tags` is appended unless present. Otherwise the map is unchanged. |
| Classifier.ConvertProperties | src/main.ts:141-221 | The loop and the tag entry produce the structured map with its tag entry, and the listed map. |
| Classifier.NoTagsWhenDisabled | src/main.ts:192-195 | With tags off, no tag is collected and no `tags` entry is added. |
| Importer.Filter | src/main.ts:83-90 | Exactly the items meeting the condition are kept, and only those. |
| Importer.FilterAppend | src/main.ts:83-90 | The selection keeps the listing's order and repetitions: each item is kept where it stands when it meets the condition, and dropped otherwise. |
| Importer.ProcessFile | src/main.ts:114-240 | A document without an id in its name is left alone. Otherwise its new text and path are those of the conversion. |
| Importer.ConvertFiles | src/main.ts:110-245 | Converting the documents one after another gives the conversion pass. |
| Importer.ConversionPassWrites | src/main.ts:110-245 | A path is rewritten exactly when a document at that path carries an id in its name. |
| Importer.NoPropertiesGivesBody | src/main.ts:223-236 | A document without property lines is rewritten to its body alone. |
| Importer.NoTagEntryWithoutTags | src/importer.ts:126-175 | Without the tag branch, the structured map is exactly the assignments of the non-inline outcomes; no `tags` entry appears. |
| Importer.ConvertedFileStaysInFolder | src/main.ts:237 | A converted document stays in its folder, under one path segment ending in `.md`. |
| Importer.SelectedDocumentCarriesId | src/main.ts:115-116 | A selected document's name carries an id, so the callback never returns before settling its promise. |
| Importer.ImportFiles | src/main.ts:83-286 | The import is the conversion of the selected documents over their index, then the folder pass, then, unless a folder rename failed, the duplicate pass. |
| Importer.ProcessImports | src/importer.ts:24-85 | With the callbacks run: the conversion without tags, then the folder pass, then the duplicate pass. |
| Importer.ProcessImportsAsWritten | src/importer.ts:37-53 | As written: nothing is rewritten or moved by the conversion; only the folder and duplicate passes change paths. |
| Importer.CallbacksWouldConvert | src/importer.ts:51-53 | Had the callbacks run, every selected id-bearing Markdown document would have been rewritten. |
| Renamer.RenameFolders | src/main.ts:255-260 | The awaited loop gives the folder pass, which stops at the first failed rename. |
| Renamer.AbortedStays | src/main.ts:255-260 | After a failed rename, no later folder is renamed. |
| Renamer.FolderPassMoves | src/main.ts:247-260 | Without collisions, every folder moves to its stripped name and the pass completes. |
| Renamer.FolderTargetDropsId | src/main.ts:258 | A folder's target is its parent, `/` and its name without the trailing id (and its optional leading space). |
| Renamer.SuffixTargetsDistinct | src/main.ts:276-278 | Different suffixes give different paths, so each attempt tries a new path. |
| Renamer.FirstFreeIsFirst | src/main.ts:270-285 | The retry picks the smallest free suffix from 2 to 10, and gives up exactly when all nine are taken. |
| Renamer.RetryWithSuffix | src/main.ts:271-285 | The loop renames to the first free suffix after that many attempts, or makes nine attempts and changes nothing. |
| Renamer.RenameDuplicates | src/main.ts:270-286 | The loop over the files gives the duplicate pass. |
| Renamer.DuplicatePassFrame | src/main.ts:262-286 | Paths other than the files survive the pass, and every new path is a suffix target of one of them. |

## Findings

| source | as written | input that shows it | evidently intended | confidence | as-written member | corrected member |
|---|---|---|---|---|---|---|
| src/importer.ts:37-53 | Both `map` callbacks return an `async` function instead of running one, so `Promise.all` settles over functions nothing calls: no title is indexed, and no document is read, rewritten or moved | any listing with a selected Markdown document whose name carries an id | the index is built and every selected document is converted, as in `src/main.ts:92-245` | high; not executed | Importer.ProcessImportsAsWritten | Importer.ProcessImports |

## Left out

- The modal, the confirmation prompt, the loading text and the final `Notice` are user interface and are not modelled.
- Concurrency: the reads and the per-file callbacks run sequentially, in listing order. The order in which concurrent callbacks would interleave is not modelled.
- The `modify` and `rename` of a converted document are not awaited. A rename onto an occupied path therefore fails silently and leaves the file where it was; the model has no other failure mode.
- The vault is a flat set of paths. Renaming a folder does not move the paths beneath it, and the three listings are inputs rather than recomputed from the set.
- `DateTime.fromFormat(prop, 'DDD t')` and the ISO rendering come from luxon. They are a parameter of the model (`Oracles.parseDate`), and only the midnight test is modelled.
- `decodeURI` is a parameter (`Oracles.decodeUri`); the exception it throws on a malformed escape is not modelled.
- `Record` key order is insertion order. JavaScript's placement of integer-like keys first, and the special `__proto__` key, are not modelled.
- `$` patterns in the replacement string of `prop.replace(match, ...)` are not interpreted.
- `toLowerCase` is modelled on ASCII letters only.
- Byte encodings are out of scope: texts are sequences of characters.
- papaparse is imported but unused, and the `Property` type at `src/importer.ts:16-22` is unused; neither is modelled.
- `src/importer.ts:39-47`: even once called, the index callback does not await its read. Importer.ProcessImports assumes the index is complete before conversion.
- Classifier.RelationLinks: its contract states only the length, which keeps the recursive function cheap to verify; the content of each link is stated by Classifier.RelationLinkAt.
- Strings.ReplaceChar: its contract states only the length, which keeps the recursive function cheap to verify; the content is stated by Strings.ReplaceCharAt and Strings.SplitJoinReplacesChar.
- One might expect that stripping an id and then extracting one finds nothing. The code does not guarantee this: a name ending in two ids keeps the first (NotionId.StripLeavesEarlierId). The model follows the code.
