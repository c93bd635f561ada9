// The conversion of one document's properties (src/main.ts:146-221,
// src/importer.ts:129-175): each `key: value` pair is classified, first
// match wins, as a date, a checkbox, a relation list, a value with inline
// links, a tag list (main.ts only, when tags are enabled) or plain text, and
// written into the structured map, the listed map or the tag list.

module Classifier {
  import opened Strings
  import opened NotionId
  import opened OrderedRecord
  import TitleIndex

  /** What the date library reports about a value it parsed with the format
      `DDD t`: the time of day and the two ISO renderings. */
  datatype DateTime = DateTime(hour: int, minute: int, isoDate: String, isoDateTime: String)

  /** The library calls the converter makes: `DateTime.fromFormat(prop,
      'DDD t')` (`None` when it reports an invalid reason) and `decodeURI`. */
  datatype Oracles = Oracles(parseDate: String -> Option<DateTime>, decodeUri: String -> String)

  /** `prop.replace('\n', ' ')`: only the first line feed becomes a space. */
  function Unfold(raw: String): (prop: String)
    ensures IndexOf(raw, "\n") < 0 ==> prop == raw
  {
    ReplaceFirst(raw, "\n", " ")
  }

  /** Midnight renders as the ISO date, any other time as the ISO date and
      time without offset. */
  function RenderDate(t: DateTime): String {
    if t.hour == 0 && t.minute == 0 then t.isoDate else t.isoDateTime
  }

  /** `/^(Yes|No)$/.test(prop)` */
  predicate IsCheckbox(prop: String) {
    prop == "Yes" || prop == "No"
  }

  // ---------------------------------------------------------------------
  // Relations

  /** Every `", "`-separated token of the value carries an id. */
  predicate IsRelationList(prop: String) {
    forall k :: 0 <= k < |Split(prop, ", ")| ==> IsNotionId(Split(prop, ", ")[k])
  }

  /** The text between `[[` and `]]` for one relation token: the indexed
      title, `undefined` for an id the index lacks, or the token itself when
      it has no id. */
  function RelationTitle(index: TitleIndex.Index, link: String): String {
    match GetNotionId(link)
    case None => link
    case Some(id) => if id in index then index[id] else "undefined"
  }

  function RelationLinks(index: TitleIndex.Index, links: seq<String>): (r: seq<String>)
    ensures |r| == |links|
  {
    if |links| == 0 then []
    else ["[[" + RelationTitle(index, links[0]) + "]]"] + RelationLinks(index, links[1..])
  }

  /** Each token becomes one `[[title]]` link, in place. */
  lemma {:induction false} RelationLinkAt(index: TitleIndex.Index, links: seq<String>, k: nat)
    requires k < |links|
    ensures RelationLinks(index, links)[k] == "[[" + RelationTitle(index, links[k]) + "]]"
    decreases k
  {
    if k > 0 {
      RelationLinkAt(index, links[1..], k - 1);
      assert links[1..][k - 1] == links[k];
    }
  }

  /** The relation rendering: `[[x1]], ..., [[xn]]`. */
  function RenderRelations(index: TitleIndex.Index, prop: String): String {
    Join(RelationLinks(index, Split(prop, ", ")), ", ")
  }

  // ---------------------------------------------------------------------
  // Inline links

  /** `tokens.filter((x) => isNotionId(x))` */
  function FilterIds(tokens: seq<String>): (r: seq<String>)
    ensures |r| <= |tokens|
    ensures forall k :: 0 <= k < |r| ==> IsNotionId(r[k]) && r[k] in tokens
    ensures forall k :: 0 <= k < |tokens| && IsNotionId(tokens[k]) ==> tokens[k] in r
  {
    if |tokens| == 0 then []
    else (if IsNotionId(tokens[0]) then [tokens[0]] else []) + FilterIds(tokens[1..])
  }

  /** The candidates keep the tokens' order and repetitions, so a value that
      names the same id twice is visited twice. */
  lemma {:induction false} FilterIdsAppend(a: seq<String>, b: seq<String>)
    ensures FilterIds(a + b) == FilterIds(a) + FilterIds(b)
    ensures |a| == 1 ==> FilterIds(a) == if IsNotionId(a[0]) then a else []
    decreases |a|
  {
    if |a| == 0 {
      assert a + b == b;
    } else {
      var head := if IsNotionId(a[0]) then [a[0]] else [];
      assert (a + b)[0] == a[0];
      assert (a + b)[1..] == a[1..] + b;
      FilterIdsAppend(a[1..], b);
      assert FilterIds(a + b) == head + FilterIds(a[1..] + b);
      assert FilterIds(a) == head + FilterIds(a[1..]);
      if |a| == 1 {
        assert a[1..] == [];
      }
    }
  }

  /** The space-separated tokens of the value that carry an id. */
  function Candidates(prop: String): seq<String> {
    FilterIds(Split(prop, " "))
  }

  /** The title a candidate resolves to: its decoded id must be indexed with
      a non-empty title (`if (!id || !idsToTitles[id]) continue`). */
  function ResolvedTitle(o: Oracles, index: TitleIndex.Index, m: String): (t: Option<String>)
    ensures var id := GetNotionId(o.decodeUri(m));
            t.Some? <==> id.Some? && id.value in index && index[id.value] != []
    ensures var id := GetNotionId(o.decodeUri(m));
            t.Some? ==> t.value == index[id.value] && t.value != []
  {
    var id := GetNotionId(o.decodeUri(m));
    if id.Some? && id.value in index && index[id.value] != [] then Some(index[id.value]) else None
  }

  /** One iteration of the inline-link loop: the first occurrence of the
      candidate is replaced by a wiki link to its title. */
  function ResolveStep(o: Oracles, index: TitleIndex.Index, prop: String, m: String): String {
    match ResolvedTitle(o, index, m)
    case None => prop
    case Some(t) => ReplaceFirst(prop, m, "[[" + t + "]]")
  }

  /** The value after the loop has visited the candidates `ms` in order. */
  function ResolveAll(o: Oracles, index: TitleIndex.Index, prop: String, ms: seq<String>): String
    decreases |ms|
  {
    if |ms| == 0 then prop
    else ResolveStep(o, index, ResolveAll(o, index, prop, ms[..|ms| - 1]), ms[|ms| - 1])
  }

  /** The loop's next visit: a candidate whose decoded id has a non-empty
      indexed title replaces its first occurrence in the value so far by a
      link to that title, and the text around it is kept. */
  lemma ResolveLast(o: Oracles, index: TitleIndex.Index, prop: String, ms: seq<String>, m: String, id: String)
    requires GetNotionId(o.decodeUri(m)) == Some(id) && id in index && index[id] != []
    requires IndexOf(ResolveAll(o, index, prop, ms), m) >= 0
    ensures var before := ResolveAll(o, index, prop, ms);
            var i := IndexOf(before, m);
            ResolveAll(o, index, prop, ms + [m])
            == before[..i] + ("[[" + index[id] + "]]") + before[i + |m|..]
  {
    ResolveSnoc(o, index, prop, ms, m);
    ResolveStepLinks(o, index, ResolveAll(o, index, prop, ms), m, id);
  }

  lemma ResolveSnoc(o: Oracles, index: TitleIndex.Index, prop: String, ms: seq<String>, m: String)
    ensures ResolveAll(o, index, prop, ms + [m]) == ResolveStep(o, index, ResolveAll(o, index, prop, ms), m)
  {
    assert (ms + [m])[..|ms|] == ms;
  }

  lemma ResolveStepLinks(o: Oracles, index: TitleIndex.Index, before: String, m: String, id: String)
    requires GetNotionId(o.decodeUri(m)) == Some(id) && id in index && index[id] != []
    requires IndexOf(before, m) >= 0
    ensures var i := IndexOf(before, m);
            ResolveStep(o, index, before, m) == before[..i] + ("[[" + index[id] + "]]") + before[i + |m|..]
  {
    var link := "[[" + index[id] + "]]";
    assert ResolvedTitle(o, index, m) == Some(index[id]);
    assert ResolveStep(o, index, before, m) == ReplaceFirst(before, m, link);
    ReplaceFirstAt(before, m, link);
  }

  /** `for (let match of matches) { ... prop = prop.replace(match, ...) }` */
  method ResolveInlineLinks(o: Oracles, index: TitleIndex.Index, prop0: String, matches: seq<String>)
    returns (prop: String)
    ensures prop == ResolveAll(o, index, prop0, matches)
  {
    prop := prop0;
    for n := 0 to |matches|
      invariant prop == ResolveAll(o, index, prop0, matches[..n])
    {
      assert matches[..n + 1][..n] == matches[..n];
      var candidate := matches[n];
      var id := GetNotionId(o.decodeUri(candidate));
      if id.None? || id.value !in index || index[id.value] == [] {
        continue;
      }
      prop := ReplaceFirst(prop, candidate, "[[" + index[id.value] + "]]");
    }
    assert matches[..|matches|] == matches;
  }

  /** Candidates that resolve to no title leave the value as it was. */
  lemma {:induction false} UnresolvedLeaveValue(o: Oracles, index: TitleIndex.Index, prop: String, ms: seq<String>)
    requires forall k :: 0 <= k < |ms| ==> ResolvedTitle(o, index, ms[k]).None?
    ensures ResolveAll(o, index, prop, ms) == prop
    decreases |ms|
  {
    if |ms| > 0 {
      UnresolvedLeaveValue(o, index, prop, ms[..|ms| - 1]);
    }
  }

  // ---------------------------------------------------------------------
  // Tag lists

  predicate IsTagChar(c: char) {
    'a' <= c <= 'z' || 'A' <= c <= 'Z' || '0' <= c <= '9' || c == ' '
  }

  predicate IsTagWord(w: String) {
    |w| > 0 && forall i :: 0 <= i < |w| ==> IsTagChar(w[i])
  }

  /** The length of the longest prefix made of `[a-zA-Z0-9 ]`. */
  function LeadingTagChars(s: String): (n: nat)
    ensures n <= |s|
    ensures forall i :: 0 <= i < n ==> IsTagChar(s[i])
    ensures n < |s| ==> !IsTagChar(s[n])
  {
    if |s| == 0 || !IsTagChar(s[0]) then 0 else 1 + LeadingTagChars(s[1..])
  }

  /** `/^([a-zA-Z0-9 ]+(, |$))+$/.test(s)`: runs of `[a-zA-Z0-9 ]`, each
      followed by `", "` or by the end, the last one possibly by `", "` too.
      A run always extends to the next comma, so the decomposition is the
      one found by taking the longest run each time. */
  predicate IsTagList(s: String)
    decreases |s|
  {
    var n := LeadingTagChars(s);
    n > 0 && (n == |s| || (n + 2 <= |s| && s[n..n + 2] == ", " && (n + 2 == |s| || IsTagList(s[n + 2..]))))
  }

  /** `tag.split(/\s/).length < 3`: a token is kept when it has fewer than
      two white-space characters. */
  predicate KeepsTag(tag: String) {
    |SplitWhere(tag, IsJsWhitespace)| < 3
  }

  function KeptTags(tokens: seq<String>): (kept: seq<String>)
    ensures |kept| <= |tokens|
    ensures forall k :: 0 <= k < |kept| ==> kept[k] in tokens && CountWhere(kept[k], IsJsWhitespace) < 2
    ensures forall k :: 0 <= k < |tokens| && CountWhere(tokens[k], IsJsWhitespace) < 2 ==> tokens[k] in kept
  {
    if |tokens| == 0 then []
    else (if KeepsTag(tokens[0]) then [tokens[0]] else []) + KeptTags(tokens[1..])
  }

  /** The kept tags keep the tokens' order and repetitions. */
  lemma {:induction false} KeptTagsAppend(a: seq<String>, b: seq<String>)
    ensures KeptTags(a + b) == KeptTags(a) + KeptTags(b)
    ensures |a| == 1 ==> KeptTags(a) == if CountWhere(a[0], IsJsWhitespace) < 2 then a else []
    decreases |a|
  {
    if |a| == 0 {
      assert a + b == b;
      assert KeptTags(a) == [];
    } else {
      assert (a + b)[0] == a[0];
      assert (a + b)[1..] == a[1..] + b;
      KeptTagsAppend(a[1..], b);
      var head := if KeepsTag(a[0]) then [a[0]] else [];
      KeptTagsCons(a, a + b);
      KeptTagsCons(a, a);
      assert KeptTags(a + b) == head + (KeptTags(a[1..]) + KeptTags(b));
      assert KeptTags(a) == head + KeptTags(a[1..]);
      SeqAssoc(head, KeptTags(a[1..]), KeptTags(b));
      if |a| == 1 {
        KeptTagsSingle(a);
      }
    }
  }

  lemma SeqAssoc(x: seq<String>, y: seq<String>, z: seq<String>)
    ensures x + (y + z) == (x + y) + z
  {
  }

  lemma KeptTagsCons(a: seq<String>, c: seq<String>)
    requires |a| > 0 && |c| > 0 && c[0] == a[0]
    ensures KeptTags(c) == (if KeepsTag(a[0]) then [a[0]] else []) + KeptTags(c[1..])
  {
  }

  /** A single token is kept exactly when it has fewer than two white-space
      characters. */
  lemma KeptTagsSingle(a: seq<String>)
    requires |a| == 1
    ensures KeptTags(a) == if CountWhere(a[0], IsJsWhitespace) < 2 then a else []
  {
    assert a[1..] == [] && a == [a[0]];
    assert |SplitWhere(a[0], IsJsWhitespace)| == CountWhere(a[0], IsJsWhitespace) + 1;
  }

  /** `s.split(' ').join('-')` */
  function Hyphenate(s: String): String {
    Join(Split(s, " "), "-")
  }

  /** The tag for one token: `key/token` with spaces turned into hyphens,
      lower-cased. */
  function TagName(key: String, tag: String): String {
    AsciiLower(Hyphenate(key) + "/" + Hyphenate(tag))
  }

  function TagNames(key: String, kept: seq<String>): (names: seq<String>)
    ensures |names| == |kept|
    ensures forall k :: 0 <= k < |kept| ==> names[k] == TagName(key, kept[k])
  {
    if |kept| == 0 then [] else [TagName(key, kept[0])] + TagNames(key, kept[1..])
  }

  /** The value kept for a tag list: the kept tokens run together with no
      separator, the single kept token, or the value itself. */
  function TagValue(prop: String, kept: seq<String>): (v: String)
    ensures |kept| == 0 ==> v == prop
    ensures |kept| == 1 ==> v == kept[0]
    ensures |kept| >= 2 ==> v == Concat(kept)
  {
    if |kept| > 1 then Concat(kept) else if |kept| == 1 then kept[0] else prop
  }

  // ---------------------------------------------------------------------
  // Classification of one property

  datatype Kind = Date | Checkbox | Relation | InlineLinks | TagList | Text

  /** Where a property goes, what it becomes, and the tags it adds. */
  datatype Outcome = Outcome(kind: Kind, value: String, tags: seq<String>)

  /** The `forEach` body for one `key: raw` pair. */
  function Classify(o: Oracles, index: TitleIndex.Index, addTags: bool, key: String, raw: String): (out: Outcome)
    // first match wins, in the order of the source
    ensures out.kind == Date <==> o.parseDate(Unfold(raw)).Some?
    ensures out.kind == Checkbox <==> o.parseDate(Unfold(raw)).None? && IsCheckbox(Unfold(raw))
    ensures out.kind == Relation <==>
              o.parseDate(Unfold(raw)).None? && !IsCheckbox(Unfold(raw)) && IsRelationList(Unfold(raw))
    ensures out.kind == InlineLinks <==>
              o.parseDate(Unfold(raw)).None? && !IsCheckbox(Unfold(raw)) && !IsRelationList(Unfold(raw))
              && |Candidates(Unfold(raw))| > 0
    ensures out.kind == TagList <==>
              o.parseDate(Unfold(raw)).None? && !IsCheckbox(Unfold(raw)) && !IsRelationList(Unfold(raw))
              && |Candidates(Unfold(raw))| == 0 && IsTagList(Unfold(raw)) && addTags
    // what each branch produces
    ensures out.kind == Date ==>
              var t := o.parseDate(Unfold(raw)).value;
              out.value == if t.hour == 0 && t.minute == 0 then t.isoDate else t.isoDateTime
    ensures out.kind == Checkbox ==> (out.value == "true" <==> Unfold(raw) == "Yes")
    ensures out.kind == Checkbox ==> (out.value == "false" <==> Unfold(raw) == "No")
    ensures out.kind == Relation ==> out.value == RenderRelations(index, Unfold(raw))
    ensures out.kind == InlineLinks ==> out.value == ResolveAll(o, index, Unfold(raw), Candidates(Unfold(raw)))
    ensures out.kind == Text ==> out.value == Unfold(raw)
    ensures out.tags != [] ==> out.kind == TagList && addTags
  {
    var prop := Unfold(raw);
    match o.parseDate(prop)
    case Some(t) => Outcome(Date, RenderDate(t), [])
    case None =>
      if IsCheckbox(prop) then Outcome(Checkbox, if prop == "Yes" then "true" else "false", [])
      else if IsRelationList(prop) then Outcome(Relation, RenderRelations(index, prop), [])
      else
        var matches := Candidates(prop);
        if |matches| > 0 then Outcome(InlineLinks, ResolveAll(o, index, prop, matches), [])
        else if IsTagList(prop) && addTags then
          var kept := KeptTags(Split(prop, ", "));
          Outcome(TagList, TagValue(prop, kept), TagNames(key, kept))
        else Outcome(Text, prop, [])
  }

  /** The same classification, as the source computes it, with the
      inline-link loop run as a loop. */
  method ConvertProperty(o: Oracles, index: TitleIndex.Index, addTags: bool, key: String, raw: String)
    returns (out: Outcome)
    ensures out == Classify(o, index, addTags, key, raw)
  {
    var prop := ReplaceFirst(raw, "\n", " ");
    var time := o.parseDate(prop);
    if time.Some? {
      out := Outcome(Date, RenderDate(time.value), []);
    } else if prop == "Yes" || prop == "No" {
      out := Outcome(Checkbox, if prop == "Yes" then "true" else "false", []);
    } else if IsRelationList(prop) {
      out := Outcome(Relation, RenderRelations(index, prop), []);
    } else {
      var matches := Candidates(prop);
      if |matches| > 0 {
        prop := ResolveInlineLinks(o, index, prop, matches);
        out := Outcome(InlineLinks, prop, []);
      } else if IsTagList(prop) && addTags {
        var thisTags := KeptTags(Split(prop, ", "));
        out := Outcome(TagList, TagValue(prop, thisTags), TagNames(key, thisTags));
      } else {
        out := Outcome(Text, prop, []);
      }
    }
  }

  // ---------------------------------------------------------------------
  // Converting all properties of a document

  /** `propertyMap`, `listedProperties` and `tags` while the loop runs. */
  datatype Converted = Converted(structured: Record, listed: Record, tags: seq<String>)

  /** Storing one outcome: inline-link values go to the listed map, all
      others to the structured map. */
  function Store(st: Converted, key: String, out: Outcome): Converted {
    if out.kind == InlineLinks then Converted(st.structured, Put(st.listed, key, out.value), st.tags + out.tags)
    else Converted(Put(st.structured, key, out.value), st.listed, st.tags + out.tags)
  }

  /** The outcome of each property, in order. */
  function Outcomes(o: Oracles, index: TitleIndex.Index, addTags: bool, props: seq<Entry>): (outs: seq<Outcome>)
    ensures |outs| == |props|
    ensures forall i :: 0 <= i < |props| ==> outs[i] == Classify(o, index, addTags, props[i].key, props[i].value)
  {
    if |props| == 0 then []
    else [Classify(o, index, addTags, props[0].key, props[0].value)] + Outcomes(o, index, addTags, props[1..])
  }

  /** The state after the `forEach` has stored the outcomes `outs` of
      `props`, in order. */
  function StoreAll(props: seq<Entry>, outs: seq<Outcome>): Converted
    requires |outs| == |props|
    decreases |props|
  {
    if |props| == 0 then Converted([], [], [])
    else Store(StoreAll(props[..|props| - 1], outs[..|outs| - 1]), props[|props| - 1].key, outs[|outs| - 1])
  }

  /** One more turn of the loop stores one more outcome. */
  lemma StoreAllStep(props: seq<Entry>, outs: seq<Outcome>, n: nat)
    requires |outs| == |props| && n < |props|
    ensures StoreAll(props[..n + 1], outs[..n + 1]) == Store(StoreAll(props[..n], outs[..n]), props[n].key, outs[n])
  {
    assert props[..n + 1][..n] == props[..n];
    assert outs[..n + 1][..n] == outs[..n];
  }

  lemma StoreAllWhole(props: seq<Entry>, outs: seq<Outcome>)
    requires |outs| == |props|
    ensures StoreAll(props[..|props|], outs[..|outs|]) == StoreAll(props, outs)
  {
    assert props[..|props|] == props;
    assert outs[..|outs|] == outs;
  }

  /** The state after the `forEach` has visited `props` in order. */
  function ConvertAll(o: Oracles, index: TitleIndex.Index, addTags: bool, props: seq<Entry>): Converted {
    StoreAll(props, Outcomes(o, index, addTags, props))
  }

  /** Lines 220-221: one `tags` entry, `[t1, t2, ...]`, when tags are
      enabled and some were produced; it overwrites an existing `tags`
      property where it stands. */
  function WithTags(structured: Record, tags: seq<String>, addTags: bool): (r: Record)
    ensures addTags && |tags| > 0 ==> Get(r, "tags") == Some("[" + Join(tags, ", ") + "]")
    ensures addTags && |tags| > 0 ==> forall k :: k != "tags" ==> Get(r, k) == Get(structured, k)
    ensures addTags && |tags| > 0 ==>
              Keys(r) == if "tags" in Keys(structured) then Keys(structured) else Keys(structured) + ["tags"]
    ensures !(addTags && |tags| > 0) ==> r == structured
  {
    if addTags && |tags| > 0 then Put(structured, "tags", "[" + Join(tags, ", ") + "]") else structured
  }

  /** The `forEach` over the document's properties followed by the tag
      entry: the structured and the listed map the document is rendered
      from. */
  method ConvertProperties(o: Oracles, index: TitleIndex.Index, addTags: bool, props: seq<Entry>)
    returns (propertyMap: Record, listedProperties: Record)
    ensures var st := ConvertAll(o, index, addTags, props);
            propertyMap == WithTags(st.structured, st.tags, addTags) && listedProperties == st.listed
  {
    propertyMap, listedProperties := [], [];
    var tags: seq<String> := [];
    ghost var outs := Outcomes(o, index, addTags, props);
    for n := 0 to |props|
      invariant Converted(propertyMap, listedProperties, tags) == StoreAll(props[..n], outs[..n])
    {
      StoreAllStep(props, outs, n);
      var title, prop := props[n].key, props[n].value;
      var out := ConvertProperty(o, index, addTags, title, prop);
      assert out == outs[n];
      if out.kind == InlineLinks {
        listedProperties := Put(listedProperties, title, out.value);
      } else {
        propertyMap := Put(propertyMap, title, out.value);
      }
      tags := tags + out.tags;
    }
    StoreAllWhole(props, outs);
    if addTags && |tags| > 0 {
      propertyMap := Put(propertyMap, "tags", "[" + Join(tags, ", ") + "]");
    }
  }

  // ---------------------------------------------------------------------
  // Properties of the classification

  /** Values cut from a property line hold no line terminator, so the
      line-feed replacement leaves them as they are. */
  lemma UnfoldSingleLine(raw: String)
    requires NoLineTerminator(raw)
    ensures Unfold(raw) == raw
  {
    forall j | 0 <= j ensures !OccursAt(raw, "\n", j) {
      if j + 1 <= |raw| {
        assert raw[j..j + 1] == [raw[j]];
        assert IsLineTerminator('\n');
      }
    }
    assert IndexOfFrom(raw, "\n", 0) < 0;
  }

  /** A single-line value that is no date, no checkbox, no relation list,
      has no id token and (with tags enabled) is no tag list is copied
      unchanged into the structured map. */
  lemma PlainValueCopied(o: Oracles, index: TitleIndex.Index, addTags: bool, key: String, raw: String)
    requires NoLineTerminator(raw)
    requires o.parseDate(raw).None? && !IsCheckbox(raw) && !IsRelationList(raw) && |Candidates(raw)| == 0
    requires !(addTags && IsTagList(raw))
    ensures Classify(o, index, addTags, key, raw) == Outcome(Text, raw, [])
  {
    UnfoldSingleLine(raw);
  }

  /** In a relation list every token yields an id, so no token is rendered
      as itself: each becomes its indexed title, or `undefined`. */
  lemma RelationTokensResolve(index: TitleIndex.Index, prop: String)
    requires IsRelationList(prop)
    ensures |RelationLinks(index, Split(prop, ", "))| == |Split(prop, ", ")|
    ensures forall k :: 0 <= k < |Split(prop, ", ")| ==>
              GetNotionId(Split(prop, ", ")[k]).Some?
              && RelationLinks(index, Split(prop, ", "))[k] ==
                 "[[" + (if GetNotionId(Split(prop, ", ")[k]).value in index
                         then index[GetNotionId(Split(prop, ", ")[k]).value] else "undefined") + "]]"
  {
    var tokens := Split(prop, ", ");
    forall k | 0 <= k < |tokens| ensures GetNotionId(tokens[k]).Some? {
      IdRecognitionAgrees(tokens[k]);
    }
    forall k | 0 <= k < |tokens|
      ensures RelationLinks(index, tokens)[k] == "[[" + RelationTitle(index, tokens[k]) + "]]"
    {
      RelationLinkAt(index, tokens, k);
    }
  }

  /** A tag is the hyphenated key and token, lower-cased: it holds no space
      and no upper-case ASCII letter, and the only `/` added is the one
      between key and token. */
  lemma TagNameShape(key: String, tag: String)
    ensures TagName(key, tag) ==
            AsciiLower(ReplaceChar(key, ' ', '-')) + "/" + AsciiLower(ReplaceChar(tag, ' ', '-'))
    ensures forall i :: 0 <= i < |TagName(key, tag)| ==>
              TagName(key, tag)[i] != ' ' && !('A' <= TagName(key, tag)[i] <= 'Z')
  {
    SplitJoinReplacesChar(key, ' ', '-');
    SplitJoinReplacesChar(tag, ' ', '-');
    var a, b := ReplaceChar(key, ' ', '-'), ReplaceChar(tag, ' ', '-');
    assert Hyphenate(key) == a && Hyphenate(tag) == b;
    var h := a + "/" + b;
    assert TagName(key, tag) == AsciiLower(h);
    LoweredJoin(a, b);
    SpacesReplaced(key);
    SpacesReplaced(tag);
    ThreePartsNoSpace(a, "/", b);
    NoSpaceLowered(h);
  }

  lemma LoweredJoin(a: String, b: String)
    ensures AsciiLower(a + "/" + b) == AsciiLower(a) + "/" + AsciiLower(b)
  {
    assert a + "/" + b == a + ("/" + b);
    AsciiLowerAppend(a, "/" + b);
    AsciiLowerAppend("/", b);
    assert AsciiLower("/") == "/";
  }

  lemma SpacesReplaced(s: String)
    ensures forall i :: 0 <= i < |ReplaceChar(s, ' ', '-')| ==> ReplaceChar(s, ' ', '-')[i] != ' '
  {
    forall i | 0 <= i < |ReplaceChar(s, ' ', '-')| ensures ReplaceChar(s, ' ', '-')[i] != ' ' {
      ReplaceCharAt(s, ' ', '-', i);
    }
  }

  lemma ThreePartsNoSpace(a: String, b: String, c: String)
    requires forall i :: 0 <= i < |a| ==> a[i] != ' '
    requires forall i :: 0 <= i < |b| ==> b[i] != ' '
    requires forall i :: 0 <= i < |c| ==> c[i] != ' '
    ensures forall i :: 0 <= i < |a + b + c| ==> (a + b + c)[i] != ' '
  {
    forall i | 0 <= i < |a + b + c| ensures (a + b + c)[i] != ' ' {
      if i < |a| {
        assert (a + b + c)[i] == a[i];
      } else if i < |a| + |b| {
        assert (a + b + c)[i] == b[i - |a|];
      } else {
        assert (a + b + c)[i] == c[i - |a| - |b|];
      }
    }
  }

  /** Lower-casing a string without spaces gives one without spaces or
      upper-case letters. */
  lemma NoSpaceLowered(s: String)
    requires forall i :: 0 <= i < |s| ==> s[i] != ' '
    ensures forall i :: 0 <= i < |AsciiLower(s)| ==> AsciiLower(s)[i] != ' ' && !('A' <= AsciiLower(s)[i] <= 'Z')
  {
  }

  /** The shape of a tag list stated on its `", "`-separated tokens: every
      token but the last is a non-empty run of `[a-zA-Z0-9 ]`, and so is the
      last one unless the list ends with `", "`. */
  predicate TagTokens(parts: seq<String>) {
    |parts| >= 1
    && (forall k :: 0 <= k < |parts| - 1 ==> IsTagWord(parts[k]))
    && (IsTagWord(parts[|parts| - 1]) || (|parts| >= 2 && parts[|parts| - 1] == []))
  }

  /** No `", "` occurs inside a run of tag characters. */
  lemma SeparatorAfterRun(s: String, n: nat)
    requires n <= |s| && forall i :: 0 <= i < n ==> IsTagChar(s[i])
    ensures IndexOf(s, ", ") < 0 || IndexOf(s, ", ") >= n
    ensures n + 2 <= |s| && s[n..n + 2] == ", " ==> IndexOf(s, ", ") == n
  {
    var i := IndexOfFrom(s, ", ", 0);
    if 0 <= i {
      assert s[i..i + 2][0] == s[i] == ',';
    }
    forall j | 0 <= j < n ensures !OccursAt(s, ", ", j) {
      if j + 2 <= |s| {
        assert s[j..j + 2][0] == s[j];
      }
    }
    if n + 2 <= |s| && s[n..n + 2] == ", " {
      assert OccursAt(s, ", ", n);
    }
  }

  /** The recogniser for the tag-list pattern agrees with the token shape
      the branch then splits on. */
  lemma {:induction false} TagListBySplit(s: String)
    ensures IsTagList(s) <==> TagTokens(Split(s, ", "))
    decreases |s|
  {
    var n := LeadingTagChars(s);
    var i := IndexOf(s, ", ");
    SeparatorAfterRun(s, n);
    if i < 0 {
      assert Split(s, ", ") == [s];
      if n < |s| {
        assert !IsTagWord(s);
      }
    } else {
      var rest := s[i + 2..];
      assert Split(s, ", ") == [s[..i]] + Split(rest, ", ");
      TagListStep(s, i);
      TagListBySplit(rest);
      SplitSingle(rest);
      TagTokensCons(s[..i], Split(rest, ", "), rest);
    }
  }

  /** A list that contains `", "` is a tag list when its first run reaches
      the first separator and the remainder is empty or again a tag list. */
  lemma TagListStep(s: String, i: nat)
    requires IndexOf(s, ", ") == i
    ensures IsTagList(s) <==> IsTagWord(s[..i]) && (i + 2 == |s| || IsTagList(s[i + 2..]))
  {
    SeparatorAt(s, i);
    if IsTagWord(s[..i]) {
      RunReachesSeparator(s, i);
    }
    if IsTagList(s) {
      SeparatorAfterRun(s, LeadingTagChars(s));
      RunReachesSeparator(s, i);
    }
  }

  lemma SeparatorAt(s: String, i: nat)
    requires IndexOf(s, ", ") == i
    ensures i + 2 <= |s| && s[i..i + 2] == ", " && s[i] == ','
  {
    assert IndexOfFrom(s, ", ", 0) == i;
    assert s[i..i + 2][0] == s[i];
  }

  /** The first run of tag characters ends at the first separator exactly
      when everything before that separator is a tag character. */
  lemma RunReachesSeparator(s: String, i: nat)
    requires IndexOf(s, ", ") == i
    ensures IsTagWord(s[..i]) <==> LeadingTagChars(s) == i && i > 0
  {
    var n := LeadingTagChars(s);
    SeparatorAt(s, i);
    SeparatorAfterRun(s, n);
    assert forall j :: 0 <= j < i ==> s[..i][j] == s[j];
    if IsTagWord(s[..i]) {
      assert forall j :: 0 <= j < i ==> IsTagChar(s[j]);
      assert n < |s| && !IsTagChar(s[n]);
    }
  }

  lemma SplitSingle(s: String)
    ensures |Split(s, ", ")| == 1 ==> Split(s, ", ") == [s]
  {
  }

  lemma TagTokensCons(w: String, r: seq<String>, rest: String)
    requires |r| >= 1 && (|r| == 1 ==> r == [rest])
    ensures TagTokens([w] + r) <==> IsTagWord(w) && ((|r| == 1 && rest == []) || TagTokens(r))
  {
    var parts := [w] + r;
    assert parts[|parts| - 1] == r[|r| - 1];
    if IsTagWord(w) && TagTokens(r) {
      forall k | 0 <= k < |parts| - 1 ensures IsTagWord(parts[k]) {
        if k > 0 {
          assert parts[k] == r[k - 1];
        }
      }
    }
    if TagTokens(parts) {
      assert IsTagWord(parts[0]);
      forall k | 0 <= k < |r| - 1 ensures IsTagWord(r[k]) {
        assert r[k] == parts[k + 1];
      }
    }
  }

  // ---------------------------------------------------------------------
  // Properties of the conversion of a whole document

  /** The pairs the loop writes into the structured map and into the
      listed map, in order. */
  function StructuredPairs(props: seq<Entry>, outs: seq<Outcome>): seq<Entry>
    requires |outs| == |props|
    decreases |props|
  {
    if |props| == 0 then []
    else
      var init := StructuredPairs(props[..|props| - 1], outs[..|outs| - 1]);
      var out := outs[|outs| - 1];
      if out.kind == InlineLinks then init else init + [Entry(props[|props| - 1].key, out.value)]
  }

  function ListedPairs(props: seq<Entry>, outs: seq<Outcome>): seq<Entry>
    requires |outs| == |props|
    decreases |props|
  {
    if |props| == 0 then []
    else
      var init := ListedPairs(props[..|props| - 1], outs[..|outs| - 1]);
      var out := outs[|outs| - 1];
      if out.kind == InlineLinks then init + [Entry(props[|props| - 1].key, out.value)] else init
  }

  /** Storing an inline-link outcome extends the listed pairs. */
  lemma StoreListed(st: Converted, key: String, out: Outcome, lp: seq<Entry>)
    requires st.listed == PutAll([], lp) && out.kind == InlineLinks
    ensures Store(st, key, out).structured == st.structured
    ensures Store(st, key, out).listed == PutAll([], lp + [Entry(key, out.value)])
  {
    PutAllSnoc([], lp, Entry(key, out.value));
  }

  /** Storing any other outcome extends the structured pairs. */
  lemma StoreStructured(st: Converted, key: String, out: Outcome, sp: seq<Entry>)
    requires st.structured == PutAll([], sp) && out.kind != InlineLinks
    ensures Store(st, key, out).structured == PutAll([], sp + [Entry(key, out.value)])
    ensures Store(st, key, out).listed == st.listed
  {
    PutAllSnoc([], sp, Entry(key, out.value));
  }

  /** The two maps are the structured and the listed pairs assigned in
      order. */
  lemma {:induction false} StoreAllAssigns(props: seq<Entry>, outs: seq<Outcome>)
    requires |outs| == |props|
    ensures StoreAll(props, outs).structured == PutAll([], StructuredPairs(props, outs))
    ensures StoreAll(props, outs).listed == PutAll([], ListedPairs(props, outs))
    decreases |props|
  {
    if |props| > 0 {
      var init, initOuts := props[..|props| - 1], outs[..|outs| - 1];
      var key, out := props[|props| - 1].key, outs[|outs| - 1];
      var st := StoreAll(init, initOuts);
      StoreAllAssigns(init, initOuts);
      if out.kind == InlineLinks {
        StoreListed(st, key, out, ListedPairs(init, initOuts));
      } else {
        StoreStructured(st, key, out, StructuredPairs(init, initOuts));
      }
    }
  }

  /** So each key keeps the place of its first assignment and holds the
      value of its last one, in the structured and in the listed map. */
  lemma StoreAllLastWins(props: seq<Entry>, outs: seq<Outcome>, k: String)
    requires |outs| == |props|
    ensures Get(StoreAll(props, outs).structured, k) == LastValue(StructuredPairs(props, outs), k)
    ensures Get(StoreAll(props, outs).listed, k) == LastValue(ListedPairs(props, outs), k)
    ensures Keys(StoreAll(props, outs).structured) == AppendNew([], Keys(StructuredPairs(props, outs)))
    ensures Keys(StoreAll(props, outs).listed) == AppendNew([], Keys(ListedPairs(props, outs)))
  {
    StoreAllAssigns(props, outs);
    PutAllLastWins([], StructuredPairs(props, outs), k);
    PutAllLastWins([], ListedPairs(props, outs), k);
    PutAllKeys([], StructuredPairs(props, outs));
    PutAllKeys([], ListedPairs(props, outs));
  }

  /** Every property lands in one of the two maps, under its own key, and
      nothing else does; neither map repeats a key. */
  lemma {:induction false} StoreAllKeys(props: seq<Entry>, outs: seq<Outcome>, k: String)
    requires |outs| == |props|
    ensures (k in Keys(StoreAll(props, outs).structured) || k in Keys(StoreAll(props, outs).listed))
            <==> k in Keys(props)
    ensures DistinctKeys(StoreAll(props, outs).structured)
    ensures DistinctKeys(StoreAll(props, outs).listed)
    decreases |props|
  {
    if |props| > 0 {
      var init, initOuts := props[..|props| - 1], outs[..|outs| - 1];
      var key := props[|props| - 1].key;
      StoreAllKeys(init, initOuts, k);
      StoreKeys(StoreAll(init, initOuts), key, outs[|outs| - 1], k);
      KeysSnoc(props, k);
    }
  }

  /** Storing one outcome adds its key to one of the maps and keeps both
      free of repeated keys. */
  lemma StoreKeys(st: Converted, key: String, out: Outcome, k: String)
    ensures var st' := Store(st, key, out);
            (k in Keys(st'.structured) || k in Keys(st'.listed))
            <==> (k in Keys(st.structured) || k in Keys(st.listed) || k == key)
    ensures DistinctKeys(st.structured) ==> DistinctKeys(Store(st, key, out).structured)
    ensures DistinctKeys(st.listed) ==> DistinctKeys(Store(st, key, out).listed)
  {
    if out.kind == InlineLinks {
      assert Store(st, key, out) == Converted(st.structured, Put(st.listed, key, out.value), st.tags + out.tags);
    } else {
      assert Store(st, key, out) == Converted(Put(st.structured, key, out.value), st.listed, st.tags + out.tags);
    }
  }

  /** Outcomes without tags leave the tag list empty. */
  lemma {:induction false} StoreAllNoTags(props: seq<Entry>, outs: seq<Outcome>)
    requires |outs| == |props|
    requires forall i :: 0 <= i < |outs| ==> outs[i].tags == []
    ensures StoreAll(props, outs).tags == []
    decreases |props|
  {
    if |props| > 0 {
      StoreAllNoTags(props[..|props| - 1], outs[..|outs| - 1]);
    }
  }

  /** Without tags enabled no tag is ever produced, so the structured map
      gets no `tags` entry. */
  lemma NoTagsWhenDisabled(o: Oracles, index: TitleIndex.Index, props: seq<Entry>)
    ensures ConvertAll(o, index, false, props).tags == []
    ensures WithTags(ConvertAll(o, index, false, props).structured, ConvertAll(o, index, false, props).tags, false)
            == ConvertAll(o, index, false, props).structured
  {
    StoreAllNoTags(props, Outcomes(o, index, false, props));
  }

  // ---------------------------------------------------------------------
  // An example

  /** `Status: Done`, which the date library does not parse, becomes the
      tag `status/done` and keeps its value. */
  lemma StatusDoneIsTagged(o: Oracles, index: TitleIndex.Index)
    requires o.parseDate("Done").None?
    ensures Classify(o, index, true, "Status", "Done") == Outcome(TagList, "Done", ["status/done"])
  {
    DoneIsTagList();
    StatusDoneTag();
  }

  /** "Done" is a one-token tag list with no id and no white space. */
  lemma DoneIsTagList()
    ensures Unfold("Done") == "Done"
    ensures !IsCheckbox("Done") && !IsRelationList("Done") && Candidates("Done") == []
    ensures IsTagList("Done") && KeptTags(Split("Done", ", ")) == ["Done"]
  {
    UnfoldSingleLine("Done");
    DoneSplits();
    ShortHasNoId("Done");
    DoneRun();
    DoneKept();
  }

  lemma DoneRun()
    ensures IsTagList("Done")
  {
    assert LeadingTagChars("Done") == 4;
  }

  lemma DoneKept()
    ensures KeptTags(["Done"]) == ["Done"]
  {
    assert CountWhere("Done", IsJsWhitespace) == 0;
  }

  lemma DoneSplits()
    ensures Split("Done", ", ") == ["Done"] && Split("Done", " ") == ["Done"]
  {
    var v := "Done";
    assert IndexOf(v, ", ") < 0 by {
      forall j | 0 <= j ensures !OccursAt(v, ", ", j) {
        if j + 2 <= |v| {
          assert v[j..j + 2][0] == v[j];
        }
      }
    }
    CharAbsent(v, ' ');
  }

  lemma StatusDoneTag()
    ensures TagNames("Status", ["Done"]) == ["status/done"]
  {
    HyphenateNoSpace("Status");
    HyphenateNoSpace("Done");
    assert "Status" + "/" + "Done" == "Status/Done";
    LowerStatusDone();
  }

  lemma HyphenateNoSpace(s: String)
    requires forall i :: 0 <= i < |s| ==> s[i] != ' '
    ensures Hyphenate(s) == s
  {
    CharAbsent(s, ' ');
    assert Split(s, " ") == [s];
  }

  lemma LowerStatusDone()
    ensures AsciiLower("Status/Done") == "status/done"
  {
    LowerPieces();
    AsciiLowerAppend("S", "tatus/");
    AsciiLowerAppend("D", "one");
    StatusPieces();
    DonePieces();
    AsciiLowerAppend("Status/", "Done");
    StatusDoneJoined();
  }

  lemma LowerPieces()
    ensures AsciiLower("S") == "s" && AsciiLower("D") == "d"
    ensures AsciiLower("tatus/") == "tatus/" && AsciiLower("one") == "one"
  {
  }

  lemma StatusPieces()
    ensures "S" + "tatus/" == "Status/" && "s" + "tatus/" == "status/"
  {
  }

  lemma DonePieces()
    ensures "D" + "one" == "Done" && "d" + "one" == "done"
  {
  }

  lemma StatusDoneJoined()
    ensures "Status/" + "Done" == "Status/Done"
    ensures "status/" + "done" == "status/done"
  {
  }

  /** Lower-casing leaves a string without upper-case ASCII letters alone. */
  lemma LowerIsIdentity(s: String)
    requires forall i :: 0 <= i < |s| ==> !('A' <= s[i] <= 'Z')
    ensures AsciiLower(s) == s
  {
    assert forall i :: 0 <= i < |s| ==> AsciiLower(s)[i] == s[i];
  }

  /** `k: a, b`, which the date library does not parse, keeps both tokens
      run together as `ab` and adds the tags `k/a` and `k/b`, in order. */
  lemma TwoTagsRunTogether(o: Oracles, index: TitleIndex.Index)
    requires o.parseDate("a, b").None?
    ensures Classify(o, index, true, "k", "a, b") == Outcome(TagList, "ab", ["k/a", "k/b"])
  {
    AbIsPlain();
    AbIsTagList();
    AbTagNames();
    AbValue();
    TagListOutcome(o, index, "k", "a, b");
  }

  /** A value that reaches the tag-list branch keeps its kept tokens' value
      and adds their tag names. */
  lemma TagListOutcome(o: Oracles, index: TitleIndex.Index, key: String, raw: String)
    requires o.parseDate(Unfold(raw)).None? && !IsCheckbox(Unfold(raw)) && !IsRelationList(Unfold(raw))
    requires Candidates(Unfold(raw)) == [] && IsTagList(Unfold(raw))
    ensures var kept := KeptTags(Split(Unfold(raw), ", "));
            Classify(o, index, true, key, raw) == Outcome(TagList, TagValue(Unfold(raw), kept), TagNames(key, kept))
  {
  }

  lemma AbValue()
    ensures TagValue("a, b", ["a", "b"]) == "ab"
  {
    assert Concat(["a", "b"]) == "a" + ("b" + []);
  }

  /** "a, b" is a single line that is neither a checkbox, nor a relation
      list, nor a value with inline-link candidates. */
  lemma AbIsPlain()
    ensures Unfold("a, b") == "a, b"
    ensures !IsCheckbox("a, b") && !IsRelationList("a, b") && Candidates("a, b") == []
  {
    UnfoldSingleLine("a, b");
    AbNoIds();
  }

  /** "a, b" is a two-token tag list; both tokens are kept. */
  lemma AbIsTagList()
    ensures IsTagList("a, b") && KeptTags(Split("a, b", ", ")) == ["a", "b"]
  {
    AbSplits();
    AbRun();
    AbKept();
  }

  lemma AbNoIds()
    ensures !IsRelationList("a, b") && Candidates("a, b") == []
  {
    AbSplits();
    ShortHasNoId("a");
    ShortHasNoId("a,");
    ShortHasNoId("b");
    assert Split("a, b", ", ")[0] == "a";
    FilterIdsAppend(["a,"], ["b"]);
    FilterIdsAppend(["b"], []);
    assert ["a,"] + ["b"] == ["a,", "b"] && ["b"] + [] == ["b"];
  }

  lemma AbRun()
    ensures IsTagList("a, b")
  {
    assert LeadingTagChars("b") == 1;
    assert LeadingTagChars("a, b") == 1;
    assert "a, b"[1..3] == ", " && "a, b"[3..] == "b";
  }

  lemma AbKept()
    ensures KeptTags(["a", "b"]) == ["a", "b"]
  {
    KeptTagsAppend(["a"], ["b"]);
    assert CountWhere("a", IsJsWhitespace) == 0 && CountWhere("b", IsJsWhitespace) == 0;
    KeptTagsSingle(["a"]);
    KeptTagsSingle(["b"]);
    assert ["a"] + ["b"] == ["a", "b"];
  }

  lemma AbSplits()
    ensures Split("a, b", ", ") == ["a", "b"] && Split("a, b", " ") == ["a,", "b"]
  {
    assert IndexOf("a", ", ") < 0 && IndexOf("b", ", ") < 0;
    assert Join(["a", "b"], ", ") == "a, b";
    SplitJoin(["a", "b"], ", ");
    CharAbsent("a,", ' ');
    CharAbsent("b", ' ');
    assert Join(["a,", "b"], " ") == "a, b";
    SplitJoin(["a,", "b"], " ");
  }

  lemma AbTagNames()
    ensures TagNames("k", ["a", "b"]) == ["k/a", "k/b"]
  {
    HyphenateNoSpace("k");
    HyphenateNoSpace("a");
    HyphenateNoSpace("b");
    assert "k" + "/" + "a" == "k/a" && "k" + "/" + "b" == "k/b";
    LowerIsIdentity("k/a");
    LowerIsIdentity("k/b");
    assert ["a", "b"][1..] == ["b"];
  }

  /** A value parsed as a time at midnight becomes the ISO date alone. */
  lemma DateAtMidnight(o: Oracles, index: TitleIndex.Index, addTags: bool, key: String, raw: String, t: DateTime)
    requires o.parseDate(Unfold(raw)) == Some(t) && t.hour == 0 && t.minute == 0
    ensures Classify(o, index, addTags, key, raw) == Outcome(Date, t.isoDate, [])
  {
  }

  lemma CharAbsent(s: String, c: char)
    requires forall i :: 0 <= i < |s| ==> s[i] != c
    ensures IndexOf(s, [c]) < 0
  {
    forall j | 0 <= j ensures !OccursAt(s, [c], j) {
      if j + 1 <= |s| {
        assert s[j..j + 1][0] == s[j];
      }
    }
  }

  /** A value shorter than an id carries none. */
  lemma ShortHasNoId(s: String)
    requires |s| < IdLength
    ensures !IsNotionId(s)
  {
    forall p | 0 <= p <= |s| ensures !MatchesAt(s, p) {
      assert |s[p..]| < IdLength;
    }
  }
}
