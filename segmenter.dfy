// Splitting one exported document into its property lines and its body
// (src/main.ts:119-140, src/importer.ts:105-125).

module Segmenter {
  import opened Strings
  import opened OrderedRecord

  /** `text.replace(/^.*?\n\n/, '')`: the first line is dropped, with the
      blank line after it, when it is followed by a blank line. */
  function DropTitleLine(text: String): (r: String)
    ensures r == text
            || (|r| + 2 <= |text| && text == text[..|text| - |r| - 2] + "\n\n" + r
                && NoLineTerminator(text[..|text| - |r| - 2]))
  {
    var e := LineEnd(text, 0);
    if e + 1 < |text| && text[e] == '\n' && text[e + 1] == '\n' then
      assert text == text[..e] + "\n\n" + text[e + 2..];
      text[e + 2..]
    else text
  }

  /** A first line followed by a blank line is always dropped. */
  lemma DropTitleLineComplete(line: String, rest: String)
    requires NoLineTerminator(line)
    ensures DropTitleLine(line + "\n\n" + rest) == rest
  {
    var text := line + "\n\n" + rest;
    assert text[..|line|] == line;
    LineEndAt(text, 0, |line|);
    assert text[|line| + 2..] == rest;
  }

  /** Lines 121-125: everything before the first `\n\n` is the candidate
      property region and everything after it the body; without a blank
      line the body is empty. */
  function SplitAtBlankLine(text: String): (parts: (String, String))
    ensures IndexOf(text, "\n\n") < 0 ==> parts == (text, "")
    ensures IndexOf(text, "\n\n") >= 0 ==>
              text == parts.0 + "\n\n" + parts.1
              && IndexOf(parts.0, "\n\n") < 0 && !EndsWith(parts.0, "\n")
  {
    var i := IndexOf(text, "\n\n");
    if i < 0 then (text, "")
    else
      var region := text[..i];
      assert text == region + "\n\n" + text[i + 2..];
      NoEarlierBlankLine(text, i);
      (region, text[i + 2..])
  }

  lemma NoEarlierBlankLine(text: String, i: int)
    requires 0 <= i && IndexOf(text, "\n\n") == i
    ensures IndexOf(text[..i], "\n\n") < 0 && !EndsWith(text[..i], "\n")
  {
    RegionFree(text, i);
    if i > 0 {
      LineFeedNotBefore(text, i);
      assert text[..i][i - 1..] == [text[i - 1]];
    }
  }

  lemma RegionFree(text: String, i: int)
    requires 0 <= i && IndexOf(text, "\n\n") == i
    ensures IndexOf(text[..i], "\n\n") < 0
  {
    var region := text[..i];
    forall j | 0 <= j ensures !OccursAt(region, "\n\n", j) {
      if j + 2 <= i {
        assert region[j..j + 2] == text[j..j + 2];
        assert !OccursAt(text, "\n\n", j);
      }
    }
  }

  lemma LineFeedNotBefore(text: String, i: int)
    requires 0 < i && IndexOf(text, "\n\n") == i
    ensures text[i - 1] != '\n'
  {
    assert OccursAt(text, "\n\n", i);
    assert text[i] == text[i..i + 2][0] == '\n';
    assert !OccursAt(text, "\n\n", i - 1);
    assert text[i - 1..i + 1] == [text[i - 1], text[i]];
  }

  /** `/^.+?: /.test(line)`: a non-empty key, free of line terminators,
      followed by `": "`. */
  predicate StartsWithKey(line: String) {
    var i := IndexOfFrom(line, ": ", 1);
    i >= 0 && NoLineTerminator(line[..i])
  }

  function KeepKeyLines(lines: seq<String>): (r: seq<String>)
    ensures |r| <= |lines|
    ensures forall i :: 0 <= i < |r| ==> StartsWithKey(r[i]) && r[i] in lines
    ensures forall i :: 0 <= i < |lines| && StartsWithKey(lines[i]) ==> lines[i] in r
  {
    if |lines| == 0 then []
    else (if StartsWithKey(lines[0]) then [lines[0]] else []) + KeepKeyLines(lines[1..])
  }

  /** The kept lines keep their order and their repetitions: filtering
      distributes over concatenation, and one line is kept exactly when it
      starts with a key. */
  lemma {:induction false} KeepKeyLinesAppend(a: seq<String>, b: seq<String>)
    ensures KeepKeyLines(a + b) == KeepKeyLines(a) + KeepKeyLines(b)
    ensures |a| == 1 ==> KeepKeyLines(a) == if StartsWithKey(a[0]) then a else []
    decreases |a|
  {
    if |a| == 0 {
      assert a + b == b;
    } else {
      var head := if StartsWithKey(a[0]) then [a[0]] else [];
      assert (a + b)[0] == a[0];
      assert (a + b)[1..] == a[1..] + b;
      KeepKeyLinesAppend(a[1..], b);
      assert KeepKeyLines(a + b) == head + KeepKeyLines(a[1..] + b);
      assert KeepKeyLines(a) == head + KeepKeyLines(a[1..]);
      if |a| == 1 {
        assert a[1..] == [];
      }
    }
  }

  /** `text.match(/^.+?: .*(\n!(.+?:).*)*?/gm) || []`: every whole line that
      starts with a key. The trailing group is lazy with nothing after it,
      so it never takes a continuation line. */
  function PropertyLines(region: String): seq<String> {
    KeepKeyLines(Lines(region))
  }

  /** `splitText.findIndex(...)` of lines 128-132: the first line that is
      not a property line and is followed by none (or by nothing). */
  function FindEndOfProperties(matches: seq<String>, from: nat): (r: int)
    requires from <= |matches|
    ensures r == -1 || from <= r < |matches|
    decreases |matches| - from
  {
    if from == |matches| then -1
    else if !StartsWithKey(matches[from])
            && (from + 1 >= |matches| || matches[from + 1] == [] || !StartsWithKey(matches[from + 1]))
    then from
    else FindEndOfProperties(matches, from + 1)
  }

  /** `line.match(/(^.+?): (.*)/)?.slice(1)`: the key before the first
      `": "` and the value after it, up to the end of the line. */
  function SplitProperty(line: String): Option<Entry> {
    var i := IndexOfFrom(line, ": ", 1);
    if i >= 0 && NoLineTerminator(line[..i]) then
      Some(Entry(line[..i], line[i + 2..LineEnd(line, i + 2)]))
    else None
  }

  /** `.map(...).filter((x) => x && x.length === 2)` */
  function SplitAll(lines: seq<String>): seq<Entry> {
    if |lines| == 0 then []
    else
      match SplitProperty(lines[0])
      case Some(e) => [e] + SplitAll(lines[1..])
      case None => SplitAll(lines[1..])
  }

  /** Lines 126-140: the property lines of the region, cut at the end the
      search finds, split into key and value. */
  function ParseProperties(region: String): seq<Entry> {
    var splitText := PropertyLines(region);
    var lastProperty := FindEndOfProperties(splitText, 0);
    var upTo := if lastProperty == -1 then |splitText| else lastProperty + 1;
    SplitAll(splitText[..upTo])
  }

  /** The document's property pairs and its body. */
  function Segment(text: String): (seg: (seq<Entry>, String)) {
    var parts := SplitAtBlankLine(DropTitleLine(text));
    (ParseProperties(parts.0), parts.1)
  }

  // ---------------------------------------------------------------------
  // Properties

  function EntryLine(e: Entry): String {
    e.key + ": " + e.value
  }

  /** Every matched line starts with a key, so the end-of-properties search
      never finds anything: all matched lines are properties. */
  lemma {:induction false} NoEndOfProperties(matches: seq<String>, from: nat)
    requires from <= |matches|
    requires forall i :: 0 <= i < |matches| ==> StartsWithKey(matches[i])
    ensures FindEndOfProperties(matches, from) == -1
    decreases |matches| - from
  {
    if from < |matches| {
      NoEndOfProperties(matches, from + 1);
    }
  }

  /** A line that starts with a key splits into that key and the rest of
      the line, and joining them back gives the line. */
  lemma SplitPropertyRoundTrip(line: String)
    requires StartsWithKey(line) && NoLineTerminator(line)
    ensures SplitProperty(line).Some?
    ensures EntryLine(SplitProperty(line).value) == line
    ensures |SplitProperty(line).value.key| >= 1
    ensures IndexOfFrom(SplitProperty(line).value.key, ": ", 1) < 0
  {
    var i := IndexOfFrom(line, ": ", 1);
    LineEndNone(line, i + 2);
    assert line == line[..i] + ": " + line[i + 2..];
    var key := line[..i];
    var r := IndexOfFrom(key, ": ", 1);
    if r >= 0 {
      assert key[r..r + 2] == line[r..r + 2];
      assert OccursAt(line, ": ", r);
    }
  }

  lemma LineEndNone(line: String, from: nat)
    requires from <= |line| && NoLineTerminator(line)
    ensures LineEnd(line, from) == |line|
  {
  }

  lemma {:induction false} SplitAllRoundTrip(lines: seq<String>)
    requires forall i :: 0 <= i < |lines| ==> StartsWithKey(lines[i]) && NoLineTerminator(lines[i])
    ensures |SplitAll(lines)| == |lines|
    ensures forall i :: 0 <= i < |lines| ==>
              EntryLine(SplitAll(lines)[i]) == lines[i]
              && |SplitAll(lines)[i].key| >= 1 && IndexOfFrom(SplitAll(lines)[i].key, ": ", 1) < 0
    decreases |lines|
  {
    if |lines| > 0 {
      SplitPropertyRoundTrip(lines[0]);
      SplitAllRoundTrip(lines[1..]);
      var rest := SplitAll(lines[1..]);
      assert SplitAll(lines) == [SplitProperty(lines[0]).value] + rest;
      forall i | 0 < i < |lines|
        ensures EntryLine(SplitAll(lines)[i]) == lines[i]
                && |SplitAll(lines)[i].key| >= 1 && IndexOfFrom(SplitAll(lines)[i].key, ": ", 1) < 0
      {
        assert SplitAll(lines)[i] == rest[i - 1];
        assert lines[1..][i - 1] == lines[i];
      }
    }
  }

  /** Every property line of the region becomes one property, in order:
      its key is the text before the first `": "` (after at least one
      character) and its value the rest of the line. */
  lemma ParsePropertiesRoundTrip(region: String)
    ensures |ParseProperties(region)| == |PropertyLines(region)|
    ensures forall i :: 0 <= i < |PropertyLines(region)| ==>
              EntryLine(ParseProperties(region)[i]) == PropertyLines(region)[i]
              && |ParseProperties(region)[i].key| >= 1
              && IndexOfFrom(ParseProperties(region)[i].key, ": ", 1) < 0
  {
    var lines := PropertyLines(region);
    var all := Lines(region);
    forall i | 0 <= i < |lines| ensures StartsWithKey(lines[i]) && NoLineTerminator(lines[i]) {
      var j :| 0 <= j < |all| && all[j] == lines[i];
      assert forall c :: 0 <= c < |all[j]| ==> !IsLineTerminator(all[j][c]);
    }
    NoEndOfProperties(lines, 0);
    assert lines[..|lines|] == lines;
    SplitAllRoundTrip(lines);
  }
}
