// The JavaScript string primitives the importer relies on (indexOf, split,
// join, replace with a string pattern, the line structure seen by `.` and
// `^`), written over `seq<char>` with the semantics of String.prototype.

module Strings {

  type String = seq<char>

  datatype Option<T> = None | Some(value: T)

  /** The characters JavaScript regular expressions treat as line
      terminators: `.` refuses them and `^` (under the `m` flag) anchors
      after them. */
  predicate IsLineTerminator(c: char) {
    c == '\n' || c == '\r' || c == '\U{2028}' || c == '\U{2029}'
  }

  predicate NoLineTerminator(s: String) {
    forall i :: 0 <= i < |s| ==> !IsLineTerminator(s[i])
  }

  /** The `\s` class of JavaScript regular expressions. */
  predicate IsJsWhitespace(c: char) {
    c == ' ' || c == '\t' || c == '\n' || c == '\U{000B}' || c == '\U{000C}' || c == '\r'
    || c == '\U{00A0}' || c == '\U{1680}' || ('\U{2000}' <= c <= '\U{200A}')
    || c == '\U{2028}' || c == '\U{2029}' || c == '\U{202F}' || c == '\U{205F}'
    || c == '\U{3000}' || c == '\U{FEFF}'
  }

  predicate EndsWith(s: String, suffix: String) {
    |suffix| <= |s| && s[|s| - |suffix|..] == suffix
  }

  predicate OccursAt(s: String, pat: String, i: int) {
    0 <= i && i + |pat| <= |s| && s[i..i + |pat|] == pat
  }

  /** `s.indexOf(pat, from)`: the first position at or after `from` where
      `pat` occurs, or -1. */
  function IndexOfFrom(s: String, pat: String, from: nat): (r: int)
    ensures r == -1 || (from <= r && OccursAt(s, pat, r))
    ensures r >= 0 ==> forall j :: from <= j < r ==> !OccursAt(s, pat, j)
    ensures r == -1 ==> forall j :: from <= j ==> !OccursAt(s, pat, j)
    decreases |s| + 1 - from
  {
    if from > |s| then -1
    else if OccursAt(s, pat, from) then from
    else IndexOfFrom(s, pat, from + 1)
  }

  function IndexOf(s: String, pat: String): int {
    IndexOfFrom(s, pat, 0)
  }

  /** The position of the first line terminator at or after `from`, or |s|:
      where a `.*` starting at `from` stops. */
  function LineEnd(s: String, from: nat): (e: nat)
    requires from <= |s|
    ensures from <= e <= |s|
    ensures NoLineTerminator(s[from..e])
    ensures e < |s| ==> IsLineTerminator(s[e])
    decreases |s| - from
  {
    if from == |s| || IsLineTerminator(s[from]) then from
    else LineEnd(s, from + 1)
  }

  /** `LineEnd` is the first line terminator at or after `from`. */
  lemma {:induction false} LineEndAt(s: String, from: nat, e: nat)
    requires from <= e < |s| && NoLineTerminator(s[from..e]) && IsLineTerminator(s[e])
    ensures LineEnd(s, from) == e
    decreases e - from
  {
    if from < e {
      assert s[from..e][0] == s[from];
      assert s[from + 1..e] == s[from..e][1..];
      LineEndAt(s, from + 1, e);
    }
  }

  /** `s.split(sep)` for a non-empty string separator. */
  function Split(s: String, sep: String): (parts: seq<String>)
    requires |sep| > 0
    ensures |parts| >= 1
    decreases |s|
  {
    var i := IndexOf(s, sep);
    if i < 0 then [s] else [s[..i]] + Split(s[i + |sep|..], sep)
  }

  /** `parts.join(sep)`. */
  function Join(parts: seq<String>, sep: String): String {
    if |parts| == 0 then []
    else if |parts| == 1 then parts[0]
    else parts[0] + sep + Join(parts[1..], sep)
  }

  /** Splitting at every character that satisfies `isSep` (`s.split(/c/)`
      for a one-character class `c`). */
  function SplitWhere(s: String, isSep: char -> bool): (parts: seq<String>)
    ensures |parts| == CountWhere(s, isSep) + 1
    ensures forall k, i :: 0 <= k < |parts| && 0 <= i < |parts[k]| ==> !isSep(parts[k][i])
  {
    if |s| == 0 then [[]]
    else
      var rest := SplitWhere(s[1..], isSep);
      if isSep(s[0]) then [[]] + rest
      else [[s[0]] + rest[0]] + rest[1..]
  }

  function CountWhere(s: String, p: char -> bool): nat {
    if |s| == 0 then 0 else (if p(s[0]) then 1 else 0) + CountWhere(s[1..], p)
  }

  /** The separator characters of `s`, in order. */
  function SeparatorsOf(s: String, isSep: char -> bool): (seps: String)
    ensures |seps| == CountWhere(s, isSep)
    ensures forall i :: 0 <= i < |seps| ==> isSep(seps[i])
  {
    if |s| == 0 then []
    else (if isSep(s[0]) then [s[0]] else []) + SeparatorsOf(s[1..], isSep)
  }

  /** `parts[0] + seps[0] + parts[1] + ... + parts[n]`. */
  function Interleave(parts: seq<String>, seps: String): String
    requires |parts| == |seps| + 1
    decreases |seps|
  {
    if |seps| == 0 then parts[0] else parts[0] + [seps[0]] + Interleave(parts[1..], seps[1..])
  }

  /** The parts of `SplitWhere` are the maximal separator-free runs of `s`:
      put back between them, the separators rebuild `s`. */
  lemma {:induction false} SplitWhereRebuild(s: String, isSep: char -> bool)
    ensures Interleave(SplitWhere(s, isSep), SeparatorsOf(s, isSep)) == s
    decreases |s|
  {
    if |s| > 0 {
      var rest := SplitWhere(s[1..], isSep);
      var rs := SeparatorsOf(s[1..], isSep);
      SplitWhereRebuild(s[1..], isSep);
      if isSep(s[0]) {
        var parts := [[]] + rest;
        assert parts[1..] == rest;
        assert ([s[0]] + rs)[1..] == rs;
        assert s == [] + [s[0]] + s[1..];
      } else {
        assert SplitWhere(s, isSep) == [[s[0]] + rest[0]] + rest[1..];
        assert SeparatorsOf(s, isSep) == rs;
        InterleaveHead(s[0], rest, rs);
        assert s == [s[0]] + s[1..];
      }
    }
  }

  /** Prefixing the first part prefixes the whole. */
  lemma InterleaveHead(c: char, parts: seq<String>, seps: String)
    requires |parts| == |seps| + 1
    ensures Interleave([[c] + parts[0]] + parts[1..], seps) == [c] + Interleave(parts, seps)
  {
    var ps := [[c] + parts[0]] + parts[1..];
    assert ps[1..] == parts[1..];
  }

  /** The lines of `s`, as the `m` flag of a regular expression sees them. */
  function Lines(s: String): seq<String> {
    SplitWhere(s, IsLineTerminator)
  }

  /** `s.replace(pat, rep)` with a string pattern: only the first occurrence
      is replaced (replacement patterns such as `$&` are not interpreted). */
  function ReplaceFirst(s: String, pat: String, rep: String): (r: String)
    ensures IndexOf(s, pat) < 0 ==> r == s
    ensures IndexOf(s, pat) >= 0 ==>
              |r| == |s| - |pat| + |rep| && OccursAt(r, rep, IndexOf(s, pat))
              && r[..IndexOf(s, pat)] == s[..IndexOf(s, pat)]
              && r[IndexOf(s, pat) + |rep|..] == s[IndexOf(s, pat) + |pat|..]
  {
    var i := IndexOf(s, pat);
    if i < 0 then s else s[..i] + rep + s[i + |pat|..]
  }

  /** The first occurrence, when there is one, is cut out and `rep` put in
      its place. */
  lemma ReplaceFirstAt(s: String, pat: String, rep: String)
    requires IndexOf(s, pat) >= 0
    ensures var i := IndexOf(s, pat);
            ReplaceFirst(s, pat, rep) == s[..i] + rep + s[i + |pat|..]
  {
    var i := IndexOf(s, pat);
    var r := ReplaceFirst(s, pat, rep);
    assert r[i..i + |rep|] == rep;
    assert r == r[..i] + r[i..i + |rep|] + r[i + |rep|..];
  }

  /** Replaces every character `from` with `to`. */
  function ReplaceChar(s: String, from: char, to: char): (r: String)
    ensures |r| == |s|
  {
    if |s| == 0 then [] else [if s[0] == from then to else s[0]] + ReplaceChar(s[1..], from, to)
  }

  function AsciiLowerChar(c: char): (r: char)
    ensures !('A' <= r <= 'Z')
    ensures !('A' <= c <= 'Z') ==> r == c
    ensures 'A' <= c <= 'Z' ==> 'a' <= r <= 'z' && r as int == c as int + 32
  {
    if 'A' <= c <= 'Z' then (c as int - 'A' as int + 'a' as int) as char else c
  }

  /** `toLowerCase`, restricted to the ASCII letters. */
  function AsciiLower(s: String): (r: String)
    ensures |r| == |s|
    ensures forall i :: 0 <= i < |s| ==> r[i] == AsciiLowerChar(s[i])
  {
    if |s| == 0 then [] else [AsciiLowerChar(s[0])] + AsciiLower(s[1..])
  }

  lemma {:induction false} AsciiLowerAppend(a: String, b: String)
    ensures AsciiLower(a + b) == AsciiLower(a) + AsciiLower(b)
    decreases |a|
  {
    if |a| > 0 {
      assert (a + b)[1..] == a[1..] + b;
      assert (a + b)[0] == a[0];
      AsciiLowerAppend(a[1..], b);
    } else {
      assert a + b == b;
    }
  }

  /** Concatenation of all parts: `parts.join('')`. */
  function Concat(parts: seq<String>): String {
    if |parts| == 0 then [] else parts[0] + Concat(parts[1..])
  }

  /** The number a string of decimal digits denotes. */
  function DecimalValue(r: String): int
    decreases |r|
  {
    if |r| == 0 then 0 else 10 * DecimalValue(r[..|r| - 1]) + (r[|r| - 1] as int - '0' as int)
  }

  /** `${n}` for a natural number: decimal digits that denote `n`. */
  function NatToString(n: nat): (r: String)
    ensures |r| >= 1
    ensures forall i :: 0 <= i < |r| ==> '0' <= r[i] <= '9'
    ensures DecimalValue(r) == n
  {
    var digit := ['0' + (n % 10) as char];
    if n < 10 then digit
    else
      var r := NatToString(n / 10) + digit;
      assert r[..|r| - 1] == NatToString(n / 10);
      r
  }

  /** Different numbers render differently. */
  lemma NatToStringInjective(m: nat, n: nat)
    requires NatToString(m) == NatToString(n)
    ensures m == n
  {
    assert DecimalValue(NatToString(m)) == m;
  }

  // ---------------------------------------------------------------------
  // split and join are inverse to each other

  /** Joining what `split` produced with the same separator gives back the
      original string. */
  lemma {:induction false} JoinSplit(s: String, sep: String)
    requires |sep| > 0
    ensures Join(Split(s, sep), sep) == s
    decreases |s|
  {
    var i := IndexOf(s, sep);
    if i >= 0 {
      var rest := s[i + |sep|..];
      var tail := Split(rest, sep);
      var parts := [s[..i]] + tail;
      assert Split(s, sep) == parts;
      JoinSplit(rest, sep);
      assert parts[1..] == tail;
      assert Join(parts, sep) == s[..i] + sep + Join(tail, sep);
      assert OccursAt(s, sep, i);
      assert s == s[..i] + s[i..i + |sep|] + rest;
    }
  }

  /** A separator whose first character does not occur again in it cannot
      occur across the boundary of two parts. */
  predicate HeadDoesNotRecur(sep: String) {
    |sep| > 0 && forall i :: 0 < i < |sep| ==> sep[i] != sep[0]
  }

  lemma JoinCons(parts: seq<String>, sep: String)
    requires |parts| >= 2
    ensures Join(parts, sep) == parts[0] + sep + Join(parts[1..], sep)
  {
  }

  /** First occurrence of `sep` in `a + sep + b` when `a` contains none. */
  lemma FirstOccurrenceAtBoundary(a: String, sep: String, b: String)
    requires HeadDoesNotRecur(sep)
    requires IndexOf(a, sep) < 0
    ensures IndexOf(a + sep + b, sep) == |a|
  {
    var s := a + sep + b;
    assert s[|a|..|a| + |sep|] == sep;
    assert OccursAt(s, sep, |a|);
    forall j | 0 <= j < |a| ensures !OccursAt(s, sep, j) {
      if j + |sep| <= |a| {
        assert !OccursAt(a, sep, j);
        assert s[j..j + |sep|] == a[j..j + |sep|];
      } else {
        var k := |a| - j;
        assert sep[k] != sep[0];
        assert s[|a|] == sep[0];
        if j + |sep| <= |s| {
          assert s[j..j + |sep|][k] == s[|a|];
        }
      }
    }
  }

  /** Splitting a joined list gives back the list, when no part contains
      the separator. */
  lemma {:induction false} SplitJoin(parts: seq<String>, sep: String)
    requires |parts| >= 1 && HeadDoesNotRecur(sep)
    requires forall k :: 0 <= k < |parts| ==> IndexOf(parts[k], sep) < 0
    ensures Split(Join(parts, sep), sep) == parts
    decreases |parts|
  {
    if |parts| >= 2 {
      var rest := Join(parts[1..], sep);
      JoinCons(parts, sep);
      FirstOccurrenceAtBoundary(parts[0], sep, rest);
      var s := parts[0] + sep + rest;
      assert s[|parts[0]| + |sep|..] == rest;
      assert s[..|parts[0]|] == parts[0];
      SplitJoin(parts[1..], sep);
      assert parts == [parts[0]] + parts[1..];
    }
  }

  /** Every part produced by `split` is free of the separator. */
  lemma {:induction false} SplitPartsFree(s: String, sep: String)
    requires |sep| > 0
    ensures forall k :: 0 <= k < |Split(s, sep)| ==> IndexOf(Split(s, sep)[k], sep) < 0
    decreases |s|
  {
    var i := IndexOf(s, sep);
    if i < 0 {
    } else {
      SplitPartsFree(s[i + |sep|..], sep);
      var head := s[..i];
      var r := IndexOf(head, sep);
      if r >= 0 {
        OccursInPrefix(s, i, sep, r);
      }
      var parts := Split(s, sep);
      assert parts == [head] + Split(s[i + |sep|..], sep);
      forall k | 0 <= k < |parts| ensures IndexOf(parts[k], sep) < 0 {
        if k > 0 {
          assert parts[k] == Split(s[i + |sep|..], sep)[k - 1];
        }
      }
    }
  }

  /** An occurrence in a prefix is an occurrence in the whole string. */
  lemma OccursInPrefix(s: String, n: nat, pat: String, r: int)
    requires n <= |s| && OccursAt(s[..n], pat, r)
    ensures OccursAt(s, pat, r)
  {
    assert s[..n][r..r + |pat|] == s[r..r + |pat|];
  }

  lemma {:induction false} ReplaceCharAppend(a: String, b: String, from: char, to: char)
    ensures ReplaceChar(a + b, from, to) == ReplaceChar(a, from, to) + ReplaceChar(b, from, to)
    decreases |a|
  {
    if |a| > 0 {
      var c := if a[0] == from then to else a[0];
      assert (a + b)[1..] == a[1..] + b;
      assert (a + b)[0] == a[0];
      assert ReplaceChar(a + b, from, to) == [c] + ReplaceChar(a[1..] + b, from, to);
      assert ReplaceChar(a, from, to) == [c] + ReplaceChar(a[1..], from, to);
      ReplaceCharAppend(a[1..], b, from, to);
    } else {
      assert a + b == b;
    }
  }

  /** A string in which `[c]` does not occur below `n` has no `c` there. */
  lemma NoCharBelow(s: String, c: char, n: int)
    requires n <= |s|
    requires forall j :: 0 <= j < n ==> !OccursAt(s, [c], j)
    ensures forall j :: 0 <= j < n ==> s[j] != c
  {
    forall j | 0 <= j < n ensures s[j] != c {
      assert !OccursAt(s, [c], j);
      assert s[j..j + 1] == [s[j]];
    }
  }

  /** `s.split(' ').join('-')` replaces every space by a hyphen. */
  lemma {:induction false} SplitJoinReplacesChar(s: String, from: char, to: char)
    ensures Join(Split(s, [from]), [to]) == ReplaceChar(s, from, to)
    decreases |s|
  {
    var i := IndexOf(s, [from]);
    if i < 0 {
      NoCharBelow(s, from, |s|);
      ReplaceCharIdentity(s, from, to);
    } else {
      var head, rest := s[..i], s[i + 1..];
      var tail := Split(rest, [from]);
      var parts := [head] + tail;
      assert Split(s, [from]) == parts;
      SplitJoinReplacesChar(rest, from, to);
      assert parts[1..] == tail;
      assert Join(parts, [to]) == head + [to] + Join(tail, [to]);
      NoCharBelow(s, from, i);
      assert forall j :: 0 <= j < |head| ==> head[j] != from;
      ReplaceCharIdentity(head, from, to);
      assert OccursAt(s, [from], i);
      assert s[i..i + 1] == [from];
      assert s == (head + [from]) + rest;
      ReplaceCharAppend(head + [from], rest, from, to);
      ReplaceCharAppend(head, [from], from, to);
      assert ReplaceChar([from], from, to) == [to];
    }
  }

  /** Each character is replaced where it is, and only it. */
  lemma {:induction false} ReplaceCharAt(s: String, from: char, to: char, i: nat)
    requires i < |s|
    ensures ReplaceChar(s, from, to)[i] == if s[i] == from then to else s[i]
    decreases i
  {
    if i > 0 {
      ReplaceCharAt(s[1..], from, to, i - 1);
      assert s[1..][i - 1] == s[i];
    }
  }

  /** Replacing a character that does not occur changes nothing. */
  lemma {:induction false} ReplaceCharIdentity(s: String, from: char, to: char)
    requires forall j :: 0 <= j < |s| ==> s[j] != from
    ensures ReplaceChar(s, from, to) == s
    decreases |s|
  {
    if |s| > 0 {
      assert s[0] != from;
      assert forall j :: 0 <= j < |s[1..]| ==> s[1..][j] == s[j + 1];
      ReplaceCharIdentity(s[1..], from, to);
      assert s == [s[0]] + s[1..];
    }
  }
}
