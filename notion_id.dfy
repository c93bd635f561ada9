// The id codec: recognising, stripping and extracting the 32-character page
// id that the export appends to every file and folder name
// (src/main.ts:65-73, src/importer.ts:6-14).

module NotionId {
  import opened Strings

  const IdLength: nat := 32

  predicate IsIdChar(c: char) {
    'a' <= c <= 'z' || '0' <= c <= '9'
  }

  /** `[a-z0-9]{32}` */
  predicate IsIdToken(t: String) {
    |t| == IdLength && forall i :: 0 <= i < |t| ==> IsIdChar(t[i])
  }

  /** `[a-z0-9]{32}(\.(md|csv))?` matching the whole of `u`. */
  predicate IdWithExtension(u: String) {
    IsIdToken(u)
    || (|u| == IdLength + 3 && IsIdToken(u[..IdLength]) && u[IdLength..] == ".md")
    || (|u| == IdLength + 4 && IsIdToken(u[..IdLength]) && u[IdLength..] == ".csv")
  }

  /** The language of ` ?[a-z0-9]{32}(\.(md|csv))?`. */
  predicate IdSuffix(t: String) {
    IdWithExtension(t) || (|t| > 0 && t[0] == ' ' && IdWithExtension(t[1..]))
  }

  /** The id pattern, anchored by `$`, matches when started at position `p`. */
  predicate MatchesAt(s: String, p: int) {
    0 <= p <= |s| && IdSuffix(s[p..])
  }

  /** `isNotionId(s)`: `/ ?[a-z0-9]{32}(\.(md|csv))?$/.test(s)` — the pattern
      matches starting somewhere in `s`. */
  predicate IsNotionId(s: String) {
    exists p :: 0 <= p <= |s| && MatchesAt(s, p)
  }

  /** The leftmost position at or after `p` where the id pattern matches:
      where `String.replace` starts its match. */
  function FirstMatchFrom(s: String, p: nat): (r: Option<nat>)
    ensures r.Some? ==> p <= r.value <= |s| && MatchesAt(s, r.value)
    ensures r.Some? ==> forall q :: p <= q < r.value ==> !MatchesAt(s, q)
    ensures r.None? ==> forall q :: p <= q ==> !MatchesAt(s, q)
    decreases |s| + 1 - p
  {
    if p > |s| then None
    else if MatchesAt(s, p) then Some(p)
    else FirstMatchFrom(s, p + 1)
  }

  /** `stripNotionId(s)`: `s.replace(/ ?[a-z0-9]{32}(\.(md|csv))?$/, '')`. */
  function StripNotionId(s: String): (r: String)
    ensures r <= s
    ensures !IsNotionId(s) ==> r == s
  {
    match FirstMatchFrom(s, 0)
    case Some(p) => s[..p]
    case None => s
  }

  /** The extension `s.replace(/(\.(md|csv))?$/, '')` removes. */
  function KnownExtension(s: String): (ext: String)
    ensures ext == "" || ext == ".md" || ext == ".csv"
    ensures EndsWith(s, ext)
    ensures EndsWith(s, ".csv") ==> ext == ".csv"
    ensures EndsWith(s, ".md") ==> ext == ".md"
  {
    if EndsWith(s, ".csv") then
      assert s[|s| - 1] == ".csv"[3] != ".md"[2];
      ".csv"
    else if EndsWith(s, ".md") then ".md" else ""
  }

  /** `getNotionId(s)`: drop a trailing `.md`/`.csv`, then take the trailing
      `[a-z0-9]{32}` if there is one. */
  function GetNotionId(s: String): (r: Option<String>)
    ensures r.Some? ==> IsIdToken(r.value)
  {
    var t := s[..|s| - |KnownExtension(s)|];
    if |t| >= IdLength && IsIdToken(t[|t| - IdLength..]) then Some(t[|t| - IdLength..]) else None
  }

  // ---------------------------------------------------------------------
  // Properties of the codec

  /** When an id (with its extension) ends `s` at position `q`, extraction
      finds exactly that id and that extension. */
  lemma ExtractAt(s: String, q: int)
    requires 0 <= q <= |s| && IdWithExtension(s[q..])
    ensures KnownExtension(s) == s[q + IdLength..]
    ensures GetNotionId(s) == Some(s[q..q + IdLength])
  {
    var u := s[q..];
    if IsIdToken(u) {
      ExtensionOfBareId(s, q);
    } else if |u| == IdLength + 3 && IsIdToken(u[..IdLength]) && u[IdLength..] == ".md" {
      ExtensionMd(s, q);
    } else {
      ExtensionCsv(s, q);
    }
    var t := s[..|s| - |KnownExtension(s)|];
    assert t[|t| - IdLength..] == s[q..q + IdLength];
    assert u[..IdLength] == s[q..q + IdLength];
  }

  lemma ExtensionOfBareId(s: String, q: int)
    requires 0 <= q <= |s| && IsIdToken(s[q..])
    ensures KnownExtension(s) == s[q + IdLength..] == ""
  {
    var u := s[q..];
    assert s[|s| - 3] == u[29] && IsIdChar(u[29]);
    assert s[|s| - 4] == u[28] && IsIdChar(u[28]);
    assert s[|s| - 4..][0] == s[|s| - 4];
    assert s[|s| - 3..][0] == s[|s| - 3];
  }

  lemma ExtensionMd(s: String, q: int)
    requires 0 <= q <= |s| && |s[q..]| == IdLength + 3 && IsIdToken(s[q..][..IdLength]) && s[q..][IdLength..] == ".md"
    ensures KnownExtension(s) == s[q + IdLength..] == ".md"
  {
    var u := s[q..];
    assert s[|s| - 4] == u[31] && IsIdChar(u[31]);
    assert s[|s| - 4..][0] == s[|s| - 4];
    assert s[|s| - 3..] == u[IdLength..];
    assert s[q + IdLength..] == u[IdLength..];
  }

  lemma ExtensionCsv(s: String, q: int)
    requires 0 <= q <= |s| && |s[q..]| == IdLength + 4 && s[q..][IdLength..] == ".csv"
    ensures KnownExtension(s) == s[q + IdLength..] == ".csv"
  {
    var u := s[q..];
    assert s[|s| - 4..] == u[IdLength..];
    assert s[q + IdLength..] == u[IdLength..];
  }

  /** `isNotionId` and `getNotionId` agree: the test succeeds exactly when
      an id can be extracted, and what is extracted is 32 characters of
      `[a-z0-9]`. */
  lemma IdRecognitionAgrees(s: String)
    ensures IsNotionId(s) <==> GetNotionId(s).Some?
    ensures GetNotionId(s).Some? ==> IsIdToken(GetNotionId(s).value)
  {
    if IsNotionId(s) {
      var p :| 0 <= p <= |s| && MatchesAt(s, p);
      if IdWithExtension(s[p..]) {
        ExtractAt(s, p);
      } else {
        assert s[p..][1..] == s[p + 1..];
        ExtractAt(s, p + 1);
      }
    }
    if GetNotionId(s).Some? {
      var ext := KnownExtension(s);
      var q := |s| - |ext| - IdLength;
      var t := s[..|s| - |ext|];
      assert t[|t| - IdLength..] == s[q..q + IdLength];
      assert s[q..][..IdLength] == s[q..q + IdLength];
      assert s[q..][IdLength..] == ext;
      assert MatchesAt(s, q);
    }
  }

  /** The leftmost match of the id pattern in a recognised name. */
  lemma FirstMatchExists(s: String) returns (q: nat)
    requires IsNotionId(s)
    ensures FirstMatchFrom(s, 0) == Some(q)
    ensures StripNotionId(s) == s[..q]
  {
    var p :| 0 <= p <= |s| && MatchesAt(s, p);
    q := FirstMatchFrom(s, 0).value;
  }

  /** The leftmost match starts at the id itself: no space precedes it. */
  lemma MatchWithoutSpace(s: String, q: nat)
    requires FirstMatchFrom(s, 0) == Some(q) && IdWithExtension(s[q..])
    ensures GetNotionId(s).Some?
    ensures s == s[..q] + GetNotionId(s).value + KnownExtension(s)
    ensures !EndsWith(s[..q], " ")
  {
    ExtractAt(s, q);
    assert s == s[..q] + s[q..q + IdLength] + s[q + IdLength..];
    if q > 0 {
      NoSpaceBeforeFirstMatch(s, q);
      assert s[..q][q - 1..] == [s[q - 1]];
    }
  }

  /** A space before a match would itself start a match further left. */
  lemma NoSpaceBeforeFirstMatch(s: String, q: nat)
    requires FirstMatchFrom(s, 0) == Some(q) && IdWithExtension(s[q..]) && q > 0
    ensures s[q - 1] != ' '
  {
    assert !MatchesAt(s, q - 1);
    assert s[q - 1..][1..] == s[q..];
  }

  /** The leftmost match starts at the space before the id. */
  lemma MatchWithSpace(s: String, q: nat)
    requires MatchesAt(s, q) && !IdWithExtension(s[q..])
    ensures GetNotionId(s).Some?
    ensures s == s[..q] + " " + GetNotionId(s).value + KnownExtension(s)
  {
    assert s[q..][1..] == s[q + 1..];
    ExtractAt(s, q + 1);
    assert s == s[..q] + [s[q]] + s[q + 1..q + 1 + IdLength] + s[q + 1 + IdLength..];
  }

  /** Stripping and extraction agree on the boundary: a recognised `s` is
      exactly the stripped name, an optional single space, the extracted id
      and the known extension. The optional space is removed whenever it is
      there, because the leftmost match wins. */
  lemma StripExtractAgree(s: String)
    requires IsNotionId(s)
    ensures GetNotionId(s).Some?
    ensures s == StripNotionId(s) + " " + GetNotionId(s).value + KnownExtension(s)
            || (s == StripNotionId(s) + GetNotionId(s).value + KnownExtension(s)
                && !EndsWith(StripNotionId(s), " "))
  {
    var q := FirstMatchExists(s);
    if IdWithExtension(s[q..]) {
      MatchWithoutSpace(s, q);
    } else {
      MatchWithSpace(s, q);
    }
  }

  /** No character of an id with its extension is a `/`. */
  lemma NoSlashInId(u: String, i: int)
    requires IdWithExtension(u) && 0 <= i < |u|
    ensures u[i] != '/'
  {
    if i < IdLength {
      assert u[..IdLength][i] == u[i];
    } else if !IsIdToken(u) {
      assert u[IdLength..][i - IdLength] == u[i];
    }
  }

  /** No character of a match of the id pattern is a `/`. */
  lemma NoSlashInMatch(s: String, p: int, k: int)
    requires MatchesAt(s, p) && p <= k < |s|
    ensures s[k] != '/'
  {
    var t := s[p..];
    assert t[k - p] == s[k];
    if IdWithExtension(t) {
      NoSlashInId(t, k - p);
    } else if k > p {
      assert t[1..][k - p - 1] == s[k];
      NoSlashInId(t[1..], k - p - 1);
    }
  }

  /** The id pattern matches a path ending in `/name` exactly when it
      matches the name. */
  lemma IdInLastSegment(dir: String, name: String)
    ensures IsNotionId(dir + "/" + name) <==> IsNotionId(name)
  {
    var pre := dir + "/";
    var s := pre + name;
    if IsNotionId(s) {
      var p :| 0 <= p <= |s| && MatchesAt(s, p);
      assert s[|pre| - 1] == '/';
      if p < |pre| {
        NoSlashInMatch(s, p, |pre| - 1);
        assert false;
      }
      assert s[p..] == name[p - |pre|..];
      assert MatchesAt(name, p - |pre|);
    }
    if IsNotionId(name) {
      var p :| 0 <= p <= |name| && MatchesAt(name, p);
      assert s[p + |pre|..] == name[p..];
      assert MatchesAt(s, p + |pre|);
    }
  }

  /** The strip removes only the last id: a name made of two ids loses the
      second and keeps one that is still recognised. */
  lemma StripLeavesEarlierId(a: String, b: String)
    requires IsIdToken(a) && IsIdToken(b)
    ensures StripNotionId(a + b) == a
    ensures IsNotionId(StripNotionId(a + b))
  {
    var s := a + b;
    assert s[IdLength..] == b;
    assert MatchesAt(s, IdLength);
    forall q | 0 <= q < IdLength ensures !MatchesAt(s, q) {
      var u := s[q..];
      assert u[0] == a[q] && IsIdChar(u[0]);
      assert IsIdChar(b[q]) && u[IdLength] == b[q];
      assert |u| > IdLength;
      assert |u| >= IdLength + 3 ==> u[IdLength..][0] == u[IdLength];
    }
    assert s[..IdLength] == a;
    assert a[0..] == a;
    assert MatchesAt(a, 0);
  }
}
