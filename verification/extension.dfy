/**
 * `getExtension`: the file extension guessed for a download, in three tiers —
 * a short suffix of the URL, then a fixed MIME table, then the MIME subtype,
 * and finally `bin`.
 */
module Extension {
  import opened Text

  /** The thirteen MIME types the program knows, with their extensions. */
  const MimeExtensions: map<string, string> := map[
    "video/mp4" := "mp4",
    "video/webm" := "webm",
    "video/ogg" := "ogv",
    "audio/mpeg" := "mp3",
    "audio/ogg" := "ogg",
    "application/pdf" := "pdf",
    "image/jpeg" := "jpg",
    "image/png" := "png",
    "image/gif" := "gif",
    "image/webp" := "webp",
    "image/svg+xml" := "svg",
    "image/bmp" := "bmp",
    "image/tiff" := "tiff"
  ]

  /** The extension used when nothing better is known. */
  const Fallback: string := "bin"

  /** The longest suffix an extension taken from the URL may have. */
  const MaxUrlExtension: nat := 5

  // ---------------------------------------------------------------------------
  // Independent descriptions of the pieces of a URL and of a MIME type
  // ---------------------------------------------------------------------------

  /** `q` is where the query string starts: the first `?`, or the end of the URL. */
  ghost predicate QueryStart(url: string, q: int) {
    0 <= q <= |url| && '?' !in url[..q] && (q == |url| || url[q] == '?')
  }

  /** `e` is the text of `s` after its last `sep`, or all of `s` when there is none. */
  ghost predicate LastField(s: string, sep: char, e: string) {
    |e| <= |s| && s[|s| - |e|..] == e && sep !in e && (|e| == |s| || s[|s| - |e| - 1] == sep)
  }

  /** `f` is the text of `s` from `start` up to the next `sep` or the end. */
  ghost predicate FieldFrom(s: string, sep: char, start: int, f: string) {
    0 <= start && start + |f| <= |s| && s[start..start + |f|] == f
    && sep !in f && (start + |f| == |s| || s[start + |f|] == sep)
  }

  /** `e` is the last `.`-separated piece of the URL with its query string removed. */
  ghost predicate UrlSuffix(url: string, e: string) {
    exists q :: QueryStart(url, q) && LastField(url[..q], '.', e)
  }

  /** `f` is the text between the first and the second `/` of `s` (or the end of `s`). */
  ghost predicate Subtype(s: string, f: string) {
    exists i :: 0 <= i < |s| && s[i] == '/' && '/' !in s[..i] && FieldFrom(s, '/', i + 1, f)
  }

  /** The URL rule of `getExtension` applies: the URL has a dot and its suffix is short and not empty. */
  ghost predicate UrlRuleApplies(url: string) {
    '.' in url && exists e :: UrlSuffix(url, e) && 0 < |e| <= MaxUrlExtension
  }

  lemma QueryStartUnique(url: string, q1: int, q2: int)
    requires QueryStart(url, q1) && QueryStart(url, q2)
    ensures q1 == q2
  {
  }

  lemma LastFieldUnique(s: string, sep: char, e1: string, e2: string)
    requires LastField(s, sep, e1) && LastField(s, sep, e2)
    ensures e1 == e2
  {
  }

  lemma FieldFromUnique(s: string, sep: char, start: int, f1: string, f2: string)
    requires FieldFrom(s, sep, start, f1) && FieldFrom(s, sep, start, f2)
    ensures f1 == f2
  {
  }

  // ---------------------------------------------------------------------------
  // The operations, as the program computes them
  // ---------------------------------------------------------------------------

  /** `url.split("?")[0].split(".").pop()`. */
  function UrlCandidate(url: string): (e: string)
    ensures UrlSuffix(url, e)
    ensures forall e' :: UrlSuffix(url, e') ==> e' == e
  {
    var beforeQuery := Split(url, '?');
    var path := beforeQuery[0];
    var pieces := Split(path, '.');
    var e := pieces[|pieces| - 1];
    CandidateIsSuffix(url, beforeQuery, pieces);
    assert QueryStart(url, |path|) && LastField(url[..|path|], '.', e);
    UrlSuffixUnique(url, e);
    e
  }

  lemma CandidateIsSuffix(url: string, beforeQuery: seq<string>, pieces: seq<string>)
    requires beforeQuery == Split(url, '?')
    requires pieces == Split(beforeQuery[0], '.')
    ensures QueryStart(url, |beforeQuery[0]|)
    ensures url[..|beforeQuery[0]|] == beforeQuery[0]
    ensures LastField(beforeQuery[0], '.', pieces[|pieces| - 1])
  {
    JoinHead(beforeQuery, '?');
    JoinLast(pieces, '.');
  }

  lemma UrlSuffixUnique(url: string, e: string)
    requires UrlSuffix(url, e)
    ensures forall e' :: UrlSuffix(url, e') ==> e' == e
  {
    var q :| QueryStart(url, q) && LastField(url[..q], '.', e);
    forall e' | UrlSuffix(url, e')
      ensures e' == e
    {
      var q' :| QueryStart(url, q') && LastField(url[..q'], '.', e');
      QueryStartUnique(url, q, q');
      LastFieldUnique(url[..q], '.', e, e');
    }
  }

  /** `contentType.split("/")[1]` for a content type containing `/`. */
  function SubtypeOf(ct: string): (f: string)
    requires '/' in ct
    ensures Subtype(ct, f)
    ensures '/' !in f
  {
    var parts := Split(ct, '/');
    SplitMany(ct, '/');
    SecondPieceIsSubtype(ct, parts);
    parts[1]
  }

  lemma SecondPieceIsSubtype(ct: string, parts: seq<string>)
    requires parts == Split(ct, '/') && |parts| >= 2
    ensures Subtype(ct, parts[1])
  {
    JoinHead(parts, '/');
    JoinHead(parts[1..], '/');
    var i := |parts[0]|;
    assert ct[..i] == parts[0];
    assert ct[i + 1..] == Join(parts[1..], '/');
    assert FieldFrom(ct, '/', i + 1, parts[1]);
  }

  lemma SubtypeUnique(ct: string, f1: string, f2: string)
    requires Subtype(ct, f1) && Subtype(ct, f2)
    ensures f1 == f2
  {
    var i1 :| 0 <= i1 < |ct| && ct[i1] == '/' && '/' !in ct[..i1] && FieldFrom(ct, '/', i1 + 1, f1);
    var i2 :| 0 <= i2 < |ct| && ct[i2] == '/' && '/' !in ct[..i2] && FieldFrom(ct, '/', i2 + 1, f2);
    FieldFromUnique(ct, '/', i1 + 1, f1, f2);
  }

  /**
   * The content-type tiers of `getExtension`: the table entry, else the
   * subtype when there is a `/`, else `bin` (also for an empty content type).
   */
  function ContentTypeExtension(ct: string): (r: string)
    ensures ct in MimeExtensions ==> r == MimeExtensions[ct]
    ensures ct !in MimeExtensions && '/' in ct ==> Subtype(ct, r)
    ensures ct !in MimeExtensions && '/' !in ct ==> r == Fallback
  {
    if ct != "" then
      if ct in MimeExtensions && MimeExtensions[ct] != "" then MimeExtensions[ct]
      else if '/' in ct then SubtypeOf(ct)
      else Fallback
    else
      Fallback
  }

  /**
   * `getExtension(url, contentType)`. When the URL rule applies its suffix wins
   * whatever the content type says; otherwise the content type decides.
   */
  function GetExtension(url: string, ct: string): (r: string)
    ensures UrlRuleApplies(url) ==> UrlSuffix(url, r) && 0 < |r| <= MaxUrlExtension
    ensures !UrlRuleApplies(url) ==> r == ContentTypeExtension(ct)
  {
    var e := UrlCandidate(url);
    if '.' in url && e != "" && |e| <= MaxUrlExtension then e
    else ContentTypeExtension(ct)
  }

  // ---------------------------------------------------------------------------
  // Consequences
  // ---------------------------------------------------------------------------

  /** The URL rule ignores the content type entirely. */
  lemma UrlWins(url: string, ct1: string, ct2: string)
    requires UrlRuleApplies(url)
    ensures GetExtension(url, ct1) == GetExtension(url, ct2)
  {
    var e :| UrlSuffix(url, e) && 0 < |e| <= MaxUrlExtension;
    UrlSuffixUnique(url, e);
  }

  /** Every table entry is keyed by a `type/subtype` and maps to a short, dot-free extension. */
  lemma MimeTableShape()
    ensures forall ct :: ct in MimeExtensions ==>
      '/' in ct && 0 < |MimeExtensions[ct]| <= MaxUrlExtension && '.' !in MimeExtensions[ct]
  {
  }

  /** A content type `a/b` missing from the table yields its subtype `b`. */
  lemma UnknownTypeGivesSubtype(a: string, b: string)
    requires '/' !in a && '/' !in b
    requires a + "/" + b !in MimeExtensions
    ensures ContentTypeExtension(a + "/" + b) == b
  {
    var ct := a + "/" + b;
    assert ct[..|a|] == a && ct[|a|] == '/';
    assert ct[|a| + 1..] == b;
    assert FieldFrom(ct, '/', |a| + 1, b);
    assert Subtype(ct, b);
    SubtypeUnique(ct, b, ContentTypeExtension(ct));
  }

  /**
   * A query-free URL ending in `.` and a short dot-free word gets that word as
   * its extension, whatever the server reports.
   */
  lemma ShortUrlSuffixWins(stem: string, e: string, ct: string)
    requires '?' !in stem && '?' !in e && '.' !in e
    requires 0 < |e| <= MaxUrlExtension
    ensures GetExtension(stem + "." + e, ct) == e
  {
    var url := stem + "." + e;
    assert url[..|url|] == url;
    assert url[|url| - |e|..] == e;
    assert url[|url| - |e| - 1] == '.';
    assert LastField(url[..|url|], '.', e);
    assert QueryStart(url, |url|);
    UrlSuffixUnique(url, e);
  }
}
