/**
 * Concrete behaviour of the helper on typical inputs, derived from the
 * general contracts.
 */
module Scenarios {
  import opened Wrappers
  import opened Text
  import opened Args
  import opened Extension

  /** Command lines: the default, a count, zero, repetition, and the three ways to fail. */
  lemma CommandLines()
    ensures ParseArgs([]) == Ok(2)
    ensures ParseArgs(["-n", "8"]) == Ok(8)
    ensures ParseArgs(["-n", "0"]) == Ok(0)
    ensures ParseArgs(["-n", "3", "-n", "16"]) == Ok(16)
    ensures ParseArgs(["-x", "-n", "4"]) == Err(UnknownOption("-x"))
    ensures ParseArgs(["-n"]) == Err(BadCount)
    ensures ParseArgs(["-n", "abc"]) == Err(BadCount)
    ensures ParseArgs(["-n", "-3"]) == Err(BadCount)
    ensures ParseArgs(["-n", ""]) == Err(BadCount)
  {
    assert IsDigits("8") && IsDigits("0") && IsDigits("3") && IsDigits("16");
    assert "abc"[0] == 'a' && "-3"[0] == '-';
  }

  /** Without a usable URL suffix the table decides, e.g. `image/jpeg` gives `jpg`. */
  lemma TableLookups(url: string)
    requires '.' !in url
    ensures GetExtension(url, "image/png") == "png"
    ensures GetExtension(url, "image/jpeg") == "jpg"
    ensures GetExtension(url, "video/ogg") == "ogv"
    ensures GetExtension(url, "image/svg+xml") == "svg"
  {
  }

  /**
   * Without a usable URL suffix, a content type that is empty or has no `/`
   * (so is neither a table key nor a `type/subtype`) gives `bin`.
   */
  lemma NoInformation(url: string, ct: string)
    requires '.' !in url && '/' !in ct
    ensures GetExtension(url, ct) == "bin"
  {
    MimeTableShape();
  }

  /** An unknown content type contributes its subtype. */
  lemma UnknownContentType(url: string)
    requires '.' !in url
    ensures GetExtension(url, "application/custom-foo") == "custom-foo"
  {
    assert "application" + "/" + "custom-foo" == "application/custom-foo";
    UnknownTypeGivesSubtype("application", "custom-foo");
  }

  /**
   * The suffix is taken from the whole URL, host included: a path without a
   * dot under a dotted host yields the tail of the host and the path.
   */
  lemma HostSuffix(ct: string)
    ensures GetExtension("https://ex.com/a", ct) == "com/a"
  {
    assert "https://ex" + "." + "com/a" == "https://ex.com/a";
    ShortUrlSuffixWins("https://ex", "com/a", ct);
  }

  /**
   * A dot that only occurs in the query string still enables the URL rule,
   * which then returns the whole text before `?` when it is short enough.
   */
  lemma DotOnlyInQuery(p: string, query: string, ct: string)
    requires '?' !in p && '.' !in p && 0 < |p| <= MaxUrlExtension
    requires '.' in query
    ensures GetExtension(p + "?" + query, ct) == p
  {
    var url := p + "?" + query;
    assert url[..|p|] == p && url[|p|] == '?';
    assert QueryStart(url, |p|);
    assert LastField(url[..|p|], '.', p);
    var i :| 0 <= i < |query| && query[i] == '.';
    assert url[|p| + 1 + i] == '.';
    assert '.' in url;
    UrlSuffixUnique(url, p);
  }

  /**
   * A query-free URL ending in `.mp4` gets the extension `mp4` whatever the
   * server reports; with a blank answer the output name is then `.mp4`
   * (`Output.BlankAnswerGivesDefault`).
   */
  lemma Mp4Extension(stem: string, ct: string)
    requires '?' !in stem
    ensures GetExtension(stem + ".mp4", ct) == "mp4"
  {
    assert stem + ".mp4" == stem + "." + "mp4";
    ShortUrlSuffixWins(stem, "mp4", ct);
  }
}
