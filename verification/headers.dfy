/**
 * `extractContentType`: the leftmost match of the regular expression
 * `/Content-Type:\s*([^;\r\n]+)/i` in a raw header block, with the captured
 * group trimmed, or the empty string when nothing matches.
 *
 * The search is modelled with the backtracking a regular-expression engine
 * performs: `\s*` first takes the whole white-space run (line breaks
 * included), then gives characters back one at a time until the group
 * `[^;\r\n]+` can take at least one character.
 */
module Headers {
  import opened Wrappers
  import opened Text

  /** The literal part of the pattern, in the case the `/i` flag folds to. */
  const Label: string := "content-type:"

  /** Characters the capture group `[^;\r\n]` refuses. */
  predicate IsStop(c: char) {
    c == ';' || c == '\r' || c == '\n'
  }

  /** `Content-Type:` occurs at position `j`, ignoring the case of ASCII letters. */
  predicate LabelAt(h: string, j: nat) {
    j + |Label| <= |h| && FoldString(h[j..j + |Label|]) == Label
  }

  /**
   * The spellings the `/i` flag accepts for the label: each letter in either
   * case, every other character exactly as written.
   */
  lemma LabelSpelling(s: string)
    ensures FoldString(s) == Label <==>
      |s| == |Label| && forall i :: 0 <= i < |s| ==>
        s[i] == Label[i] || ('a' <= Label[i] <= 'z' && s[i] as int == Label[i] as int - 32)
  {
    if |s| == |Label| && forall i :: 0 <= i < |s| ==>
        s[i] == Label[i] || ('a' <= Label[i] <= 'z' && s[i] as int == Label[i] as int - 32)
    {
      forall i | 0 <= i < |s|
        ensures FoldString(s)[i] == Label[i]
      {
        assert !('A' <= Label[i] <= 'Z');
      }
    }
  }

  /** Length of the white-space run `\s*` starting at `q`. */
  function SpaceRun(h: string, q: nat): (w: nat)
    requires q <= |h|
    ensures q + w <= |h|
    ensures forall k :: q <= k < q + w ==> IsJsSpace(h[k])
    ensures q + w == |h| || !IsJsSpace(h[q + w])
    decreases |h| - q
  {
    if q < |h| && IsJsSpace(h[q]) then 1 + SpaceRun(h, q + 1) else 0
  }

  /**
   * Backtracking of `\s*`: the largest `l <= w` such that the capture group
   * can start at `q + l`, that is, the character there exists and is not a stop.
   */
  function CaptureStart(h: string, q: nat, w: nat): (r: Option<nat>)
    requires q + w <= |h|
    ensures r.Some? ==> q <= r.value <= q + w && r.value < |h| && !IsStop(h[r.value])
    ensures r.Some? ==> forall k :: r.value < k <= q + w && k < |h| ==> IsStop(h[k])
    ensures r.None? ==> forall k :: q <= k <= q + w && k < |h| ==> IsStop(h[k])
    decreases w
  {
    if q + w < |h| && !IsStop(h[q + w]) then Some(q + w)
    else if w == 0 then None
    else CaptureStart(h, q, w - 1)
  }

  /** End of the greedy group `[^;\r\n]+` started at `p`. */
  function RunEnd(h: string, p: nat): (e: nat)
    requires p <= |h|
    ensures p <= e <= |h|
    ensures forall k :: p <= k < e ==> !IsStop(h[k])
    ensures e == |h| || IsStop(h[e])
    decreases |h| - p
  {
    if p < |h| && !IsStop(h[p]) then RunEnd(h, p + 1) else p
  }

  /**
   * The capture group can start at `p` in an attempt anchored at `j`: only
   * white space lies between the label and `p`, and `h[p]` is not a stop.
   */
  ghost predicate CanCaptureFrom(h: string, j: nat, p: int) {
    j + |Label| <= p < |h|
    && (forall k :: j + |Label| <= k < p ==> IsJsSpace(h[k]))
    && !IsStop(h[p])
  }

  /** `v` is the greedy run of non-stop characters starting at `p`. */
  ghost predicate GreedyRunAt(h: string, p: nat, v: string) {
    p + |v| <= |h| && h[p..p + |v|] == v
    && (forall k :: 0 <= k < |v| ==> !IsStop(v[k]))
    && (p + |v| == |h| || IsStop(h[p + |v|]))
  }

  /** The capture of a match attempt anchored at position `j`, if the attempt succeeds. */
  function MatchAt(h: string, j: nat): (r: Option<string>)
    ensures r.Some? ==> LabelAt(h, j)
    ensures r.Some? ==> |r.value| > 0 && forall k :: 0 <= k < |r.value| ==> !IsStop(r.value[k])
  {
    if !LabelAt(h, j) then None
    else
      var q := j + |Label|;
      match CaptureStart(h, q, SpaceRun(h, q))
      case None => None
      case Some(p) => Some(h[p..RunEnd(h, p)])
  }

  /**
   * When an attempt succeeds and what it captures: it succeeds exactly when
   * the label is there and the group can start somewhere after it; the group
   * then starts at the last such position (`\s*` gives back as little as it
   * must) and runs greedily up to a stop or the end.
   */
  lemma MatchAtSpec(h: string, j: nat)
    ensures MatchAt(h, j).Some? <==> LabelAt(h, j) && exists p :: CanCaptureFrom(h, j, p)
    ensures MatchAt(h, j).Some? ==>
      exists p :: CanCaptureFrom(h, j, p) && GreedyRunAt(h, p, MatchAt(h, j).value)
        && forall p' :: CanCaptureFrom(h, j, p') ==> p' <= p
  {
    if LabelAt(h, j) {
      var q := j + |Label|;
      var w := SpaceRun(h, q);
      match CaptureStart(h, q, w)
      case None =>
        CaptureStartNone(h, j, w);
      case Some(p) =>
        var e := RunEnd(h, p);
        CaptureStartSome(h, j, w, p);
        assert GreedyRunAt(h, p, h[p..e]);
    }
  }

  /** When backtracking finds no start, no position can start the group. */
  lemma CaptureStartNone(h: string, j: nat, w: nat)
    requires j + |Label| + w <= |h|
    requires forall k :: j + |Label| <= k < j + |Label| + w ==> IsJsSpace(h[k])
    requires j + |Label| + w == |h| || !IsJsSpace(h[j + |Label| + w])
    requires forall k :: j + |Label| <= k <= j + |Label| + w && k < |h| ==> IsStop(h[k])
    ensures forall p :: !CanCaptureFrom(h, j, p)
  {
  }

  /** The start backtracking finds is the last position that can start the group. */
  lemma CaptureStartSome(h: string, j: nat, w: nat, p: nat)
    requires j + |Label| + w <= |h|
    requires forall k :: j + |Label| <= k < j + |Label| + w ==> IsJsSpace(h[k])
    requires j + |Label| + w == |h| || !IsJsSpace(h[j + |Label| + w])
    requires j + |Label| <= p <= j + |Label| + w && p < |h| && !IsStop(h[p])
    requires forall k :: p < k <= j + |Label| + w && k < |h| ==> IsStop(h[k])
    ensures CanCaptureFrom(h, j, p)
    ensures forall p' :: CanCaptureFrom(h, j, p') ==> p' <= p
  {
  }

  /** The match attempt at `at` succeeds and every attempt further left fails. */
  ghost predicate LeftmostMatch(h: string, at: nat) {
    MatchAt(h, at).Some? && forall k :: 0 <= k < at ==> MatchAt(h, k).None?
  }

  /** The leftmost position at or after `j` where a match attempt succeeds. */
  function FirstMatch(h: string, j: nat): (r: Option<nat>)
    requires j <= |h|
    ensures r.Some? ==> j <= r.value <= |h| && MatchAt(h, r.value).Some?
    ensures r.Some? ==> forall k :: j <= k < r.value ==> MatchAt(h, k).None?
    ensures r.None? ==> forall k :: j <= k <= |h| ==> MatchAt(h, k).None?
    decreases |h| - j
  {
    if MatchAt(h, j).Some? then Some(j)
    else if j == |h| then None
    else FirstMatch(h, j + 1)
  }

  /**
   * `extractContentType(headers)`: the trimmed capture of the leftmost match,
   * or `""` when the pattern matches nowhere.
   */
  function ExtractContentType(h: string): (r: string)
    ensures (forall k :: 0 <= k <= |h| ==> !LabelAt(h, k)) ==> r == ""
    ensures (forall k :: 0 <= k <= |h| ==> MatchAt(h, k).None?) ==> r == ""
    ensures forall at :: 0 <= at <= |h| && LeftmostMatch(h, at) ==> r == Trim(MatchAt(h, at).value)
    ensures ';' !in r && '\r' !in r && '\n' !in r
    ensures r == "" || (!IsJsSpace(r[0]) && !IsJsSpace(r[|r| - 1]))
  {
    var first := FirstMatch(h, 0);
    FirstMatchIsLeftmost(h, first);
    match first
    case None => ""
    case Some(at) =>
      var capture := MatchAt(h, at).value;
      assert forall c :: c in capture ==> !IsStop(c);
      Trim(capture)
  }

  lemma FirstMatchIsLeftmost(h: string, first: Option<nat>)
    requires first == FirstMatch(h, 0)
    ensures first.None? ==> forall at :: 0 <= at <= |h| ==> !LeftmostMatch(h, at)
    ensures first.None? ==> forall k :: 0 <= k <= |h| ==> MatchAt(h, k).None?
    ensures first.Some? ==> LeftmostMatch(h, first.value)
    ensures first.Some? ==> forall at :: 0 <= at <= |h| && LeftmostMatch(h, at) ==> at == first.value
  {
    if first.Some? {
      forall at | 0 <= at <= |h| && LeftmostMatch(h, at)
        ensures at == first.value
      {
        LeftmostUnique(h, at, first.value);
      }
    }
  }

  /** At most one position holds the leftmost match. */
  lemma LeftmostUnique(h: string, a: nat, b: nat)
    requires LeftmostMatch(h, a) && LeftmostMatch(h, b)
    ensures a == b
  {
  }

  /**
   * A typical response: a status line and other headers (`Date:`, `Server:`,
   * `Location:` …) in which no `Content-Type:` label occurs, then a header
   * whose name is `Content-Type:` in any letter case, any white space (line
   * breaks included, as `\s*` allows), and a value that is followed by `;`,
   * a line break or the end of the text. The value is returned as it stands.
   */
  lemma ExtractFromHeaderLine(p: string, name: string, gap: string, v: string, rest: string)
    requires forall i: nat :: i + |Label| <= |p| ==> !LabelAt(p, i)
    requires |name| == |Label| && FoldString(name) == Label
    requires AllSpace(gap)
    requires |v| > 0 && !IsJsSpace(v[0]) && !IsJsSpace(v[|v| - 1])
    requires forall k :: 0 <= k < |v| ==> !IsStop(v[k])
    requires rest == "" || IsStop(rest[0])
    ensures ExtractContentType(p + name + gap + v + rest) == v
  {
    var h := p + name + gap + v + rest;
    MatchOnHeaderLine(p, name, gap, v, rest);
    forall k | 0 <= k < |p|
      ensures MatchAt(h, k).None?
    {
      NoLabelBefore(p, name, h, k);
    }
    assert LeftmostMatch(h, |p|);
    TrimNoop(v);
  }

  /** The match attempt at the header name captures exactly the value. */
  lemma MatchOnHeaderLine(p: string, name: string, gap: string, v: string, rest: string)
    requires |name| == |Label| && FoldString(name) == Label
    requires AllSpace(gap)
    requires |v| > 0 && !IsJsSpace(v[0])
    requires forall k :: 0 <= k < |v| ==> !IsStop(v[k])
    requires rest == "" || IsStop(rest[0])
    ensures MatchAt(p + name + gap + v + rest, |p|) == Some(v)
  {
    var h := p + name + gap + v + rest;
    var j := |p|;
    var q := j + |Label|;
    var s := q + |gap|;
    assert h[j..q] == name;
    assert LabelAt(h, j);
    forall k | q <= k < s
      ensures IsJsSpace(h[k])
    {
      assert h[k] == gap[k - q];
    }
    assert h[s] == v[0];
    var w := SpaceRun(h, q);
    assert w == |gap|;
    assert CaptureStart(h, q, w) == Some(s);
    var e := RunEnd(h, s);
    forall k | s <= k < s + |v|
      ensures !IsStop(h[k])
    {
      assert h[k] == v[k - s];
    }
    assert s + |v| == |h| || h[s + |v|] == rest[0];
    assert e == s + |v|;
    assert h[s..e] == v;
  }

  /** No label starts inside `p`: those lying in `p` are excluded, and those reaching into `name` end before its colon. */
  lemma NoLabelBefore(p: string, name: string, h: string, k: nat)
    requires forall i: nat :: i + |Label| <= |p| ==> !LabelAt(p, i)
    requires |name| == |Label| && FoldString(name) == Label
    requires |p| + |name| <= |h| && h[..|p| + |name|] == p + name
    requires k < |p|
    ensures !LabelAt(h, k)
  {
    LabelEndsInColon(h, k);
    var c := k + |Label| - 1;
    if k + |Label| <= |p| {
      assert h[k..k + |Label|] == p[k..k + |Label|];
      assert !LabelAt(p, k);
    } else if c < |h| {
      var i := c - |p|;
      assert h[c] == name[i];
      assert Label[i] == FoldCase(name[i]);
      assert Label[..|Label| - 1] == "content-type";
      assert Label[..|Label| - 1][i] == Label[i];
      assert h[c] != ':';
    }
  }

  lemma LabelEndsInColon(h: string, k: nat)
    ensures LabelAt(h, k) ==> h[k + |Label| - 1] == ':'
  {
    if LabelAt(h, k) {
      assert FoldString(h[k..k + |Label|])[|Label| - 1] == ':';
    }
  }
}
