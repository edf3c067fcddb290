/**
 * Resolution of the output file name: the answer to the file-name prompt
 * gets `.` and the guessed extension appended when it contains no dot.
 */
module Output {
  import opened Text

  /** `if (output.lastIndexOf(".") === -1) output += "." + extension`. */
  function ResolveOutputName(answer: string, ext: string): (r: string)
    ensures '.' in r
    ensures '.' in answer ==> r == answer
    ensures |answer| <= |r| && r[..|answer|] == answer
    ensures '.' !in answer ==> r[|answer|] == '.' && r[|answer| + 1..] == ext
  {
    if '.' !in answer then answer + "." + ext else answer
  }

  /** Resolving an already resolved name changes nothing, whatever extension is offered the second time. */
  lemma ResolveIdempotent(answer: string, ext: string, ext': string)
    ensures ResolveOutputName(ResolveOutputName(answer, ext), ext') == ResolveOutputName(answer, ext)
  {
  }

  /**
   * When a dot-free extension is appended to a dot-free answer, splitting the
   * result at `.` gives back the answer and the extension.
   */
  lemma ResolveSplitsBack(answer: string, ext: string)
    requires '.' !in answer && '.' !in ext
    ensures Split(ResolveOutputName(answer, ext), '.') == [answer, ext]
  {
    assert Join([answer, ext], '.') == ResolveOutputName(answer, ext);
    SplitJoin([answer, ext], '.');
  }

  /** A blank answer yields exactly the default name shown in the prompt, `.` followed by the extension. */
  lemma BlankAnswerGivesDefault(ext: string)
    ensures ResolveOutputName("", ext) == "." + ext
  {
  }
}
