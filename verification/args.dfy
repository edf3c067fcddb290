/**
 * The command-line scanner `parseArgs`: the only accepted option is `-n`
 * followed by a decimal connection count; every other token stops the program.
 */
module Args {
  import opened Wrappers
  import opened Text

  /** Connection count used when no `-n` option is given. */
  const DefaultConnections: nat := 2

  /** Why the scanner stopped the program (exit status 1). */
  datatype ArgError =
    | UnknownOption(token: string)  // a token other than `-n` in option position
    | BadCount                      // `-n` last, or followed by a non-digit token

  /** Common head of both diagnostics. */
  const ErrorPrefix: string := "Erreur : "
  const UnknownOptionText: string := ErrorPrefix + "Option inconnue "
  const BadCountText: string := ErrorPrefix + "Le " + "paramètre de -n doit être un nombre entier."

  /** The diagnostic written to standard error before exiting. */
  function Message(e: ArgError): (m: string)
    ensures |ErrorPrefix| < |m| && m[..|ErrorPrefix|] == ErrorPrefix
    ensures e.UnknownOption? ==> |e.token| < |m| && m[|m| - |e.token|..] == e.token
  {
    match e
    case UnknownOption(t) =>
      assert (UnknownOptionText + t)[..|ErrorPrefix|] == UnknownOptionText[..|ErrorPrefix|];
      UnknownOptionText + t
    case BadCount => BadCountText
  }

  /** The diagnostic tells the errors apart, including which token was refused. */
  lemma MessageIdentifiesError(e1: ArgError, e2: ArgError)
    ensures Message(e1) == Message(e2) <==> e1 == e2
  {
    var n := |ErrorPrefix|;
    assert UnknownOptionText[n] == 'O';
    assert BadCountText[n] == 'L';
    if e1.UnknownOption? && e2.UnknownOption? && e1 != e2 {
      assert Message(e1)[|UnknownOptionText|..] == e1.token;
      assert Message(e2)[|UnknownOptionText|..] == e2.token;
    } else if e1.UnknownOption? != e2.UnknownOption? {
      assert Message(e1)[n] != Message(e2)[n];
    }
  }

  /**
   * An accepted command line: a sequence of `-n <digits>` pairs, each option
   * at an even position and each count a non-empty run of ASCII digits.
   */
  ghost predicate WellFormed(args: seq<string>) {
    |args| % 2 == 0
    && forall k :: 0 <= k < |args| && k % 2 == 0 ==> args[k] == "-n" && IsDigits(args[k + 1])
  }

  lemma WellFormedCons(a: seq<string>)
    ensures |a| == 0 ==> WellFormed(a)
    ensures |a| == 1 ==> !WellFormed(a)
    ensures |a| >= 2 ==> (WellFormed(a) <==> a[0] == "-n" && IsDigits(a[1]) && WellFormed(a[2..]))
  {
    if |a| >= 2 {
      if WellFormed(a) {
        forall k | 0 <= k < |a[2..]| && k % 2 == 0
          ensures a[2..][k] == "-n" && IsDigits(a[2..][k + 1])
        {
          assert a[2..][k] == a[k + 2] && a[2..][k + 1] == a[k + 3];
        }
      }
      if a[0] == "-n" && IsDigits(a[1]) && WellFormed(a[2..]) {
        forall k | 0 <= k < |a| && k % 2 == 0
          ensures a[k] == "-n" && IsDigits(a[k + 1])
        {
          if k >= 2 {
            assert a[k] == a[2..][k - 2] && a[k + 1] == a[2..][k - 1];
          }
        }
      }
    }
  }

  /**
   * The `while` loop of `parseArgs` from index `i` with the count found so
   * far: accepted exactly when the remaining tokens are well formed, and then
   * the last count given wins.
   */
  function Scan(args: seq<string>, i: nat, connections: nat): (r: Result<nat, ArgError>)
    requires i <= |args|
    ensures r.Ok? <==> WellFormed(args[i..])
    ensures r.Ok? && i == |args| ==> r.value == connections
    ensures r.Ok? && i < |args| ==> IsDigits(args[|args| - 1]) && r.value == DecimalValue(args[|args| - 1])
    decreases |args| - i
  {
    WellFormedCons(args[i..]);
    if i == |args| then Ok(connections)
    else if args[i] == "-n" then
      if i + 1 < |args| && IsDigits(args[i + 1]) then
        assert args[i..][2..] == args[i + 2..];
        Scan(args, i + 2, DecimalValue(args[i + 1]))
      else
        Err(BadCount)
    else
      Err(UnknownOption(args[i]))
  }

  /**
   * `parseArgs` on the arguments after the interpreter and script name:
   * `Ok(connections)` or the error that makes the program exit.
   */
  function ParseArgs(args: seq<string>): (r: Result<nat, ArgError>)
    ensures r.Ok? <==> WellFormed(args)
    ensures args == [] ==> r == Ok(DefaultConnections)
    ensures r.Ok? && args != [] ==>
      args[|args| - 2] == "-n" && IsDigits(args[|args| - 1]) && r.value == DecimalValue(args[|args| - 1])
  {
    assert args[0..] == args;
    var r := Scan(args, 0, DefaultConnections);
    assert r.Ok? && args != [] ==> (|args| - 2) % 2 == 0;
    r
  }

  /** A well-formed stretch of tokens is consumed without changing the outcome of what follows. */
  lemma {:induction false} ScanSkips(args: seq<string>, i: nat, j: nat, c: nat)
    requires i <= j <= |args|
    requires WellFormed(args[i..j])
    ensures i < j ==> IsDigits(args[j - 1]) && Scan(args, i, c) == Scan(args, j, DecimalValue(args[j - 1]))
    decreases j - i
  {
    if i < j {
      WellFormedCons(args[i..j]);
      assert args[i..j][0] == args[i] && args[i..j][1] == args[i + 1];
      assert args[i..j][2..] == args[i + 2..j];
      ScanSkips(args, i + 2, j, DecimalValue(args[i + 1]));
    }
  }

  /**
   * The scanner stops at the first offending token, whatever follows it: an
   * unknown option, a trailing `-n`, or a `-n` whose value is not all digits.
   */
  lemma FirstErrorWins(p: seq<string>, t: string, rest: seq<string>)
    requires WellFormed(p)
    ensures t != "-n" ==> ParseArgs(p + [t] + rest) == Err(UnknownOption(t))
    ensures ParseArgs(p + ["-n"]) == Err(BadCount)
    ensures !IsDigits(t) ==> ParseArgs(p + ["-n", t] + rest) == Err(BadCount)
  {
    var a1 := p + [t] + rest;
    assert a1[0..|p|] == p;
    ScanSkips(a1, 0, |p|, DefaultConnections);
    var a2 := p + ["-n"];
    assert a2[0..|p|] == p;
    ScanSkips(a2, 0, |p|, DefaultConnections);
    var a3 := p + ["-n", t] + rest;
    assert a3[0..|p|] == p;
    ScanSkips(a3, 0, |p|, DefaultConnections);
    assert a3[|p|] == "-n" && a3[|p| + 1] == t;
  }

  /** Appending `-n <digits>` to an accepted command line sets the count to those digits. */
  lemma LastCountWins(p: seq<string>, d: string)
    requires WellFormed(p)
    requires IsDigits(d)
    ensures ParseArgs(p + ["-n", d]) == Ok(DecimalValue(d))
  {
    var a := p + ["-n", d];
    WellFormedCons(["-n", d]);
    assert ["-n", d][2..] == [];
    WellFormedCons([]);
    assert a[0..|p|] == p;
    assert a[|p|..|a|] == ["-n", d];
    ScanSkips(a, 0, |p|, DefaultConnections);
    var c := if |p| == 0 then DefaultConnections else DecimalValue(p[|p| - 1]);
    ScanSkips(a, |p|, |a|, c);
  }

  /** The count the program passes on to the downloader (`connections.toString()`) parses back to itself. */
  lemma CountRoundTrip(n: nat)
    ensures ParseArgs(["-n", DecimalString(n)]) == Ok(n)
  {
    DecimalRoundTrip(n);
    LastCountWins([], DecimalString(n));
    assert [] + ["-n", DecimalString(n)] == ["-n", DecimalString(n)];
  }
}
