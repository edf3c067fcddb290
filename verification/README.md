# Axel download helper — string-handling core

`Axel/index.ts` is an interactive wrapper around the `axel` multi-connection
downloader. Most of it is glue: it checks that `axel` is installed, prompts
for a URL and a file name, probes the server with `curl -ILs`, and spawns
`axel`. Four pieces of it are pure string handling, and this project models
and verifies those four:

- **`parseArgs`** scans the command line. The only option it accepts is
  `-n <digits>`, the connection count, which defaults to 2. Any other token, a
  trailing `-n`, or a `-n` whose value is not all ASCII digits ends the
  program with exit status 1. Here that is an `Err` result.
- **`extractContentType`** returns the trimmed capture of the leftmost match
  of `/Content-Type:\s*([^;\r\n]+)/i` in the raw header text, or `""`.
- **`getExtension`** guesses a file extension in three tiers:
  1. the last `.`-piece of the URL before its first `?`, if the URL contains a
     dot and that piece has 1 to 5 characters;
  2. a fixed table of 13 MIME types;
  3. the text between the first and second `/` of the content type, and
     finally `bin`.
- **Output-name resolution** appends `"." + extension` to the file-name
  answer when the answer contains no dot.

Files and modules:

| file | module | contents |
|---|---|---|
| `wrappers.dfy` | `Wrappers` | `Option` and `Result` |
| `text.dfy` | `Text` | JavaScript `split`/`join` on one character, `trim` and the `\s` set, ASCII case folding, decimal digits |
| `args.dfy` | `Args` | `parseArgs` |
| `headers.dfy` | `Headers` | `extractContentType`, including the regular-expression search with backtracking |
| `extension.dfy` | `Extension` | `getExtension` and the MIME table |
| `output.dfy` | `Output` | the output-name fallback |
| `scenarios.dfy` | `Scenarios` | concrete behaviour derived from the general contracts |

Each operation is written the way the source computes it, on top of
`Split`/`Trim`. Its contract is stated against a separate, declarative definition:

- `Args.WellFormed` describes an accepted command line as `-n <digits>` pairs,
  without reference to the scan.
- `Extension.UrlSuffix`, `Extension.Subtype` and `Extension.UrlRuleApplies`
  describe the URL suffix and the MIME subtype by their positions in the text,
  not by splitting it.
- `Headers.LeftmostMatch` states which match attempt wins.

### Behaviour of the code that is easy to misread

- **Dot test.** One might expect the dot test to look only at the URL's path.
  The code tests the whole URL, host and query string included. So
  `https://ex.com/a` yields `com/a` (`Scenarios.HostSuffix`). A URL whose only
  dot is in its query string still takes the URL tier
  (`Scenarios.DotOnlyInQuery`).
- **`\s*` and line breaks.** `\s*` also matches line breaks. So
  `Content-Type:` followed by a line break and text on the next line captures
  that text (`Headers.ExtractFromHeaderLine` with a `gap` of `"\r\n"`).
- **Zero connections.** `/^\d+$/` admits `0`, so `-n 0` is accepted and gives
  a count of zero (`Scenarios.CommandLines`).

## Model

| member | source | states |
|---|---|---|
| `Args.ParseArgs` | Axel/index.ts:58-80 | the scan succeeds exactly on well-formed `-n <digits>` pair sequences; the empty command line gives 2; otherwise the count is the decimal value of the last `-n` value |
| `Args.Message` | Axel/index.ts:69-73 | both diagnostics start with `Erreur : `; the unknown-option message ends with the refused token |
| `Args.MessageIdentifiesError` | Axel/index.ts:69-73 | two errors print the same diagnostic exactly when they are the same error, so the message names the refused token |
| `Args.Scan` | Axel/index.ts:63-77 | the loop from position `i` accepts exactly when the remaining tokens are well formed, and then returns the last count given, or the count carried in |
| `Args.FirstErrorWins` | Axel/index.ts:64-75 | after any accepted prefix, the following all stop the program with their specific error, whatever tokens follow: an unknown option, a trailing `-n`, or `-n` with a non-digit value |
| `Args.LastCountWins` | Axel/index.ts:64-67 | appending `-n <digits>` to an accepted command line makes the count those digits' value; repeated flags: the last one wins |
| `Args.ScanSkips` | Axel/index.ts:63-77 | a well-formed stretch of tokens is consumed without changing the outcome of the rest of the scan |
| `Args.CountRoundTrip` | Axel/index.ts:66-67 | the rendered count (`connections.toString()`, line 147) parses back to the same count |
| `Text.DecimalRoundTrip` | Axel/index.ts:67 | `parseInt` on the decimal rendering of `n` gives back `n` |
| `Text.IsDigits` | Axel/index.ts:66 | `/^\d+$/`: a non-empty run of ASCII digits |
| `Text.DecimalValue` | Axel/index.ts:67 | `parseInt(s, 10)` of a digit string, exact; it is zero exactly when every digit is `0` |
| `Text.DecimalString` | Axel/index.ts:147 | `toString` of a count is a digit string without leading zeros |
| `Text.Split` | Axel/index.ts:101 | `split` on one character gives at least one piece, no piece contains the separator, and joining the pieces gives back the input |
| `Text.IsJsSpace` | Axel/index.ts:95-96 | the white-space set shared by `\s` and `trim`: tab, LF, VT, FF, CR, space, NBSP, the Unicode space separators, LS, PS and BOM |
| `Text.SplitJoin` | Axel/index.ts:101 | splitting the join of separator-free pieces gives those pieces back, so the pieces are unique |
| `Text.JoinLast` | Axel/index.ts:101 | the last piece (`pop()`) is the text after the last separator |
| `Text.JoinHead` | Axel/index.ts:101 | the first piece (`[0]`) is the text before the first separator |
| `Text.Trim` | Axel/index.ts:96 | `trim` keeps a contiguous part of the input; it removes only white space at both ends and leaves none there |
| `Text.TrimIdempotent` | Axel/index.ts:96 | trimming twice equals trimming once |
| `Headers.SpaceRun` | Axel/index.ts:95 | `\s*` first takes the maximal white-space run |
| `Headers.CaptureStart` | Axel/index.ts:95 | backtracking of `\s*` picks the largest shorter run after which `[^;\r\n]` can match, or fails when there is none |
| `Headers.RunEnd` | Axel/index.ts:95 | the greedy group stops at the first `;`, CR or LF, or at the end |
| `Headers.MatchAt` | Axel/index.ts:95 | a successful attempt starts with `Content-Type:` in any ASCII letter case and captures a non-empty text free of `;`, CR and LF |
| `Headers.MatchAtSpec` | Axel/index.ts:95 | an attempt succeeds exactly when the label (any ASCII letter case) is followed by white space and then a character other than `;`, CR, LF; the capture is the greedy run of such characters starting at the last position where it can start |
| `Headers.LabelSpelling` | Axel/index.ts:95 | the `/i` flag accepts exactly the spellings of `content-type:` with each letter in either case and `-`, `:` as written |
| `Headers.FirstMatch` | Axel/index.ts:95 | the search returns the leftmost position whose attempt succeeds, and reports failure only when every attempt fails |
| `Headers.ExtractContentType` | Axel/index.ts:94-97 | `""` when no match exists; otherwise the trimmed capture of the leftmost match; never contains `;`, CR or LF, and is trimmed |
| `Headers.FirstMatchIsLeftmost` | Axel/index.ts:95-96 | the search result is the unique leftmost match, or no match exists at all |
| `Headers.ExtractFromHeaderLine` | Axel/index.ts:95-96 | after any header text without a `Content-Type:` label of its own (status line, `Date:`, `Server:`, `Location:` …), a `Content-Type:` name in any letter case, white space (line breaks included) and a value with non-space ends yield that value, whatever follows a `;`, CR or LF |
| `Extension.UrlCandidate` | Axel/index.ts:101 | `url.split("?")[0].split(".").pop()` is the unique last `.`-piece of the text before the first `?` |
| `Extension.SubtypeOf` | Axel/index.ts:122 | `split("/")[1]` is the text between the first and second `/` |
| `Extension.ContentTypeExtension` | Axel/index.ts:105-125 | a table entry gives its extension; otherwise a content type with `/` gives its subtype; otherwise, including `""`, the result is `bin` |
| `Extension.GetExtension` | Axel/index.ts:99-126 | when the URL has a dot and a 1-5 character suffix, that suffix is returned; otherwise the content-type tiers decide |
| `Extension.UrlWins` | Axel/index.ts:100-102 | when the URL rule applies, the content type has no influence |
| `Extension.ShortUrlSuffixWins` | Axel/index.ts:100-102 | a query-free URL ending in `.` plus a short dot-free word gets that word |
| `Extension.UnknownTypeGivesSubtype` | Axel/index.ts:122 | a content type `a/b` missing from the table gives `b` |
| `Extension.MimeTableShape` | Axel/index.ts:106-120 | every table key has a `/`; every value is non-empty, at most 5 characters and dot-free |
| `Extension.MimeExtensions` | Axel/index.ts:106-120 | the 13 MIME types and their extensions, exactly as listed |
| `Output.ResolveOutputName` | Axel/index.ts:144 | the result always contains a dot; an answer with a dot is kept; otherwise the answer is followed by `.` and the extension |
| `Output.ResolveIdempotent` | Axel/index.ts:144 | resolving a resolved name changes nothing, whatever extension is offered |
| `Output.ResolveSplitsBack` | Axel/index.ts:144 | for a dot-free answer and extension, splitting the name at `.` recovers both |
| `Output.BlankAnswerGivesDefault` | Axel/index.ts:141-144 | a blank answer gives exactly the default name shown, `.` followed by the extension |
| `Scenarios.CommandLines` | Axel/index.ts:58-80 | `[]` gives 2; `-n 8` gives 8; `-n 0` gives 0; the last `-n` wins; unknown options, a trailing `-n`, and `-n` with `abc`, `-3` or `""` are errors |
| `Scenarios.TableLookups` | Axel/index.ts:105-121 | a dot-free URL with `image/png`, `image/jpeg`, `video/ogg` or `image/svg+xml` gives `png`, `jpg`, `ogv`, `svg` |
| `Scenarios.NoInformation` | Axel/index.ts:105-125 | a dot-free URL with an empty or slash-free content type gives `bin` |
| `Scenarios.UnknownContentType` | Axel/index.ts:122 | `application/custom-foo` gives `custom-foo` |
| `Scenarios.HostSuffix` | Axel/index.ts:100-102 | `https://ex.com/a` gives `com/a`, whatever the content type |
| `Scenarios.DotOnlyInQuery` | Axel/index.ts:100-102 | a dot only in the query string still enables the URL rule, which returns the short text before `?` |
| `Scenarios.Mp4Extension` | Axel/index.ts:99-102 | a query-free URL ending in `.mp4` gets `mp4`, whatever the server reports |

## Left out

- `checkAxelInstalled` (OS check, `axel --version`, `brew install`, confirmation prompt): process and package-manager I/O.
- `ask` and the prompts: interactive I/O. Their `trim` is not applied to the inputs of the model; the helpers accept any string.
- `getHeaders`: a `curl` subprocess. Its output, or `""` on failure, is the arbitrary header text given to `ExtractContentType`.
- The empty-URL check in `main`, and spawning `axel` with SIGINT forwarding and exit reporting: control flow around subprocesses and signals. `connections.toString()` from the spawn line is modelled as `DecimalString` only.
- The `ora` spinner and all console messages except the wording of the two argument errors (`Args.Message`).
- `Args.ParseArgs`: the count is an unbounded natural number; `parseInt`'s loss of precision on digit strings longer than about 15 digits, and `toString`'s exponent form for counts of 1e21 and above (which would not parse back through `-n`), are not modelled.
- `Extension.ContentTypeExtension`: the table is a finite map with exactly the 13 entries. Inherited JavaScript object keys such as `constructor` are not in it, so such a content type falls through to the subtype/`bin` tiers.
- `Extension.GetExtension`: strings are sequences of Unicode scalar values. JavaScript's `length` counts UTF-16 code units, so a suffix containing characters outside the Basic Multilingual Plane is measured differently.
- `Headers.MatchAt`: the `/i` flag is modelled as ASCII case folding. For the letters of `Content-Type:` this is exact, because JavaScript's non-Unicode case canonicalisation never maps a non-ASCII character to an ASCII one.
