# youtube-dl-interactive: the decision logic of `cli.js`, in Dafny

`youtube-dl-interactive` is a command-line front end to youtube-dl. It runs
`youtube-dl -F "<url>"` to list the available formats and drops the log lines
(lines that begin with `[`) from that listing. It parses the rest as a table,
drops every "video only" format and asks the user to narrow the choice, first
by resolution and then by extension. If more than one format is left, the user
picks one. Finally it runs `youtube-dl -f <format> [--all-subs --embed-subs]
"<url>"`.

This project models that logic and proves its properties:

- `strings.dfy`, module `Strings`: the JavaScript string operations the code
  uses. These are `indexOf` with a string argument, and `split` and `join` with
  a one-character separator. It proves that split and join are inverses.
- `seqs.dfy`, module `Seqs`: `Array.prototype.filter` and the subsequence
  relation. It proves that the subsequence relation is transitive and that
  filtering keeps exactly the elements that pass.
- `cli.dfy`, module `Cli`: `cli.js` itself. It has `skipLogsInStdout`, the
  "video only" pre-filter, `fetchFormatOptions`, `selectFormat` and the
  command building in `init`.

Running programs, parsing the table and prompting are taken as parameters:

- `exec` models `shell.exec`: it maps a command line to its exit code, stdout
  and stderr.
- `parseColumns` models the `parse-columns` library: it maps text to records.
- `filterByProperty` and `selectOne` model the prompts in `questions.js`.
- `includeSubs` is the answer to `askIncludeSubs`.

Only two things are assumed about these parameters. `filterByProperty` returns
a subsequence of the list it is given (`NarrowsToSubsequence`). When
`selectOne` is given more than one format, it returns one of them
(`PicksMember`). `selectFormat` can return three kinds of value: `null` (listing
failed), `undefined` (nothing left) or a record. The `Selection` datatype gives
these three outcomes.

Three details of the code's behaviour:

- Only a `[` at index 0 makes a line a log line. A line with spaces before its
  `[` is kept (`IndentedBracketLineKept`).
- When the listing fails, `selectFormat` returns `null` and `init` builds no
  command. Nothing in `cli.js` sets a failing exit status on that path.
- When no format is left, the result is JavaScript's `undefined`, which is
  element 0 of an empty list. `init` treats it, like `null`, as "no download".

## Model

| member | source | states |
|---|---|---|
| `Strings.IndexOf` | cli.js:60 | `s.indexOf(pat)` is -1 exactly when `pat` occurs nowhere in `s`; otherwise it is the index of the first occurrence |
| `Strings.Split` | cli.js:102 | `split('\n')` always yields at least one piece, and no piece contains the separator |
| `Strings.JoinSplit` | cli.js:101-104 | joining the pieces of a split restores the original text |
| `Strings.Join` | cli.js:104 | no contract of its own; properties in `Strings.JoinSplit` and `Strings.SplitJoin` |
| `Strings.SplitJoin` | cli.js:101-104 | splitting a join of separator-free pieces gives back the pieces |
| `Seqs.Filter` | cli.js:103 | the filtered list is no longer than its input, and every element of it passes the predicate |
| `Seqs.FilterIsSubsequence` | cli.js:103 | `filter` keeps an order-preserving subsequence of its input |
| `Seqs.FilterCounts` | cli.js:103 | `filter` keeps every passing element exactly as often as the input holds it, and no failing element |
| `Seqs.FilterKeepsAll` | cli.js:103 | filtering a list whose every element passes changes nothing |
| `Seqs.SubsequenceTransitive` | cli.js:56-73 | a subsequence of a subsequence is a subsequence, so the narrowing stages compose |
| `Seqs.SubsequenceMembers` | cli.js:63-76 | a subsequence is no longer than its source and holds only the source's elements |
| `Cli.IsKeptLine` | cli.js:103 | no contract of its own; properties in `Cli.KeptLineIff` |
| `Cli.SkipLogsInStdout` | cli.js:100-105 | no contract of its own; properties in `Cli.SkipLogsInStdoutLines`, `Cli.StrippedOutput`, `Cli.SkipLogsWithoutLogLines` and `Cli.SkipLogsIdempotent` |
| `Cli.KeptLines` | cli.js:101-103 | no contract of its own; properties in `Cli.SkipLogsInStdoutLines` |
| `Cli.KeptLineIff` | cli.js:103 | `line.indexOf('[') !== 0` holds exactly when the line does not begin with `[` |
| `Cli.SkipLogsInStdoutLines` | cli.js:100-105 | the lines of the stripped output are exactly the input lines that pass the filter, in order and with their multiplicities; if none pass, the output is empty |
| `Cli.NoLogLineRemains` | cli.js:100-105 | no line of the stripped output begins with `[` |
| `Cli.NonLogLineKept` | cli.js:100-105 | every input line that does not begin with `[` appears, unchanged, among the output lines |
| `Cli.IndentedBracketLineKept` | cli.js:103 | a line that begins with a space, even one before a `[`, is kept |
| `Cli.StrippedOutput` | cli.js:100-105 | the stripped output has no line beginning with `[` and holds every input line that does not |
| `Cli.SkipLogsWithoutLogLines` | cli.js:100-105 | text with no line beginning with `[` passes through unchanged |
| `Cli.SkipLogsIdempotent` | cli.js:100-105 | stripping log lines twice is the same as stripping them once |
| `Cli.IsNotVideoOnly` | cli.js:60 | no contract of its own; properties in `Cli.WithoutVideoOnlySpec` |
| `Cli.WithoutVideoOnly` | cli.js:59-61 | no contract of its own; properties in `Cli.WithoutVideoOnlySpec` and `Cli.WithoutVideoOnlyRetains` |
| `Cli.WithoutVideoOnlySpec` | cli.js:58-61 | the pre-filter keeps an order-preserving subsequence in which no note contains "video only", and every record whose note lacks it stays with its multiplicity |
| `Cli.WithoutVideoOnlyRetains` | cli.js:59-61 | every input record whose note lacks "video only" is retained |
| `Cli.ListingCommand` | cli.js:84 | no contract of its own: the command `youtube-dl -F "<url>"` |
| `Cli.FetchFormatOptions` | cli.js:82-98 | no contract of its own; properties in `Cli.FetchFormatOptionsSpec` and `Cli.FetchIgnoresLogLines` |
| `Cli.FetchFormatOptionsSpec` | cli.js:82-98 | the listing yields no formats exactly when `youtube-dl -F "<url>"` exits non-zero; otherwise the table parser is handed a text with no line beginning with `[` that still holds every other line of stdout |
| `Cli.FetchIgnoresLogLines` | cli.js:93-97 | two listings with the same exit code and the same non-log lines give the same formats, so log lines never influence the parsed records |
| `Cli.Narrowed` | cli.js:56-73 | no contract of its own; properties in `Cli.NarrowedIsSubsequence` |
| `Cli.SelectionOf` | cli.js:50-80 | no contract of its own; properties in `Cli.ChosenIsListedAndNotVideoOnly`, `Cli.SingleRemainingNeedsNoPick` and `Cli.SelectFormat` |
| `Cli.NarrowedIsSubsequence` | cli.js:56-73 | after the pre-filter and both prompts, the remaining list is a subsequence of the pre-filtered list and of the listing, so it never grows |
| `Cli.ChosenIsListedAndNotVideoOnly` | cli.js:50-80 | a chosen format comes from the listing and its note never contains "video only" |
| `Cli.SingleRemainingNeedsNoPick` | cli.js:75-79 | when exactly one format remains it is the result, whatever the final pick would have answered |
| `Cli.SelectFormat` | cli.js:50-80 | the result is `null` exactly when the listing exits non-zero; `undefined` exactly when nothing remains; the single remaining record when one remains; the picked member of the remaining list when more remain; and a chosen record is always listed and never "video only" |
| `Cli.DownloadOptions` | cli.js:32-35 | no contract of its own; properties in `Cli.SubtitleFlagsIffAnswer` |
| `Cli.DownloadCommand` | cli.js:41 | no contract of its own; properties in `Cli.DownloadCommandRoundTrip` |
| `Cli.NoSubtitleFlagsWithoutAnswer` | cli.js:32 | when the answer is no, options for a space-free format code do not end with the subtitle flags |
| `Cli.SubtitleFlagsIffAnswer` | cli.js:32-35 | the options begin with `-f <format>` and, for a space-free format code, end with ` --all-subs --embed-subs` if and only if the subtitle answer was yes |
| `Cli.DownloadCommandRoundTrip` | cli.js:41 | `youtube-dl <options> "<url>"` can be read back into exactly its options and its URL when the options contain no `"` |
| `Cli.Init` | cli.js:28-42 | a failed listing builds no command; a command is built exactly when a format was chosen; that command is `youtube-dl -f <format>[ --all-subs --embed-subs] "<url>"` for a listed, non-"video only" format |

## Left out

- The `which youtube-dl` check, `updateNotifier`, and the help shown when the argument count is wrong (cli.js:16-26). These are process-level I/O. The model starts from the single URL argument.
- The `ora` spinner, `console.log`/`console.error`, and echoing stdout and stderr when the listing fails (cli.js:37-40, 83-94). This is terminal output. `ExecResult.stderr` is carried but not examined.
- `shell.exec` running the download (cli.js:41). The model builds the command string and does not run it. The listing run is the parameter `exec`.
- `parse-columns` (cli.js:97): a third-party library. Its result is an arbitrary function of the stripped text. Records are assumed to carry `format`, `extension`, `resolution` and `note`. JavaScript would throw on a record without `note`, and that path is not modelled.
- `questions.filterByProperty`, `questions.selectOne` and `questions.askIncludeSubs`: their code is not part of this model. They appear only as parameters, with the two assumptions stated above. Nothing about distinct values or skipping uniform prompts is claimed.
- The async/await ordering and the top-level `.catch` handler that exits with status 1 (cli.js:45-48). Nothing in the modelled logic throws.
- How a shell would tokenise the command. The URL is wrapped in `"` without escaping, so a URL that contains `"` is not a single shell word. `DownloadCommandRoundTrip` asks only for options without `"`. It reads the URL back as everything after the first `"`, which is not what a shell does.
- Cli.SubtitleFlagsIffAnswer: the "if and only if" is proved only for format codes without spaces. A format code that itself ends with ` --all-subs --embed-subs` would make the flags appear without a yes.
