/** The decision logic of the interactive youtube-dl front end (cli.js):
    stripping log lines from the format listing, dropping "video only"
    formats, narrowing the rest with prompts, and building the download
    command. Running programs, parsing the table into records and asking the
    user are passed in as functions (oracles). Of the prompts only two things
    are assumed: `filterByProperty` answers with a subsequence of its input
    (`NarrowsToSubsequence`) and `selectOne` answers with a member of its input
    (`PicksMember`). */
module Cli {
  import opened Seqs
  import opened Strings

  datatype Option<T> = None | Some(value: T)

  /** One row of youtube-dl's format table, as its columns come out of the table parser. */
  datatype Format = Format(format: string, extension: string, resolution: string, note: string)

  /** What `selectFormat` resolves to: `null` when the listing failed, `undefined`
      when no format is left, or the chosen record. */
  datatype Selection = Null | Undefined | Chosen(record: Format)

  /** What `shell.exec` reports about a finished program. */
  datatype ExecResult = ExecResult(code: int, stdout: string, stderr: string)

  const NewLine := '\n'
  const VideoOnly := "video only"
  const SubtitleFlags := " --all-subs --embed-subs"
  const ResolutionPrompt := "Select resolution:"
  const ExtensionPrompt := "Select extension:"

  // ---------------------------------------------------------------------
  // Log lines

  /** The filter predicate of `skipLogsInStdout`: `line.indexOf('[') !== 0`. */
  predicate IsKeptLine(line: string)
  {
    IndexOf(line, "[") != 0
  }

  /** `skipLogsInStdout`: split on newlines, drop the log lines, join again. */
  function SkipLogsInStdout(output: string): string
  {
    Join(KeptLines(output), NewLine)
  }

  /** The lines of `output` that `skipLogsInStdout` keeps. */
  function KeptLines(output: string): seq<string>
  {
    Filter(IsKeptLine, Split(output, NewLine))
  }

  /** A line is dropped exactly when its first character is `[`. */
  lemma KeptLineIff(line: string)
    ensures IsKeptLine(line) <==> !(|line| > 0 && line[0] == '[')
  {
  }

  /** The lines of the stripped output are exactly the kept input lines: in their
      original order, each non-log line as often as in the input, no log line. */
  lemma {:induction false} SkipLogsInStdoutLines(output: string)
    ensures IsSubsequence(KeptLines(output), Split(output, NewLine))
    ensures forall line :: multiset(KeptLines(output))[line] ==
                          (if IsKeptLine(line) then multiset(Split(output, NewLine))[line] else 0)
    ensures KeptLines(output) == [] ==> SkipLogsInStdout(output) == ""
    ensures KeptLines(output) != [] ==> Split(SkipLogsInStdout(output), NewLine) == KeptLines(output)
  {
    var lines := Split(output, NewLine);
    var kept := KeptLines(output);
    FilterIsSubsequence(IsKeptLine, lines);
    FilterCounts(IsKeptLine, lines);
    SubsequenceMembers(kept, lines);
    if kept != [] {
      forall i | 0 <= i < |kept|
        ensures NewLine !in kept[i]
      {
        assert kept[i] in lines;
      }
      SplitJoin(kept, NewLine);
    }
  }

  /** No line of the stripped output begins with `[`. */
  lemma NoLogLineRemains(output: string, line: string)
    requires line in Split(SkipLogsInStdout(output), NewLine)
    ensures !(|line| > 0 && line[0] == '[')
  {
    SkipLogsInStdoutLines(output);
    KeptLineIff(line);
    if KeptLines(output) == [] {
      assert Split("", NewLine) == [""];
    } else {
      assert multiset(KeptLines(output))[line] > 0;
    }
  }

  /** Every input line whose first character is not `[` survives, unchanged. */
  lemma NonLogLineKept(output: string, line: string)
    requires line in Split(output, NewLine)
    requires !(|line| > 0 && line[0] == '[')
    ensures line in Split(SkipLogsInStdout(output), NewLine)
  {
    SkipLogsInStdoutLines(output);
    KeptLineIff(line);
    assert multiset(Split(output, NewLine))[line] > 0;
    assert multiset(KeptLines(output))[line] > 0;
  }

  /** Only a `[` at index 0 removes a line: one indented before its `[` is kept. */
  lemma IndentedBracketLineKept(output: string, line: string)
    requires line in Split(output, NewLine)
    requires |line| > 0 && line[0] == ' '
    ensures line in Split(SkipLogsInStdout(output), NewLine)
  {
    NonLogLineKept(output, line);
  }

  /** No line of `text` begins with `[`. */
  ghost predicate HasNoLogLine(text: string)
  {
    forall line :: line in Split(text, NewLine) ==> !(|line| > 0 && line[0] == '[')
  }

  /** Every line of `output` that does not begin with `[` is a line of `text`. */
  ghost predicate KeepsNonLogLines(output: string, text: string)
  {
    forall line :: line in Split(output, NewLine) && !(|line| > 0 && line[0] == '[') ==>
                   line in Split(text, NewLine)
  }

  /** The stripped output has no log line and keeps every other line of the input. */
  lemma StrippedOutput(output: string)
    ensures HasNoLogLine(SkipLogsInStdout(output))
    ensures KeepsNonLogLines(output, SkipLogsInStdout(output))
  {
    forall line | line in Split(SkipLogsInStdout(output), NewLine)
      ensures !(|line| > 0 && line[0] == '[')
    {
      NoLogLineRemains(output, line);
    }
    forall line | line in Split(output, NewLine) && !(|line| > 0 && line[0] == '[')
      ensures line in Split(SkipLogsInStdout(output), NewLine)
    {
      NonLogLineKept(output, line);
    }
  }

  /** Output without log lines passes through unchanged. */
  lemma SkipLogsWithoutLogLines(output: string)
    requires HasNoLogLine(output)
    ensures SkipLogsInStdout(output) == output
  {
    var lines := Split(output, NewLine);
    forall i | 0 <= i < |lines|
      ensures IsKeptLine(lines[i])
    {
      KeptLineIff(lines[i]);
    }
    FilterKeepsAll(IsKeptLine, lines);
    JoinSplit(output, NewLine);
  }

  /** Stripping twice is stripping once. */
  lemma SkipLogsIdempotent(output: string)
    ensures SkipLogsInStdout(SkipLogsInStdout(output)) == SkipLogsInStdout(output)
  {
    StrippedOutput(output);
    SkipLogsWithoutLogLines(SkipLogsInStdout(output));
  }

  // ---------------------------------------------------------------------
  // The "video only" pre-filter

  /** The pre-filter's predicate: `f.note.indexOf('video only') === -1`. */
  predicate IsNotVideoOnly(f: Format)
  {
    IndexOf(f.note, VideoOnly) == -1
  }

  function WithoutVideoOnly(formats: seq<Format>): seq<Format>
  {
    Filter(IsNotVideoOnly, formats)
  }

  /** The pre-filter keeps, in order, exactly the records whose note lacks "video only". */
  lemma WithoutVideoOnlySpec(formats: seq<Format>)
    ensures IsSubsequence(WithoutVideoOnly(formats), formats)
    ensures forall f :: f in WithoutVideoOnly(formats) ==> !Contains(f.note, VideoOnly)
    ensures forall f :: multiset(WithoutVideoOnly(formats))[f] ==
                       (if Contains(f.note, VideoOnly) then 0 else multiset(formats)[f])
  {
    FilterIsSubsequence(IsNotVideoOnly, formats);
    FilterCounts(IsNotVideoOnly, formats);
  }

  /** Every input record whose note lacks "video only" is retained. */
  lemma WithoutVideoOnlyRetains(formats: seq<Format>, f: Format)
    requires f in formats && !Contains(f.note, VideoOnly)
    ensures f in WithoutVideoOnly(formats)
  {
    WithoutVideoOnlySpec(formats);
    assert multiset(formats)[f] > 0;
  }

  // ---------------------------------------------------------------------
  // Listing and selection

  /** The listing command run by `fetchFormatOptions`. */
  function ListingCommand(url: string): string
  {
    "youtube-dl -F \"" + url + "\""
  }

  /** `fetchFormatOptions`: run the listing; no formats on a non-zero exit code,
      otherwise the table parsed from stdout without its log lines. */
  function FetchFormatOptions(url: string, exec: string -> ExecResult,
                              parseColumns: string -> seq<Format>): Option<seq<Format>>
  {
    var run := exec(ListingCommand(url));
    if run.code != 0 then None
    else Some(parseColumns(SkipLogsInStdout(run.stdout)))
  }

  /** The listing gives no formats exactly on a non-zero exit code; otherwise the
      table parser is handed a text with no log line that still holds every
      other line of the listing's stdout. */
  lemma FetchFormatOptionsSpec(url: string, exec: string -> ExecResult,
                               parseColumns: string -> seq<Format>)
    ensures FetchFormatOptions(url, exec, parseColumns).None? <==> exec(ListingCommand(url)).code != 0
    ensures FetchFormatOptions(url, exec, parseColumns).Some? ==>
      exists text :: (FetchFormatOptions(url, exec, parseColumns).value == parseColumns(text) &&
                      HasNoLogLine(text) && KeepsNonLogLines(exec(ListingCommand(url)).stdout, text))
  {
    var stdout := exec(ListingCommand(url)).stdout;
    StrippedOutput(stdout);
    var text := SkipLogsInStdout(stdout);
    assert HasNoLogLine(text) && KeepsNonLogLines(stdout, text);
  }

  /** Log lines never influence the parsed records: two listings with the same
      exit code and the same non-log lines give the same result. */
  lemma FetchIgnoresLogLines(url: string, exec: string -> ExecResult, otherExec: string -> ExecResult,
                             parseColumns: string -> seq<Format>)
    requires exec(ListingCommand(url)).code == otherExec(ListingCommand(url)).code
    requires KeptLines(exec(ListingCommand(url)).stdout) == KeptLines(otherExec(ListingCommand(url)).stdout)
    ensures FetchFormatOptions(url, exec, parseColumns) == FetchFormatOptions(url, otherExec, parseColumns)
  {
  }

  /** The one thing assumed of `questions.filterByProperty(message, property, formats)`:
      it answers with a subsequence of the formats it is given. */
  ghost predicate NarrowsToSubsequence(filterByProperty: (string, string, seq<Format>) -> seq<Format>)
  {
    forall message, property, formats ::
      IsSubsequence(filterByProperty(message, property, formats), formats)
  }

  /** The one thing assumed of `questions.selectOne(formats)`: when offered more
      than one format it answers with one of them. */
  ghost predicate PicksMember(selectOne: seq<Format> -> Format)
  {
    forall formats :: |formats| > 1 ==> selectOne(formats) in formats
  }

  /** The formats left after the pre-filter and the resolution and extension prompts. */
  function Narrowed(formats: seq<Format>,
                    filterByProperty: (string, string, seq<Format>) -> seq<Format>): seq<Format>
  {
    var withoutVideoOnly := WithoutVideoOnly(formats);
    var byResolution := filterByProperty(ResolutionPrompt, "resolution", withoutVideoOnly);
    filterByProperty(ExtensionPrompt, "extension", byResolution)
  }

  /** The result of `selectFormat` for a given listing outcome. */
  function SelectionOf(listing: Option<seq<Format>>,
                       filterByProperty: (string, string, seq<Format>) -> seq<Format>,
                       selectOne: seq<Format> -> Format): Selection
  {
    match listing
    case None => Null
    case Some(formats) =>
      var remaining := Narrowed(formats, filterByProperty);
      if |remaining| > 1 then Chosen(selectOne(remaining))
      else if |remaining| == 1 then Chosen(remaining[0])
      else Undefined
  }

  /** Each narrowing stage keeps an order-preserving subsequence, so the list never grows. */
  lemma NarrowedIsSubsequence(formats: seq<Format>,
                              filterByProperty: (string, string, seq<Format>) -> seq<Format>)
    requires NarrowsToSubsequence(filterByProperty)
    ensures IsSubsequence(Narrowed(formats, filterByProperty), WithoutVideoOnly(formats))
    ensures IsSubsequence(Narrowed(formats, filterByProperty), formats)
    ensures |Narrowed(formats, filterByProperty)| <= |WithoutVideoOnly(formats)| <= |formats|
  {
    var withoutVideoOnly := WithoutVideoOnly(formats);
    var byResolution := filterByProperty(ResolutionPrompt, "resolution", withoutVideoOnly);
    var remaining := filterByProperty(ExtensionPrompt, "extension", byResolution);
    assert IsSubsequence(byResolution, withoutVideoOnly);
    assert IsSubsequence(remaining, byResolution);
    SubsequenceTransitive(remaining, byResolution, withoutVideoOnly);
    WithoutVideoOnlySpec(formats);
    SubsequenceTransitive(remaining, withoutVideoOnly, formats);
    SubsequenceMembers(remaining, withoutVideoOnly);
    SubsequenceMembers(withoutVideoOnly, formats);
  }

  /** A chosen format is one of the listed formats and is never "video only". */
  lemma ChosenIsListedAndNotVideoOnly(listing: Option<seq<Format>>,
                                      filterByProperty: (string, string, seq<Format>) -> seq<Format>,
                                      selectOne: seq<Format> -> Format)
    requires NarrowsToSubsequence(filterByProperty) && PicksMember(selectOne)
    ensures SelectionOf(listing, filterByProperty, selectOne).Chosen? ==>
      listing.Some? &&
      SelectionOf(listing, filterByProperty, selectOne).record in listing.value &&
      !Contains(SelectionOf(listing, filterByProperty, selectOne).record.note, VideoOnly)
  {
    if listing.Some? {
      var remaining := Narrowed(listing.value, filterByProperty);
      NarrowedIsSubsequence(listing.value, filterByProperty);
      SubsequenceMembers(remaining, WithoutVideoOnly(listing.value));
      WithoutVideoOnlySpec(listing.value);
      SubsequenceMembers(WithoutVideoOnly(listing.value), listing.value);
      if |remaining| > 1 {
        assert selectOne(remaining) in remaining;
      } else if |remaining| == 1 {
        assert remaining[0] in remaining;
      }
    }
  }

  /** With exactly one format left it is chosen without the final pick: the answer
      does not depend on `selectOne` at all. */
  lemma SingleRemainingNeedsNoPick(formats: seq<Format>,
                                   filterByProperty: (string, string, seq<Format>) -> seq<Format>,
                                   selectOne: seq<Format> -> Format,
                                   otherSelectOne: seq<Format> -> Format)
    requires |Narrowed(formats, filterByProperty)| == 1
    ensures SelectionOf(Some(formats), filterByProperty, selectOne) == Chosen(Narrowed(formats, filterByProperty)[0])
    ensures SelectionOf(Some(formats), filterByProperty, selectOne) ==
            SelectionOf(Some(formats), filterByProperty, otherSelectOne)
  {
  }

  /** `selectFormat`: fetch the listing, then narrow `remainingFormats` stage by stage. */
  method SelectFormat(url: string, exec: string -> ExecResult, parseColumns: string -> seq<Format>,
                      filterByProperty: (string, string, seq<Format>) -> seq<Format>,
                      selectOne: seq<Format> -> Format) returns (r: Selection)
    requires NarrowsToSubsequence(filterByProperty) && PicksMember(selectOne)
    ensures r == SelectionOf(FetchFormatOptions(url, exec, parseColumns), filterByProperty, selectOne)
    ensures r == Null <==> exec(ListingCommand(url)).code != 0
    ensures exec(ListingCommand(url)).code == 0 ==>
      var remaining := Narrowed(parseColumns(SkipLogsInStdout(exec(ListingCommand(url)).stdout)), filterByProperty);
      && (r == Undefined <==> remaining == [])
      && (|remaining| == 1 ==> r == Chosen(remaining[0]))
      && (|remaining| > 1 ==> r == Chosen(selectOne(remaining)) && r.record in remaining)
    ensures r.Chosen? ==>
      r.record in parseColumns(SkipLogsInStdout(exec(ListingCommand(url)).stdout)) &&
      !Contains(r.record.note, VideoOnly)
  {
    var formats := FetchFormatOptions(url, exec, parseColumns);
    ChosenIsListedAndNotVideoOnly(formats, filterByProperty, selectOne);
    if formats.None? {
      return Null;
    }

    var remainingFormats := formats.value;
    remainingFormats := Filter(IsNotVideoOnly, remainingFormats);
    remainingFormats := filterByProperty(ResolutionPrompt, "resolution", remainingFormats);
    remainingFormats := filterByProperty(ExtensionPrompt, "extension", remainingFormats);

    if |remainingFormats| > 1 {
      return Chosen(selectOne(remainingFormats));
    }
    r := if |remainingFormats| == 0 then Undefined else Chosen(remainingFormats[0]);
  }

  // ---------------------------------------------------------------------
  // The download command

  /** The options `init` builds for the chosen format and the subtitle answer. */
  function DownloadOptions(format: string, includeSubs: bool): string
  {
    "-f " + format + (if includeSubs then SubtitleFlags else "")
  }

  /** The command `init` runs with those options. */
  function DownloadCommand(options: string, url: string): string
  {
    "youtube-dl " + options + " \"" + url + "\""
  }

  /** The index of the space between `--all-subs` and `--embed-subs` in the flags. */
  const FlagsInnerSpace := |" --all-subs"|

  /** Without the subtitle answer, options for a format code without spaces do not
      end with the subtitle flags: the flags' inner space would have to sit past
      the `-f ` prefix, on a character of the format code. */
  lemma {:induction false} NoSubtitleFlagsWithoutAnswer(format: string)
    requires ' ' !in format
    ensures !EndsWith(DownloadOptions(format, false), SubtitleFlags)
  {
    var options := DownloadOptions(format, false);
    assert options == "-f " + format;
    if |options| >= |SubtitleFlags| {
      var k := |options| - |SubtitleFlags| + FlagsInnerSpace;
      assert options[k] == format[k - |"-f "|];
      assert options[|options| - |SubtitleFlags|..][FlagsInnerSpace] == options[k];
      assert SubtitleFlags[FlagsInnerSpace] == ' ';
    }
  }

  /** The options begin with `-f <format>`, and for a format code without spaces
      (as youtube-dl's are: the code is passed unquoted) they end with the
      subtitle flags exactly when the subtitle answer was yes. */
  lemma SubtitleFlagsIffAnswer(format: string, includeSubs: bool)
    requires ' ' !in format
    ensures StartsWith(DownloadOptions(format, includeSubs), "-f " + format)
    ensures EndsWith(DownloadOptions(format, includeSubs), SubtitleFlags) <==> includeSubs
  {
    var options := DownloadOptions(format, includeSubs);
    assert options[..|"-f " + format|] == "-f " + format;
    if includeSubs {
      assert options[|options| - |SubtitleFlags|..] == SubtitleFlags;
    } else {
      NoSubtitleFlagsWithoutAnswer(format);
    }
  }

  /** Reads a download command back into its options and its quoted URL: the
      options run from after `youtube-dl ` to the space before the first `"`,
      the URL from there to the closing `"`. */
  function ParseDownloadCommand(cmd: string): Option<(string, string)>
  {
    var prefix := "youtube-dl ";
    if !StartsWith(cmd, prefix) || !EndsWith(cmd, "\"") then None
    else
      var q := IndexOf(cmd, "\"");
      if q < |prefix| + 1 || q + 1 > |cmd| - 1 || cmd[q - 1] != ' ' then None
      else Some((cmd[|prefix|..q - 1], cmd[q + 1..|cmd| - 1]))
  }

  /** A one-character `"` pattern occurs at `j` exactly when `s[j]` is `"`. */
  lemma QuoteAt(s: string, j: nat)
    ensures OccursAt(s, "\"", j) <==> j < |s| && s[j] == '"'
  {
  }

  /** For options without a double quote, the command names its options and its
      URL unambiguously: reading it back gives both. */
  lemma DownloadCommandRoundTrip(options: string, url: string)
    requires '"' !in options
    ensures ParseDownloadCommand(DownloadCommand(options, url)) == Some((options, url))
  {
    var prefix := "youtube-dl ";
    var cmd := DownloadCommand(options, url);
    var q := |prefix| + |options| + 1;
    assert cmd == prefix + options + " \"" + url + "\"";
    assert cmd[q] == '"';
    QuoteAt(cmd, q);
    forall j: nat | j < q
      ensures !OccursAt(cmd, "\"", j)
    {
      QuoteAt(cmd, j);
      if j < |prefix| {
        assert cmd[j] == prefix[j];
      } else if j < |prefix| + |options| {
        assert cmd[j] == options[j - |prefix|];
      } else {
        assert cmd[j] == ' ';
      }
    }
    var r := IndexOf(cmd, "\"");
    assert r == q;
    assert cmd[..|prefix|] == prefix;
    assert cmd[|cmd| - 1..] == "\"";
    assert cmd[|prefix|..q - 1] == options;
    assert cmd[q + 1..|cmd| - 1] == url;
  }

  /** `init` after the argument check: select a format and, when one was chosen,
      build the download command with the options grown by `+=`. No command is
      built when the listing failed or when nothing was selected. */
  method Init(url: string, exec: string -> ExecResult, parseColumns: string -> seq<Format>,
              filterByProperty: (string, string, seq<Format>) -> seq<Format>,
              selectOne: seq<Format> -> Format, includeSubs: bool) returns (cmd: Option<string>)
    requires NarrowsToSubsequence(filterByProperty) && PicksMember(selectOne)
    ensures exec(ListingCommand(url)).code != 0 ==> cmd == None
    ensures var selection := SelectionOf(FetchFormatOptions(url, exec, parseColumns), filterByProperty, selectOne);
      && (cmd.Some? <==> selection.Chosen?)
      && (selection.Chosen? ==>
            cmd == Some(DownloadCommand(DownloadOptions(selection.record.format, includeSubs), url)))
    ensures cmd.Some? ==>
      exists f :: (f in parseColumns(SkipLogsInStdout(exec(ListingCommand(url)).stdout)) &&
                   !Contains(f.note, VideoOnly) &&
                   cmd.value == DownloadCommand(DownloadOptions(f.format, includeSubs), url))
  {
    var formatSelection := SelectFormat(url, exec, parseColumns, filterByProperty, selectOne);
    ghost var listed := parseColumns(SkipLogsInStdout(exec(ListingCommand(url)).stdout));
    if formatSelection.Chosen? {
      var options := "-f " + formatSelection.record.format;
      if includeSubs {
        options := options + SubtitleFlags;
      }
      assert options == DownloadOptions(formatSelection.record.format, includeSubs);
      cmd := Some("youtube-dl " + options + " \"" + url + "\"");
      assert cmd.value == DownloadCommand(options, url);
      assert formatSelection.record in listed && !Contains(formatSelection.record.note, VideoOnly);
    } else {
      cmd := None;
    }
  }
}
