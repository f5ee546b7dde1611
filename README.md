# audio-to-text-summarizer, modelled in Dafny

The repository turns an online video into a text summary in four steps:
- it downloads the video with `yt-dlp`;
- it extracts the audio track with `ffmpeg`;
- it transcribes the audio with Whisper;
- it asks OpenAI's GPT-3 completion engine for a summary.

This project models the logic around those tools and proves properties of it:

- **Text chunking** (`Nlp`): `split_text_by_punctuation` first strips the text and scans it for periods. It then regroups the period-delimited parts into chunks. Before a part is added, the pending chunk is closed when three things hold: it already holds at least 64 characters; the current part's measure `pos - prev_pos` is at least 32; and the previous part's measure was also at least 32. A short measure sets a countdown that is decremented in the same iteration, so it blocks only the iteration that follows.
  - The method `SplitTextByPunctuation` runs the two loops of the source.
  - It is proved equal to the fold `Split`.
  - Lemmas about `Split` give the promised properties: the chunks concatenate back to the stripped text; every chunk but the last is at least 64 characters long and ends with a period; when there are at least two parts, the first chunk starts with both.
- **Download log parsing** (`VideoDownload`): `_download` scans the output of `yt-dlp` line by line.
  - It looks, in this order, for a merge line, a destination line and an "already been downloaded" line.
  - The last merge or destination line wins; unmatched lines after it, such as `[download]` progress lines, change nothing.
  - An "already downloaded" line ends the scan.
  - No path, or an empty one, raises.
  - The popen output is a parameter.
- **File utilities** (`FsUtil`): the shell escaping of paths, the `list_files` filter, the size strings, `source_to_target`, and `save_text`/`delete_file_if_empty` over a file store.
  - The store is a class whose field maps each regular file to its text.
- **Summarisation** (`Text2Summary`): the prompt is the text followed by `"\n\nTl;dr"`. Exactly one completion request is made. Its text loses one leading `:`, then surrounding whitespace. `summarise_to_file` has an overwrite guard.
- **Audio extraction** (`Video2Audio`): only the exact extension `.mp3` is dispatched. The mp3 conversion has an overwrite policy and builds its command line from escaped paths and fixed settings. The conversion reports success whatever the exit status.

Python's string and path built-ins that the code depends on are modelled once (`PyStrings`, `PyPaths`), with CPython's semantics for:
- `strip`;
- `find`;
- clamped slicing;
- `replace`;
- `basename`, `splitext` and `join`.

Python integers are unbounded, as Dafny's are. Where the source divides a non-negative size, integer division is exact.

The effects of the outside world are modelled as follows:
- `os.popen(cmd).read().splitlines()` is a function from the command to its lines.
- `os.system` is a `Shell` object. It records the commands it runs and holds a fixed function from command to exit status.
- `openai.Completion.create` is a function from the request to the text of its first choice.
- `os.listdir` is a parameter.
- The file system is the map `LocalFsUtil.files`.

## Model

| member | source | states |
|---|---|---|
| Nlp.SplitTextByPunctuation | src/util/nlp.py:6-45 | The two loops compute exactly `Split(text)`. The chunks concatenate to the stripped text. There is at least one chunk. Every chunk but the last has at least 64 characters and ends with `.`. |
| Nlp.ScanPeriods | src/util/nlp.py:16-21 | The `find` loop collects position 0 followed by the index of every period, in increasing order. |
| Nlp.Scanned | src/util/nlp.py:16-21 | The list the scan loop builds starts with 0. The periods that follow it are given by `DotsFrom`, `DotsCover` and `DotsIncreasing`. |
| Nlp.Deduped | src/util/nlp.py:23 | Dropping a repeated leading 0 still leaves a list that starts with 0. `DedupedShape` states that the rest is strictly increasing and made of periods. |
| Nlp.Positions | src/util/nlp.py:23-24 | The cut positions start with 0. The `Positions…` lemmas give their bounds, their order, their periods and the sentinel `len(text)`. |
| Nlp.Regroup | src/util/nlp.py:27-44 | The regrouping loop and the final flush compute the fold `Finish(Run(t, positions))`. |
| Nlp.DotsFrom | src/util/nlp.py:17-21 | Every position gathered from `from` onwards holds a period. |
| Nlp.DotsCover | src/util/nlp.py:17-21 | Every period at or after `from` is gathered. |
| Nlp.DotsIncreasing | src/util/nlp.py:17-21 | The gathered positions are strictly increasing. |
| Nlp.FindNextDot | src/util/nlp.py:18-21 | One `find` step either ends the scan or moves past the next period. |
| Nlp.DedupedShape | src/util/nlp.py:23 | Once a leading period at 0 is de-duplicated, the positions after the first are strictly increasing and each holds a period. |
| Nlp.PositionsBounded | src/util/nlp.py:24 | No position exceeds `len(text)`, and the last one is at `len(text) - 1` or beyond. |
| Nlp.PositionsOrdered | src/util/nlp.py:23-24 | The positions are non-decreasing, and strictly increasing for a non-empty text. |
| Nlp.PositionsInterior | src/util/nlp.py:23-24 | Every position strictly between the first and the last holds a period. |
| Nlp.PositionsCoverPeriods | src/util/nlp.py:16-24 | Every period of the text is a position. |
| Nlp.PositionsSentinel | src/util/nlp.py:24 | When the end sentinel `len(text)` was appended to a non-empty text, the position before it is more than one character from the end. |
| Nlp.PositionsOfEmpty | src/util/nlp.py:16-24 | The empty text gives the positions `[0, 0]`. |
| Nlp.SplitRoundTrip | src/util/nlp.py:13-45 | Joining the chunks gives back the stripped text. |
| Nlp.SplitNonEmpty | src/util/nlp.py:43-44 | There is always at least one chunk. |
| Nlp.SplitPiecesEndAfterPeriod | src/util/nlp.py:34-36 | Every chunk closed inside the loop has at least 64 characters and ends with `.`. |
| Nlp.SplitWithoutPeriod | src/util/nlp.py:16-44 | A text without a period is returned whole, stripped, as the only chunk. |
| Nlp.SplitBlank | src/util/nlp.py:13-44 | A blank text gives the single chunk `""`. |
| Nlp.CountdownAtLoopHead | src/util/nlp.py:30-42 | At the head of each iteration the countdown is 0 or 1. It is 0 exactly when the previous part was at least 32 characters long. |
| Nlp.NewPieceCondition | src/util/nlp.py:32-36 | One iteration closes a chunk exactly when the current and the previous parts are each at least 32 long and at least 64 characters are pending. That never happens at the first two positions. |
| Nlp.FirstPieceHoldsTwoParts | src/util/nlp.py:31-42 | When there are at least two parts, the first chunk starts with the first two. |
| Nlp.NoEmptyParts | src/util/nlp.py:33 | In a non-empty text every part cut between positions is non-empty. |
| Nlp.FinishFacts | src/util/nlp.py:27-44 | For any valid cut positions the regrouping is a partition of the text, with the chunk-size guarantee. |
| Nlp.Finish | src/util/nlp.py:43-44 | The final flush keeps every closed chunk and their order. It appends exactly one further chunk, the join of the pending parts, when parts are pending, and nothing otherwise. |
| Nlp.JoinSnoc | src/util/nlp.py:35 | Proof step: `"".join` of a list extended by one string appends that string. The general law is `PyStrings.JoinConcat`. |
| Nlp.SlicePrefix | src/util/nlp.py:33 | A shorter clamped prefix slice is a prefix of a longer one. |
| Nlp.Step | src/util/nlp.py:31-42 | Definition of one iteration of the regrouping loop, no contract of its own. `StepPreservesInv`, `NewPieceCondition` and `CountdownAtLoopHead` are about it. |
| Nlp.Run | src/util/nlp.py:31-42 | Definition of the loop as a fold of `Step` over the positions, no contract of its own. `RunInv` and `FinishFacts` are about it, and `Regroup` is proved equal to it. |
| Nlp.Split | src/util/nlp.py:12-45 | Definition of the whole function, no contract of its own. `SplitRoundTrip`, `SplitNonEmpty`, `SplitPiecesEndAfterPeriod`, `SplitWithoutPeriod`, `SplitBlank` and `FirstPieceHoldsTwoParts` are about it, and `SplitTextByPunctuation` is proved equal to it. |
| VideoDownload.Download | src/util/videodownloader.py:16-19 | The `yt-dlp` command is run and its output is parsed by `ParseDownloadLog`. |
| VideoDownload.DownloadFromOutput | src/util/videodownloader.py:21-57 | The line loop computes exactly `ParseDownloadLog(output)`. A success is never the empty path. |
| VideoDownload.ParseLine | src/util/videodownloader.py:28-53 | One iteration's chain of `find` tests classifies the line as `Classify` says. |
| VideoDownload.Classify | src/util/videodownloader.py:28-53 | The path reported for a matching line is stripped: empty, or with no whitespace at either end. It is never longer than the line. |
| VideoDownload.ClassifyBy | src/util/videodownloader.py:28-53 | The same for any markers. |
| VideoDownload.KeepLinesKeepsAll | src/util/videodownloader.py:24 | The filter `line.count('\|') != -1` keeps every line. |
| VideoDownload.KeepLines | src/util/videodownloader.py:24 | The filter never adds lines. |
| VideoDownload.ClassifyCases | src/util/videodownloader.py:28-41 | Proof step for `ParseLine`, unfolding the first two branches: a merge line yields the text after the marker, less the last character, stripped. A destination line, when no merge marker occurs, yields the stripped text after its marker. |
| VideoDownload.ClassifyDownloadCases | src/util/videodownloader.py:43-53 | Proof step for `ParseLine`, unfolding the third branch: without the first two markers, a `[download]` line followed somewhere by the phrase yields the stripped text between them. Any other line is unmatched. |
| VideoDownload.ClassifyMerged | src/util/videodownloader.py:28-33 | `…[Merger] Merging formats into "p` plus one closing character yields `strip(p)`, whenever that merge marker is the first one in the line. |
| VideoDownload.ClassifyMarkers | src/util/videodownloader.py:28-41 | A line is a merge line exactly when the merge marker occurs in it. A destination line contains the destination marker. |
| VideoDownload.MergerTakesPrecedence | src/util/videodownloader.py:28-41 | A line holding the merge marker is a merge line, whatever else it holds. |
| VideoDownload.ClassifyDestination | src/util/videodownloader.py:35-41 | `…[download] Destination: p` yields `strip(p)`, whenever the line holds no merge marker and that destination marker is the first one. |
| VideoDownload.ClassifyAlready | src/util/videodownloader.py:43-53 | `…[download] m has already been downloaded…` yields `strip(m)`, whenever the line holds neither the merge nor the destination marker, that `[download]` is the first one, and the phrase does not occur earlier after it. Any characters may appear in `m`. |
| VideoDownload.ClassifyByAlready | src/util/videodownloader.py:43-53 | The same for any markers. |
| VideoDownload.ScanFrom | src/util/videodownloader.py:27-53 | Proof step for the loop invariant of `DownloadFromOutput`, unfolding one iteration: a merge or destination line sets the path and goes on. An "already" line sets it and stops. Any other line leaves it. |
| VideoDownload.ScanStopsAtAlready | src/util/videodownloader.py:53 | After an "already downloaded" line, the remaining lines make no difference. |
| VideoDownload.ScanAppend | src/util/videodownloader.py:26-53 | With no "already" line in the first run, scanning two runs of lines is scanning the first, then the second from where the first left off. |
| VideoDownload.ScanLastMatchWins | src/util/videodownloader.py:26-53 | With no "already" line before it, the deciding line fixes the path: a merge or destination line followed only by unmatched lines, or an "already" line followed by anything. |
| VideoDownload.Scan | src/util/videodownloader.py:26-53 | The loop's `downloaded_file` is either the value it started with or the path of one of the matching lines. |
| VideoDownload.ScanSkipsUnmatched | src/util/videodownloader.py:43-53 | Unmatched lines, including `[download]` lines without the phrase, leave the path unchanged. |
| VideoDownload.KindsConcat | src/util/videodownloader.py:27 | Classifying two runs of lines is classifying each in turn. |
| VideoDownload.ParseStopsAtAlready | src/util/videodownloader.py:43-53 | Lines after the first "already downloaded" line are ignored by the whole parse. |
| VideoDownload.ParseDecidedByLast | src/util/videodownloader.py:26-57 | When no earlier line reports an earlier download, the deciding line alone decides the outcome: its path if non-empty, otherwise "Download failed". Unmatched lines after a merge or destination line, such as `[download]` progress lines, change nothing. |
| VideoDownload.ParseReportsLastFile | src/util/videodownloader.py:26-57 | The parse returns the non-empty path of the deciding line, with any unmatched lines after it. |
| VideoDownload.ParseDownloadLog | src/util/videodownloader.py:21-57 | A successful parse returns a non-empty path that one of the output lines reports. |
| VideoDownload.Verdict | src/util/videodownloader.py:55-57 | The outcome is a success exactly when a path was found and it is not empty, and then it is that path. |
| VideoDownload.NothingFoundFails | src/util/videodownloader.py:55-56 | Output without any recognised line raises "Download failed". |
| VideoDownload.EmptyPathFails | src/util/videodownloader.py:26-57 | Whatever lines come before, a deciding line whose path strips to nothing raises "Download failed". The deciding line is the last merge or destination line, with only unmatched lines after it, or the first "already downloaded" line, whatever follows it. |
| VideoDownload.DownloadCommand | src/util/videodownloader.py:18 | The command holds the destination and the URL verbatim, each between its own pair of single quotes, and 20 fixed characters besides. |
| VideoDownload.DownloadCommandInjective | src/util/videodownloader.py:18 | When the destination holds no `'`, the command determines both the URL and the destination. |
| VideoDownload.QuoteSeparated | src/util/videodownloader.py:18 | Text without `'` that ends at a quote is determined by where that quote falls. |
| VideoDownload.FirstQuoteAt | src/util/videodownloader.py:18 | The first `'` after a quote-free prefix is found right after it. |
| VideoDownload.DownloadCommandAmbiguous | src/util/videodownloader.py:18 | When the destination may hold `'`, distinct URL/destination pairs give the same command. |
| PyStrings.StripStart | src/util/nlp.py:13 | `strip` keeps from the first non-whitespace character. |
| PyStrings.StripStartSpec | src/util/nlp.py:13 | Everything `strip` drops at the front is whitespace. |
| PyStrings.TrimEnd | src/util/nlp.py:13 | The kept text ends at a non-whitespace character. |
| PyStrings.TrimEndSpec | src/util/nlp.py:13 | Everything `strip` drops at the back is whitespace. |
| PyStrings.StripEnd | src/util/nlp.py:13 | The kept text ends at a non-whitespace character, and never before it starts. |
| PyStrings.Strip | src/util/nlp.py:13 | `strip` never lengthens the text, and the result is empty or starts and ends with non-whitespace. |
| PyStrings.StripSpec | src/util/nlp.py:13 | `strip` removes whitespace only, and only at the two ends. |
| PyStrings.StripUnchanged | src/text2summary/gpt3wrapper.py:41 | A non-empty text with non-whitespace at both ends is its own strip. |
| PyStrings.StripKeepsFirst | src/text2summary/gpt3wrapper.py:41 | A text starting with a non-whitespace character keeps it first after `strip`. |
| PyStrings.StripSkipsLeadingWhitespace | src/text2summary/gpt3wrapper.py:41 | Leading whitespace makes no difference to `strip`. |
| PyStrings.StripStartShift | src/text2summary/gpt3wrapper.py:41 | Dropping one leading whitespace character makes no difference to `strip`. |
| PyStrings.EndShift | src/text2summary/gpt3wrapper.py:41 | The trailing trim moves by one when one leading blank is dropped. |
| PyStrings.Find | src/util/nlp.py:18 | `find` returns -1 or an index at or after `from` where the pattern fits. |
| PyStrings.FindSpec | src/util/nlp.py:18 | `find` returns the least occurrence at or after `from`, and -1 exactly when there is none. |
| PyStrings.FindFirst | src/util/videodownloader.py:29-30 | The first occurrence of the pattern is the one `find` reports from the start. |
| PyStrings.FindAbsent | src/util/videodownloader.py:29-30 | A pattern that does not occur is not found. |
| PyStrings.FindFirstOccurrence | src/util/videodownloader.py:29-30 | An occurrence before which the pattern's first character does not appear is the one `find` returns. |
| PyStrings.FindMissingChar | src/util/videodownloader.py:29-30 | A pattern holding a character the text lacks is not found. |
| PyStrings.EndsWithAppend | src/util/fs.py:103 | `(a + b).endswith(b)`. |
| PyStrings.EndsWithTrans | src/util/fs.py:103 | A suffix of a suffix is a suffix. |
| PyStrings.SliceAdjacent | src/util/nlp.py:33 | Adjacent clamped slices join up: `s[a:b] + s[b:c] == s[a:c]` whenever `a <= b <= c`, also past the end of the text. |
| PyStrings.SliceConcat | src/util/nlp.py:33 | The case from the start of the text: `s[0:a] + s[a:b] == s[0:b]`. |
| PyStrings.JoinConcat | src/util/nlp.py:35 | `"".join` of a concatenation of two lists is the concatenation of their joins. |
| PyStrings.CountChar | src/util/videodownloader.py:24 | `count` is never negative, never exceeds the length, and is 0 exactly when the character is absent. |
| PyStrings.Replace | src/util/fs.py:112 | `replace` leaves a text without the character unchanged. |
| PyStrings.ReplaceConcat | src/util/fs.py:112 | `replace` distributes over concatenation. |
| PyPaths.RFind | src/util/fs.py:101 | The last index holding the character, or -1 when there is none. |
| PyPaths.Basename | src/util/fs.py:101 | The base name holds no `/`, and it is the suffix of the path that starts right after the last `/`. |
| PyPaths.BasenameOfChild | src/util/fs.py:101 | The base name of `dir/name` is `name`. |
| PyPaths.SplitExt | src/util/fs.py:102 | Root and extension concatenate to the path. The extension is empty, or it starts at the last `.`, which lies after the last `/`, and holds no further dot or `/`. |
| PyPaths.SplitExtOfSuffix | src/util/fs.py:102 | `stem.ext` splits into `stem` and `.ext`. |
| PyPaths.PathJoin | src/util/fs.py:52 | `os.path.join(a, b)` ends with `b`. |
| FsUtil.EscapePathPerCharacter | src/util/fs.py:111-112 | The chained replacements escape each character independently, left to right. |
| FsUtil.EscapeConcat | src/util/fs.py:112 | Escaping distributes over concatenation. |
| FsUtil.EscapeSingle | src/util/fs.py:112 | A single `(`, `)`, space or `'` becomes a backslash and itself. Any other character is copied. |
| FsUtil.EscapeChar | src/util/fs.py:112 | A special character becomes two characters, a backslash and itself. Any other character is kept alone. |
| FsUtil.EscapeEach | src/util/fs.py:112 | The escaped text is longer by exactly the number of special characters. |
| FsUtil.EscapePath | src/util/fs.py:111-112 | Definition as the four chained `replace` calls, no contract of its own. `EscapePathPerCharacter`, `EscapePathLength`, `UnescapeEscape` and `EscapePathInjective` are about it. |
| FsUtil.EscapePathLength | src/util/fs.py:112 | The escaped length is the length plus the number of those four characters. |
| FsUtil.CountSpecial | src/util/fs.py:112 | The count is 0 exactly when none of the four characters occurs. |
| FsUtil.EscapePathPlain | src/util/fs.py:112 | A path without the four characters is unchanged. |
| FsUtil.EachPlain | src/util/fs.py:112 | The same for the per-character form. |
| FsUtil.EscapeEachStart | src/util/fs.py:112 | An escaped text never starts with an unescaped special character. |
| FsUtil.UnescapeEscape | src/util/fs.py:111-112 | Removing the inserted backslashes recovers the path. |
| FsUtil.UnescapeEach | src/util/fs.py:112 | The same for the per-character form. |
| FsUtil.EscapePathInjective | src/util/fs.py:111-112 | Distinct paths escape to distinct strings. |
| FsUtil.NormaliseExtension | src/util/fs.py:47-48 | The normalised extension is empty exactly when the given one is, and otherwise starts with `.`. |
| FsUtil.NormaliseWithoutDot | src/util/fs.py:47-48 | `"txt"` and `".txt"` normalise to the same extension. |
| FsUtil.Keeps | src/util/fs.py:51-53 | Definition of the two tests on one listing entry, no contract of its own. `SelectedSound`, `SelectedComplete` and `SelectedMembership` are about it. |
| FsUtil.Selected | src/util/fs.py:49-55 | The list is no longer than the listing, and every entry is a regular file. |
| FsUtil.SelectedSound | src/util/fs.py:50-54 | Every listed path is the join of an entry that passes the extension test and is a regular file. |
| FsUtil.SelectedComplete | src/util/fs.py:50-54 | Every entry that passes both tests is listed. |
| FsUtil.SelectedMembership | src/util/fs.py:50-54 | Both directions at once: listed if and only if some entry passes both tests and joins to it. |
| FsUtil.AllRegularFilesListed | src/util/fs.py:51 | With an empty extension, every regular file of the listing is listed. |
| FsUtil.SelectedConcat | src/util/fs.py:50-54 | The listing order is kept: the files of a concatenated listing are those of each part, in turn. |
| FsUtil.LocalFsUtil.ListFiles | src/util/fs.py:46-55 | The loop returns exactly `Selected` on the normalised extension and the regular files of the store. |
| FsUtil.LocalFsUtil.SaveText | src/util/fs.py:93-98 | Returns false and changes nothing when the destination exists and `overwrite` is false. Otherwise it stores the text at the destination only and returns true. |
| FsUtil.LocalFsUtil.DeleteFileIfEmpty | src/util/fs.py:57-61 | Removes the path and returns true exactly when it is a regular file of size 0. Otherwise it changes nothing. |
| FsUtil.SizeKb | src/util/fs.py:75-76 | `int(size / 1024)` is the size in kilobytes, rounded down. |
| FsUtil.SizeMb | src/util/fs.py:72-73 | `int(size / (1024 * 1024))` is the size in megabytes, rounded down. |
| FsUtil.Decimal | src/util/fs.py:66-70 | The formatted number is a non-empty run of decimal digits. |
| FsUtil.DigitChar | src/util/fs.py:66-70 | A digit becomes a decimal digit character. |
| FsUtil.DecimalRoundTrip | src/util/fs.py:66-70 | Reading the printed digits back gives the number. |
| FsUtil.SizeStr | src/util/fs.py:63-70 | Definition of the three-way choice of unit, no contract of its own. `SizeStrUnit` and `SizeStrValue` are about it. |
| FsUtil.SizeStrUnit | src/util/fs.py:63-70 | The unit is `bytes` exactly below 1024, `KB` exactly from 1024 to below 1024·1024, and `MB` exactly from there on. |
| FsUtil.SizeStrValue | src/util/fs.py:63-76 | The printed number lies between 1 and 1023 in KB and is at least 1 in MB. Its first conjunct in each range unfolds the definition: the number is the size in its unit, rounded down. |
| FsUtil.LocalFsUtil.SizeBytes | src/util/fs.py:78-79 | A missing path raises file-not-found for that path. Otherwise the size is returned. |
| FsUtil.LocalFsUtil.GetSizeKb | src/util/fs.py:75-76 | A missing path raises. Otherwise the result is the size in whole kilobytes, rounded down. |
| FsUtil.LocalFsUtil.GetSizeMb | src/util/fs.py:72-73 | A missing path raises. Otherwise the result is the size in whole megabytes, rounded down. |
| FsUtil.LocalFsUtil.GetSizeStr | src/util/fs.py:63-79 | A missing path raises. Otherwise the unit is `bytes` exactly below 1024, `KB` exactly from 1024 to below 1024·1024, and `MB` exactly from there on. |
| FsUtil.SourceToTarget | src/util/fs.py:100-103 | The target ends with the destination extension. |
| FsUtil.SourceDirectoryIgnored | src/util/fs.py:101 | The directory of the source makes no difference to the target. |
| FsUtil.StemOfChild | src/util/fs.py:101-102 | The stem of `dir/stem.ext` is `stem`. |
| FsUtil.JoinRelative | src/util/fs.py:103 | Joining a relative name onto a directory without a trailing `/` inserts one. |
| FsUtil.SourceToTargetReplacesExtension | src/util/fs.py:100-103 | `dir/stem.ext` becomes `dstPath/stem` followed by the new extension. |
| Text2Summary.Prompt | src/text2summary/gpt3wrapper.py:30 | The prompt starts with the text and ends with `"\n\nTl;dr"`, and is exactly as long as both. |
| Text2Summary.SummaryRequest | src/text2summary/gpt3wrapper.py:30-37 | The request names the configured engine, asks for 1024 tokens, one choice and temperature 0.5, and its prompt starts with the text and ends with the cue. |
| Text2Summary.DropColon | src/text2summary/gpt3wrapper.py:39-40 | What is left is a suffix of the completion, one character shorter exactly when the completion starts with `:`. |
| Text2Summary.CleanCompletion | src/text2summary/gpt3wrapper.py:38-41 | The summary is no longer than the completion and has no leading or trailing whitespace. |
| Text2Summary.StripKeepsColon | src/text2summary/gpt3wrapper.py:41 | A leading `:` survives the strip. |
| Text2Summary.OnlyOneColonRemoved | src/text2summary/gpt3wrapper.py:39-40 | At most one leading `:` is removed: after `::` the summary still starts with `:`. |
| Text2Summary.ColonAfterWhitespaceKept | src/text2summary/gpt3wrapper.py:39-41 | The colon test runs before the strip, so whitespace before the `:` protects it. |
| Text2Summary.LeadingColonRemoved | src/text2summary/gpt3wrapper.py:39-41 | A completion that starts with `:` is summarised as the rest, stripped. |
| Text2Summary.ColonExamples | src/text2summary/gpt3wrapper.py:39-41 | `"::x"` and `" :x"` both become `":x"`. |
| Text2Summary.Gpt3Wrapper.constructor | src/text2summary/gpt3wrapper.py:8-10 | The wrapper keeps the engine name, and no request has been sent. |
| Text2Summary.Gpt3Wrapper.Summarize | src/text2summary/gpt3wrapper.py:29-42 | Exactly one request is sent: the engine, the prompt, 1024 tokens, one choice and temperature 0.5. The first choice's text, cleaned, is returned. |
| Text2Summary.Gpt3Wrapper.SummariseToFile | src/text2summary/gpt3wrapper.py:12-27 | An existing destination without `overwrite`, or one that cannot be opened, gives false with no request and no write. Otherwise the string `srcFile` itself is summarised with one request, the summary is stored at the destination only, and it returns true. |
| Video2Audio.Shell.System | src/video2audio/ffmpegaudioextraction.py:36 | Running a command records it and returns its exit status. |
| Video2Audio.Upper | src/video2audio/ffmpegaudioextraction.py:22 | No lower-case ASCII letter remains. A character is kept exactly when it is not a lower-case letter. Each lower-case letter becomes the upper-case letter at the same place in the alphabet. |
| Video2Audio.UpperIdempotent | src/video2audio/ffmpegaudioextraction.py:22 | Upper-casing twice is upper-casing once. |
| Video2Audio.UpperExamples | src/video2audio/ffmpegaudioextraction.py:22 | `.mp4` is reported as `.MP4`. `.mp3` and `.MP3` both become `.MP3`. |
| Video2Audio.IsMp3Target | src/video2audio/ffmpegaudioextraction.py:18-19 | Definition of the dispatch test on the extension, no contract of its own. `Mp3TargetIff` and `Mp3TargetExamples` are about it. |
| Video2Audio.Mp3TargetIff | src/video2audio/ffmpegaudioextraction.py:18-19 | `stem.ext` is dispatched to mp3 exactly when `ext` is `mp3`, in lower case. |
| Video2Audio.Mp3TargetExamples | src/video2audio/ffmpegaudioextraction.py:18-22 | `out.mp3` is dispatched; `out.MP3` and `out` are not. |
| Video2Audio.CommandShape | src/video2audio/ffmpegaudioextraction.py:34 | A command built from prefix, source, settings and destination starts with the prefix and ends with the settings and destination. |
| Video2Audio.FfmpegAudioExtraction.constructor | src/video2audio/ffmpegaudioextraction.py:13-14 | The settings are `-vn -acodec libmp3lame -ac 2 -ab 160k -ar 48000`. |
| Video2Audio.FfmpegAudioExtraction.EscapePath | src/video2audio/ffmpegaudioextraction.py:41-42 | `_escape_path` is the same transformation as `escape_path` of fs.py, and escapes each character on its own. |
| Video2Audio.FfmpegAudioExtraction.Mp3Command | src/video2audio/ffmpegaudioextraction.py:32-34 | The command starts with `ffmpeg -hide_banner -loglevel error -i ` and ends with the settings and the escaped destination. |
| Video2Audio.FfmpegAudioExtraction.PlainPathsUnchanged | src/video2audio/ffmpegaudioextraction.py:32-34 | Paths without special characters appear in the command unchanged. |
| Video2Audio.FfmpegAudioExtraction.ConvertToMp3 | src/video2audio/ffmpegaudioextraction.py:24-39 | An existing destination without `overwrite` gives false, with nothing run and nothing removed. Otherwise an existing destination is removed, the one command is run, and the result is true whatever the exit status. |
| Video2Audio.FfmpegAudioExtraction.ConvertToAudio | src/video2audio/ffmpegaudioextraction.py:16-22 | Only the exact extension `.mp3` converts, with the result of `ConvertToMp3`. Any other extension fails with the upper-cased extension and changes nothing. |

## Left out

- The real effects of `os.popen`, `os.system`, `os.listdir`, `os.path.isfile`/`getsize`/`exists`, `os.remove`, `open` and `openai.Completion.create`. They are parameters, the `Shell` object or the `files` map, as described above.
- What ffmpeg writes: after `ConvertToMp3` the store shows the destination removed, and not the file ffmpeg would create.
- Directories: the store holds regular files only. `os.path.exists` is also true of a directory. `save_text` or `convert_to_mp3` with a directory as destination, which raises in the source, is not modelled.
- `splitlines`: the download log is given as its list of lines. Python line-boundary characters are not modelled.
- File sizes: the size of a file is the length of its text, in characters, not bytes of an encoding.
- Float semantics: `int(size / 1024)` is integer division on the non-negative size. The two agree except for sizes beyond the 53-bit precision of a float.
- `str.upper` is modelled for ASCII letters only (`Video2Audio.Upper`): non-ASCII letters of an extension stay as they are in the error.
- Exceptions from the completion engine, a response without choices, and a failing second `open` in `summarise_to_file` are not modelled. The completion call always returns the first choice's text. Whether the first `open` succeeds is the parameter `writable`.
- Logging, `print`, the `openai.api_key` assignment and the abstract base classes `FSUtil` and `VideoDownloader`.
- `exists`, `load_text`, `ensure_path_exists`, `is_absolute_path` and `normalise_path` of `LocalFSUtil`: one-line wrappers over `os` and `os.path`.
- src/audio2text/whisperwrapper.py is not part of this model: it hands the work to Whisper, and its overwrite guard is the one of `summarise_to_file`.
- The docstring of `split_text_by_punctuation` speaks of a 128-character limit, while the code tests 32 and 64. The model follows the code.
- The loop body of `_download` is factored into the method `ParseLine`. `split_text_by_punctuation` is factored into `ScanPeriods` and `Regroup`, with the two fix-ups of lines 23-24 between them. The loops themselves are those of the source.
- `PyStrings.Strip`: its function contract states the length bound and that neither end of the result is blank, not what was removed. That `strip` removes whitespace only, and only at the two ends, is stated by `StripSpec`.
