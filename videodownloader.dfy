/**
 * `YouTubeDownloader` in `src/util/videodownloader.py`: it runs `yt-dlp` and
 * reads the path of the downloaded file out of the tool's console output.
 *
 * `os.popen(cmd).read().splitlines()` is the parameter `popen`, which maps a
 * command to the lines it prints. `Classify` says what one line contributes,
 * `Scan` is the loop over the lines' kinds, and `DownloadFromOutput` is the loop
 * itself, proved to compute `ParseDownloadLog`.
 */
module VideoDownload {
  import opened Wrappers
  import opened PyStrings

  /** Printed when `yt-dlp` merges separate audio and video streams; the path follows in quotes. */
  const MergerMarker: string := "[Merger] Merging formats into \""
  /** Printed when `yt-dlp` starts writing a file. */
  const DestinationMarker: string := "[download] Destination:"
  const DownloadMarker: string := "[download]"
  /** Printed instead of a download when the file is already on disk. */
  const AlreadyPhrase: string := "has already been downloaded"

  /** What one line of output tells the scan, with the path it names. */
  datatype LineKind =
    | Merged(path: string)
    | Destination(path: string)
    | AlreadyDownloaded(path: string)
    | Unmatched

  datatype DownloadError = DownloadFailed

  /** The three tests of the loop body, in their order. */
  function Classify(line: string): (k: LineKind)
    ensures !k.Unmatched? ==> Stripped(k.path) && |k.path| <= |line|
  {
    ClassifyBy(line, MergerMarker, DestinationMarker, DownloadMarker, AlreadyPhrase)
  }

  /** A text with no whitespace at either end. */
  predicate Stripped(p: string) {
    p == [] || (!IsWhitespace(p[0]) && !IsWhitespace(p[|p| - 1]))
  }

  /** The three tests for the given markers; `Classify` fixes the ones `yt-dlp` prints. */
  function ClassifyBy(line: string, merger: string, destination: string, download: string, already: string): (k: LineKind)
    requires merger != []
    ensures !k.Unmatched? ==> Stripped(k.path) && |k.path| <= |line|
  {
    var m := Find(line, merger, 0);
    if m > -1 then
      Merged(Strip(Slice(line, m + |merger|, |line| - 1)))
    else
      var d := Find(line, destination, 0);
      if d > -1 then
        Destination(Strip(line[d + |destination|..]))
      else
        var w := Find(line, download, 0);
        if w > -1 then
          var rest := line[w + |download|..];
          var a := Find(rest, already, 0);
          if a > -1 then
            AlreadyDownloaded(Strip(rest[..a]))
          else Unmatched
        else
          Unmatched
  }

  /** `[line for line in lines if line.count('|') != -1]`. */
  function KeepLines(lines: seq<string>): (kept: seq<string>)
    ensures |kept| <= |lines|
  {
    if lines == [] then []
    else (if CountChar(lines[0], '|') != -1 then [lines[0]] else []) + KeepLines(lines[1..])
  }

  /** The filter keeps every line, since a count is never -1. */
  lemma {:induction false} KeepLinesKeepsAll(lines: seq<string>)
    ensures KeepLines(lines) == lines
  {
    if lines != [] {
      KeepLinesKeepsAll(lines[1..]);
      assert [lines[0]] + lines[1..] == lines;
    }
  }

  /** The kind of each line, in order. */
  function Kinds(lines: seq<string>): (ks: seq<LineKind>)
    ensures |ks| == |lines|
    ensures forall i :: 0 <= i < |lines| ==> ks[i] == Classify(lines[i])
  {
    seq(|lines|, i requires 0 <= i < |lines| => Classify(lines[i]))
  }

  /** The value of `downloaded_file` after the loop runs over lines of the given kinds, starting from `current`. */
  function Scan(kinds: seq<LineKind>, current: Option<string>): (found: Option<string>)
    ensures found == current || exists i :: 0 <= i < |kinds| && !kinds[i].Unmatched? && found == Some(kinds[i].path)
    decreases |kinds|
  {
    if kinds == [] then current
    else
      match kinds[0]
      case Merged(p) => Scan(kinds[1..], Some(p))
      case Destination(p) => Scan(kinds[1..], Some(p))
      case AlreadyDownloaded(p) => Some(p)
      case Unmatched => Scan(kinds[1..], current)
  }

  /** What `_download` returns for the given output, or the exception it raises. */
  function ParseDownloadLog(output: seq<string>): (r: Result<string, DownloadError>)
    ensures r.Success? ==> r.value != []
    ensures r.Success? ==>
      exists i :: 0 <= i < |output| && !Classify(output[i]).Unmatched? && Classify(output[i]).path == r.value
  {
    KeepLinesKeepsAll(output);
    Verdict(Scan(Kinds(KeepLines(output)), None))
  }

  /** The exception raised when no path, or an empty one, was found. */
  function Verdict(found: Option<string>): (r: Result<string, DownloadError>)
    ensures r.Success? <==> found.Some? && found.value != []
    ensures r.Success? ==> r.value == found.value
  {
    if found.None? || found.value == "" then Failure(DownloadFailed) else Success(found.value)
  }

  /** `download`'s command line: both arguments appear verbatim, each inside its own quotes. */
  function DownloadCommand(videoUrl: string, dstPath: string): (cmd: string)
    ensures |cmd| == |dstPath| + |videoUrl| + 20
    ensures cmd[16..16 + |dstPath|] == dstPath && cmd[15] == cmd[16 + |dstPath|] == '\''
    ensures cmd[19 + |dstPath|..|cmd| - 1] == videoUrl && cmd[18 + |dstPath|] == cmd[|cmd| - 1] == '\''
  {
    var cmd := "yt-dlp --paths '" + dstPath + "' '" + videoUrl + "'";
    assert cmd == "yt-dlp --paths '" + (dstPath + ("' '" + (videoUrl + "'")));
    cmd
  }

  /** `YouTubeDownloader._download`: the loop over the output lines. */
  method DownloadFromOutput(output: seq<string>) returns (r: Result<string, DownloadError>)
    ensures r == ParseDownloadLog(output)
    ensures r.Success? ==> r.value != []
  {
    var lines := KeepLines(output);
    ghost var kinds := Kinds(lines);
    var downloadedFile: Option<string> := None;
    for i := 0 to |lines|
      invariant Scan(kinds, None) == Scan(kinds[i..], downloadedFile)
    {
      ScanFrom(kinds, i, downloadedFile);
      var kind := ParseLine(lines[i]);
      match kind
      case Merged(path) =>
        downloadedFile := Some(path);
      case Destination(path) =>
        downloadedFile := Some(path);
      case AlreadyDownloaded(path) =>
        downloadedFile := Some(path);
        break;
      case Unmatched =>
    }
    assert Scan(kinds, None) == downloadedFile;
    if downloadedFile.None? || downloadedFile.value == "" {
      r := Failure(DownloadFailed);
    } else {
      r := Success(downloadedFile.value);
    }
  }

  /** The body of `_download`'s loop: the three tests on one line, the first that matches deciding. */
  method ParseLine(line: string) returns (kind: LineKind)
    ensures kind == Classify(line)
  {
    ghost var k := ClassifyBy(line, MergerMarker, DestinationMarker, DownloadMarker, AlreadyPhrase);
    assert Classify(line) == k;
    ClassifyCases(line, MergerMarker, DestinationMarker, DownloadMarker, AlreadyPhrase);
    var findStr := MergerMarker;
    var findPos := Find(line, findStr, 0);
    if findPos > -1 {
      var path := Slice(line, findPos + |findStr|, |line| - 1);
      return Merged(Strip(path));
    }

    // the full path of the downloaded file
    findStr := DestinationMarker;
    findPos := Find(line, findStr, 0);
    if findPos > -1 {
      var path := line[findPos + |findStr|..];
      return Destination(Strip(path));
    }

    // the full path of a file downloaded earlier
    ClassifyDownloadCases(line, MergerMarker, DestinationMarker, DownloadMarker, AlreadyPhrase);
    findStr := DownloadMarker;
    findPos := Find(line, findStr, 0);
    if findPos > -1 {
      var rest := line[findPos + |findStr|..];
      findStr := AlreadyPhrase;
      findPos := Find(rest, findStr, 0);
      if findPos > -1 {
        var path := rest[..findPos];
        return AlreadyDownloaded(Strip(path));
      }
    }
    return Unmatched;
  }

  /** `YouTubeDownloader.download`: run `yt-dlp` and parse what it prints. */
  method Download(videoUrl: string, dstPath: string, popen: string -> seq<string>)
    returns (r: Result<string, DownloadError>)
    ensures r == ParseDownloadLog(popen(DownloadCommand(videoUrl, dstPath)))
  {
    var cmd := DownloadCommand(videoUrl, dstPath);
    r := DownloadFromOutput(popen(cmd));
  }

  /** A merge line yields the stripped text after the first merge marker, without the line's last character. */
  lemma {:induction false} ClassifyMerged(pre: string, p: string, quote: char)
    requires NoOccurrenceBefore(pre + MergerMarker + p + [quote], MergerMarker, |pre|)
    ensures Classify(pre + MergerMarker + p + [quote]) == Merged(Strip(p))
  {
    var line := pre + MergerMarker + p + [quote];
    var start := |pre| + |MergerMarker|;
    assert line[|pre|..start] == MergerMarker;
    FindFirst(line, MergerMarker, |pre|);
    assert Slice(line, start, |line| - 1) == line[start..|line| - 1] == p;
  }

  /** A line is a merge line exactly when it holds the merge marker; it names a destination only when it holds that marker. */
  lemma {:induction false} ClassifyMarkers(line: string)
    ensures Classify(line).Merged? <==> exists i :: OccursAt(line, MergerMarker, i)
    ensures Classify(line).Destination? ==> exists i :: OccursAt(line, DestinationMarker, i)
  {
    FindSpec(line, MergerMarker, 0);
    FindSpec(line, DestinationMarker, 0);
    var m := Find(line, MergerMarker, 0);
    if m > -1 {
      assert OccursAt(line, MergerMarker, m);
    } else {
      var d := Find(line, DestinationMarker, 0);
      if d > -1 {
        assert OccursAt(line, DestinationMarker, d);
      }
    }
  }

  /** A merge line is classified as one even when it also names a destination. */
  lemma {:induction false} MergerTakesPrecedence(line: string, i: nat)
    requires OccursAt(line, MergerMarker, i)
    ensures Classify(line).Merged?
  {
    FindSpec(line, MergerMarker, 0);
  }

  /** A line without the merge marker yields the stripped text after its first destination marker. */
  lemma {:induction false} ClassifyDestination(pre: string, p: string)
    requires Absent(pre + DestinationMarker + p, MergerMarker)
    requires NoOccurrenceBefore(pre + DestinationMarker + p, DestinationMarker, |pre|)
    ensures Classify(pre + DestinationMarker + p) == Destination(Strip(p))
  {
    var line := pre + DestinationMarker + p;
    var start := |pre| + |DestinationMarker|;
    assert line[|pre|..start] == DestinationMarker;
    FindAbsent(line, MergerMarker);
    FindFirst(line, DestinationMarker, |pre|);
    assert line[start..] == p;
  }

  /**
   * A line without the merge and destination markers yields the stripped text
   * between its first `[download]` and the first phrase after it.
   */
  lemma {:induction false} ClassifyAlready(pre: string, mid: string, post: string)
    requires Absent(pre + DownloadMarker + mid + AlreadyPhrase + post, MergerMarker)
    requires Absent(pre + DownloadMarker + mid + AlreadyPhrase + post, DestinationMarker)
    requires NoOccurrenceBefore(pre + DownloadMarker + mid + AlreadyPhrase + post, DownloadMarker, |pre|)
    requires NoOccurrenceBefore(mid + AlreadyPhrase + post, AlreadyPhrase, |mid|)
    ensures Classify(pre + DownloadMarker + mid + AlreadyPhrase + post) == AlreadyDownloaded(Strip(mid))
  {
    ClassifyByAlready(pre, mid, post, MergerMarker, DestinationMarker, DownloadMarker, AlreadyPhrase);
  }

  /** `ClassifyAlready` for any markers. */
  lemma {:induction false} ClassifyByAlready(pre: string, mid: string, post: string,
                          merger: string, destination: string, download: string, already: string)
    requires merger != []
    requires Absent(pre + download + mid + already + post, merger)
    requires Absent(pre + download + mid + already + post, destination)
    requires NoOccurrenceBefore(pre + download + mid + already + post, download, |pre|)
    requires NoOccurrenceBefore(mid + already + post, already, |mid|)
    ensures ClassifyBy(pre + download + mid + already + post, merger, destination, download, already) == AlreadyDownloaded(Strip(mid))
  {
    var rest := mid + already + post;
    var line := pre + download + mid + already + post;
    assert line == pre + download + rest;
    var start := |pre| + |download|;
    FindAbsent(line, merger);
    FindAbsent(line, destination);
    assert line[|pre|..start] == download;
    FindFirst(line, download, |pre|);
    assert line[start..] == rest;
    assert rest[|mid|..|mid| + |already|] == already;
    FindFirst(rest, already, |mid|);
    assert rest[..|mid|] == mid;
  }

  /** The merge and destination branches of `ClassifyBy`. */
  lemma {:induction false} ClassifyCases(line: string, merger: string, destination: string, download: string, already: string)
    requires merger != []
    ensures var m := Find(line, merger, 0);
      m > -1 ==> ClassifyBy(line, merger, destination, download, already) == Merged(Strip(Slice(line, m + |merger|, |line| - 1)))
    ensures var m, d := Find(line, merger, 0), Find(line, destination, 0);
      m == -1 && d > -1 ==> ClassifyBy(line, merger, destination, download, already) == Destination(Strip(line[d + |destination|..]))
  {
  }

  /** The `[download]` branches of `ClassifyBy`. */
  lemma {:induction false} ClassifyDownloadCases(line: string, merger: string, destination: string, download: string, already: string)
    requires merger != []
    ensures var m, d, w := Find(line, merger, 0), Find(line, destination, 0), Find(line, download, 0);
      m == -1 && d == -1 && w == -1 ==> ClassifyBy(line, merger, destination, download, already) == Unmatched
    ensures var m, d, w := Find(line, merger, 0), Find(line, destination, 0), Find(line, download, 0);
      m == -1 && d == -1 && w > -1 ==>
        var rest := line[w + |download|..];
        var a := Find(rest, already, 0);
        ClassifyBy(line, merger, destination, download, already) == if a > -1 then AlreadyDownloaded(Strip(rest[..a])) else Unmatched
  {
  }

  /** One step of the scan, at index `i`. */
  lemma {:induction false} ScanFrom(kinds: seq<LineKind>, i: nat, current: Option<string>)
    requires i < |kinds|
    ensures kinds[i].Merged? ==> Scan(kinds[i..], current) == Scan(kinds[i + 1..], Some(kinds[i].path))
    ensures kinds[i].Destination? ==> Scan(kinds[i..], current) == Scan(kinds[i + 1..], Some(kinds[i].path))
    ensures kinds[i].AlreadyDownloaded? ==> Scan(kinds[i..], current) == Some(kinds[i].path)
    ensures kinds[i].Unmatched? ==> Scan(kinds[i..], current) == Scan(kinds[i + 1..], current)
  {
    assert kinds[i..][1..] == kinds[i + 1..];
  }

  /** Once a line reports an earlier download, the lines after it make no difference. */
  lemma {:induction false} ScanStopsAtAlready(before: seq<LineKind>, k: LineKind, after: seq<LineKind>, current: Option<string>)
    requires k.AlreadyDownloaded?
    ensures Scan(before + [k] + after, current) == Scan(before + [k], current)
    decreases |before|
  {
    if before == [] {
      assert ([k] + after)[1..] == after;
    } else {
      var next := match before[0]
        case Merged(p) => Some(p)
        case Destination(p) => Some(p)
        case _ => current;
      assert (before + [k] + after)[1..] == before[1..] + [k] + after;
      assert (before + [k])[1..] == before[1..] + [k];
      if !before[0].AlreadyDownloaded? {
        ScanStopsAtAlready(before[1..], k, after, next);
      }
    }
  }

  /** Without an "already" kind in `a`, scanning `a + b` is scanning `a`, then `b` from where `a` left off. */
  lemma {:induction false} ScanAppend(a: seq<LineKind>, b: seq<LineKind>, current: Option<string>)
    requires forall j :: 0 <= j < |a| ==> !a[j].AlreadyDownloaded?
    ensures Scan(a + b, current) == Scan(b, Scan(a, current))
    decreases |a|
  {
    if a == [] {
      assert a + b == b;
    } else {
      var next := match a[0]
        case Merged(p) => Some(p)
        case Destination(p) => Some(p)
        case _ => current;
      assert (a + b)[0] == a[0] && (a + b)[1..] == a[1..] + b;
      assert !a[0].AlreadyDownloaded?;
      ScanAppend(a[1..], b, next);
    }
  }

  /**
   * The deciding kind fixes the path when no kind before it is an "already"
   * kind: a merge or destination kind followed only by unmatched kinds, or
   * an "already" kind followed by anything.
   */
  lemma {:induction false} ScanLastMatchWins(before: seq<LineKind>, k: LineKind, after: seq<LineKind>, current: Option<string>)
    requires !k.Unmatched?
    requires forall j :: 0 <= j < |before| ==> !before[j].AlreadyDownloaded?
    requires k.AlreadyDownloaded? || forall j :: 0 <= j < |after| ==> after[j] == Unmatched
    ensures Scan(before + [k] + after, current) == Some(k.path)
  {
    ScanAppend(before, [k], current);
    assert [k][1..] == [];
    if k.AlreadyDownloaded? {
      ScanStopsAtAlready(before, k, after, current);
    } else {
      ScanAppend(before + [k], after, current);
      ScanSkipsUnmatched(after, Some(k.path));
    }
  }

  /** Lines that match no marker, such as `[download]` lines without the phrase, leave the path as it was. */
  lemma {:induction false} ScanSkipsUnmatched(kinds: seq<LineKind>, current: Option<string>)
    requires forall j :: 0 <= j < |kinds| ==> kinds[j] == Unmatched
    ensures Scan(kinds, current) == current
    decreases |kinds|
  {
    if kinds != [] {
      assert kinds[0] == Unmatched;
      ScanSkipsUnmatched(kinds[1..], current);
    }
  }

  lemma {:induction false} KindsConcat(a: seq<string>, b: seq<string>)
    ensures Kinds(a + b) == Kinds(a) + Kinds(b)
  {
    var l, r := Kinds(a + b), Kinds(a) + Kinds(b);
    forall i | 0 <= i < |l|
      ensures l[i] == r[i]
    {
      if i < |a| {
        assert (a + b)[i] == a[i];
      } else {
        assert (a + b)[i] == b[i - |a|];
      }
    }
  }

  /** `_download` ignores every line after the first one reporting an earlier download. */
  lemma {:induction false} ParseStopsAtAlready(before: seq<string>, line: string, after: seq<string>)
    requires Classify(line).AlreadyDownloaded?
    ensures ParseDownloadLog(before + [line] + after) == ParseDownloadLog(before + [line])
  {
    KeepLinesKeepsAll(before + [line] + after);
    KeepLinesKeepsAll(before + [line]);
    var kb, k, ka := Kinds(before), Classify(line), Kinds(after);
    KindsConcat(before + [line], after);
    KindsConcat(before, [line]);
    assert Kinds([line]) == [k];
    assert Kinds(before + [line] + after) == kb + [k] + ka;
    assert Kinds(before + [line]) == kb + [k];
    ScanStopsAtAlready(kb, k, ka, None);
  }

  /**
   * With no earlier "already downloaded" line, the deciding line alone decides
   * the outcome: a merge or destination line followed only by unmatched lines,
   * such as `[download]` progress lines, or an "already downloaded" line
   * followed by anything.
   */
  lemma {:induction false} ParseDecidedByLast(before: seq<string>, line: string, after: seq<string>)
    requires !Classify(line).Unmatched?
    requires forall j :: 0 <= j < |before| ==> !Classify(before[j]).AlreadyDownloaded?
    requires Classify(line).AlreadyDownloaded? || forall j :: 0 <= j < |after| ==> Classify(after[j]) == Unmatched
    ensures ParseDownloadLog(before + [line] + after) == Verdict(Some(Classify(line).path))
  {
    KeepLinesKeepsAll(before + [line] + after);
    var kb, k, ka := Kinds(before), Classify(line), Kinds(after);
    KindsConcat(before + [line], after);
    KindsConcat(before, [line]);
    assert Kinds([line]) == [k];
    assert Kinds(before + [line] + after) == kb + [k] + ka;
    assert forall j :: 0 <= j < |kb| ==> !kb[j].AlreadyDownloaded?;
    assert k.AlreadyDownloaded? || forall j :: 0 <= j < |ka| ==> ka[j] == Unmatched;
    ScanLastMatchWins(kb, k, ka, None);
  }

  /** `_download` reports the path of the deciding line when it is not empty. */
  lemma {:induction false} ParseReportsLastFile(before: seq<string>, line: string, after: seq<string>)
    requires !Classify(line).Unmatched?
    requires Classify(line).path != []
    requires forall j :: 0 <= j < |before| ==> !Classify(before[j]).AlreadyDownloaded?
    requires Classify(line).AlreadyDownloaded? || forall j :: 0 <= j < |after| ==> Classify(after[j]) == Unmatched
    ensures ParseDownloadLog(before + [line] + after) == Success(Classify(line).path)
  {
    ParseDecidedByLast(before, line, after);
  }

  /** Output in which no line names a file makes the download fail. */
  lemma {:induction false} NothingFoundFails(output: seq<string>)
    requires forall j :: 0 <= j < |output| ==> Classify(output[j]) == Unmatched
    ensures ParseDownloadLog(output) == Failure(DownloadFailed)
  {
    KeepLinesKeepsAll(output);
    ScanSkipsUnmatched(Kinds(output), None);
  }

  /**
   * A line that decides the outcome but names an empty path makes the download
   * fail even though it matched: the last merge or destination line, with only
   * unmatched lines after it, or the first "already downloaded" line, whatever
   * follows it.
   */
  lemma {:induction false} EmptyPathFails(before: seq<string>, line: string, after: seq<string>)
    requires !Classify(line).Unmatched? && Classify(line).path == []
    requires forall j :: 0 <= j < |before| ==> !Classify(before[j]).AlreadyDownloaded?
    requires Classify(line).AlreadyDownloaded? || forall j :: 0 <= j < |after| ==> Classify(after[j]) == Unmatched
    ensures ParseDownloadLog(before + [line] + after) == Failure(DownloadFailed)
  {
    ParseDecidedByLast(before, line, after);
  }

  /** With no quote in the destination, the command determines both arguments. */
  lemma {:induction false} DownloadCommandInjective(u1: string, d1: string, u2: string, d2: string)
    requires '\'' !in d1 && '\'' !in d2
    requires DownloadCommand(u1, d1) == DownloadCommand(u2, d2)
    ensures d1 == d2 && u1 == u2
  {
    var p := "yt-dlp --paths '";
    var s1, s2 := "' '" + u1 + "'", "' '" + u2 + "'";
    assert DownloadCommand(u1, d1) == p + d1 + s1;
    assert DownloadCommand(u2, d2) == p + d2 + s2;
    QuoteSeparated(p, d1, s1, d2, s2);
    assert s1[3..|s1| - 1] == u1;
    assert s2[3..|s2| - 1] == u2;
  }

  /** After a common prefix, a quote-free text is delimited by the quote that follows it. */
  lemma {:induction false} QuoteSeparated(p: string, d1: string, s1: string, d2: string, s2: string)
    requires '\'' !in d1 && '\'' !in d2
    requires s1 != [] && s1[0] == '\'' && s2 != [] && s2[0] == '\''
    requires p + d1 + s1 == p + d2 + s2
    ensures d1 == d2 && s1 == s2
  {
    var r1, r2 := d1 + s1, d2 + s2;
    assert r1 == (p + d1 + s1)[|p|..];
    assert r2 == (p + d2 + s2)[|p|..];
    FirstQuoteAt(r1, d1);
    FirstQuoteAt(r2, d2);
    assert r1[..|d1|] == d1 && r1[|d1|..] == s1;
    assert r2[..|d2|] == d2 && r2[|d2|..] == s2;
  }

  /** The first quote of `d + "'" + ...` is the one right after `d` when `d` holds none. */
  lemma {:induction false} FirstQuoteAt(r: string, d: string)
    requires '\'' !in d && |r| > |d| && r[..|d|] == d && r[|d|] == '\''
    ensures Find(r, "'", 0) == |d|
  {
    assert forall k :: 0 <= k < |d| ==> r[k] == d[k];
    assert r[|d|..|d| + 1] == "'";
    FindFirstOccurrence(r, "'", |d|);
  }

  /** A destination holding a quote can make two different requests print the same command. */
  lemma {:induction false} DownloadCommandAmbiguous()
    ensures DownloadCommand("b", "a' 'c") == DownloadCommand("c' 'b", "a")
  {
  }
}
