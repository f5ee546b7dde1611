/**
 * `GPT3Wrapper` in `src/text2summary/gpt3wrapper.py`: the prompt sent to the
 * completion engine, the clean-up of the text it returns, and the overwrite
 * guard of `summarise_to_file`.
 *
 * The completion engine is a function from a request to the text of the
 * first choice of its response.
 */
module Text2Summary {
  import opened PyStrings
  import opened FsUtil

  /** The cue appended to the text to ask for a summary. */
  const TlDr: string := "\n\nTl;dr"

  /** One `openai.Completion.create` call with its arguments. */
  datatype Request = Request(engine: string, prompt: string, maxTokens: nat, n: nat, temperature: real)

  /** The prompt: the text, then the summary cue. */
  function Prompt(text: string): (prompt: string)
    ensures StartsWith(prompt, text) && EndsWith(prompt, TlDr)
    ensures |prompt| == |text| + |TlDr|
  {
    var p := text + TlDr;
    assert p[..|text|] == text && p[|text|..] == TlDr;
    p
  }

  /** The one request `summarize` sends for `text`. */
  function SummaryRequest(modelName: string, text: string): (r: Request)
    ensures r.engine == modelName && StartsWith(r.prompt, text) && EndsWith(r.prompt, TlDr)
    ensures r.maxTokens == 1024 && r.n == 1 && r.temperature == 0.5
  {
    Request(modelName, Prompt(text), 1024, 1, 0.5)
  }

  /** The completion text with at most one leading `:` dropped. */
  function DropColon(completion: string): (rest: string)
    ensures EndsWith(completion, rest)
    ensures |rest| == (if StartsWith(completion, ":") then |completion| - 1 else |completion|)
  {
    if StartsWith(completion, ":") then completion[1..] else completion
  }

  /** The summary `summarize` returns for the completion text: one leading `:` removed, then stripped. */
  function CleanCompletion(completion: string): (summary: string)
    ensures |summary| <= |completion|
    ensures summary == [] || (!IsWhitespace(summary[0]) && !IsWhitespace(summary[|summary| - 1]))
  {
    Strip(DropColon(completion))
  }

  /** A text that starts with `:` keeps it through the strip. */
  lemma {:induction false} StripKeepsColon(s: string)
    requires StartsWith(s, ":")
    ensures StartsWith(Strip(s), ":")
  {
    assert s[0] == ':';
    assert !IsWhitespace(':');
    StripKeepsFirst(s);
  }

  /** Only one colon is removed: after `::` the summary still starts with `:`. */
  lemma {:induction false} OnlyOneColonRemoved(rest: string)
    ensures StartsWith(CleanCompletion("::" + rest), ":")
  {
    var s := "::" + rest;
    assert StartsWith(s, ":");
    assert DropColon(s) == ":" + rest;
    assert StartsWith(":" + rest, ":");
    StripKeepsColon(":" + rest);
  }

  /** The colon test comes before the strip: a colon after leading whitespace is kept. */
  lemma {:induction false} ColonAfterWhitespaceKept(w: string, rest: string)
    requires w != [] && AllWhitespace(w)
    ensures StartsWith(CleanCompletion(w + ":" + rest), ":")
  {
    var s := w + (":" + rest);
    assert s == w + ":" + rest;
    assert s[0] == w[0] && IsWhitespace(w[0]);
    assert !StartsWith(s, ":");
    StripSkipsLeadingWhitespace(w, ":" + rest);
    assert StartsWith(":" + rest, ":");
    StripKeepsColon(":" + rest);
  }

  /** A single leading colon directly before the text is removed. */
  lemma {:induction false} LeadingColonRemoved(rest: string)
    ensures CleanCompletion(":" + rest) == Strip(rest)
  {
    assert StartsWith(":" + rest, ":");
    assert (":" + rest)[1..] == rest;
  }

  /** The two cases side by side: `"::x"` and `" :x"` both give `":x"`. */
  lemma {:induction false} ColonExamples()
    ensures CleanCompletion("::x") == ":x"
    ensures CleanCompletion(" :x") == ":x"
  {
    var t := ":x";
    assert Strip(t) == t by {
      assert !IsWhitespace(t[0]) && !IsWhitespace(t[|t| - 1]);
      StripUnchanged(t);
    }
    assert CleanCompletion("::x") == Strip(t) by {
      assert ":" + t == "::x";
      LeadingColonRemoved(t);
    }
    assert CleanCompletion(" :x") == Strip(t) by {
      var w := " ";
      assert w + t == " :x" && AllWhitespace(w);
      assert !StartsWith(w + t, ":");
      StripSkipsLeadingWhitespace(w, t);
    }
  }

  /** The wrapper: the engine name fixed at construction and the requests sent so far. */
  class Gpt3Wrapper {
    const modelName: string
    var requests: seq<Request>

    /** `__init__`; the API key goes to the client library and is not modelled. */
    constructor (modelName: string, apiKey: string)
      ensures this.modelName == modelName && requests == []
    {
      this.modelName := modelName;
      requests := [];
    }

    /** `summarize`: exactly one request, whose first choice becomes the cleaned summary. */
    method Summarize(text: string, complete: Request -> string) returns (summary: string)
      modifies this
      ensures requests == old(requests) + [SummaryRequest(modelName, text)]
      ensures summary == CleanCompletion(complete(SummaryRequest(modelName, text)))
    {
      var prompt := text + TlDr;
      var request := Request(modelName, prompt, 1024, 1, 0.5);
      requests := requests + [request];
      var completion := complete(request);
      if StartsWith(completion, ":") {
        completion := completion[1..];
      }
      summary := Strip(completion);
    }

    /**
     * `summarise_to_file`. An existing destination without `overwrite`, or a
     * destination that cannot be opened for writing (`writable` false), gives
     * false with nothing sent and nothing written. Otherwise the destination
     * is truncated, the string `srcFile` itself is summarised, and the summary
     * is written there.
     */
    method SummariseToFile(fs: LocalFsUtil, srcFile: string, dstFile: string, overwrite: bool, writable: bool,
                           complete: Request -> string) returns (written: bool)
      modifies this, fs
      ensures written == ((overwrite || dstFile !in old(fs.files)) && writable)
      ensures !written ==> fs.files == old(fs.files) && requests == old(requests)
      ensures written ==> requests == old(requests) + [SummaryRequest(modelName, srcFile)]
      ensures written ==> fs.files == old(fs.files)[dstFile := CleanCompletion(complete(SummaryRequest(modelName, srcFile)))]
    {
      if !overwrite && dstFile in fs.files {
        return false;
      }
      if !writable {
        return false;
      }
      var _ := fs.SaveText(dstFile, "", true);
      var text := Summarize(srcFile, complete);
      var _ := fs.SaveText(dstFile, text, true);
      return true;
    }
  }
}
