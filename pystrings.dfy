/**
 * The Python `str` built-ins the repository relies on, with the semantics
 * CPython gives them: `strip`, `find`, slicing with clamped bounds,
 * `startswith`/`endswith`, `"".join`, `count` of one character and `replace`
 * of one character.
 */
module PyStrings {

  /** `str.isspace` for one character: the characters CPython strips by default. */
  predicate IsWhitespace(c: char) {
    || ('\t' <= c <= '\r')
    || ('\U{1c}' <= c <= '\U{1f}')
    || c == ' '
    || c == '\U{85}'
    || c == '\U{a0}'
    || c == '\U{1680}'
    || ('\U{2000}' <= c <= '\U{200a}')
    || c == '\U{2028}'
    || c == '\U{2029}'
    || c == '\U{202f}'
    || c == '\U{205f}'
    || c == '\U{3000}'
  }

  predicate AllWhitespace(s: string) {
    forall i :: 0 <= i < |s| ==> IsWhitespace(s[i])
  }

  /** Index of the first character of `s` that `strip` keeps (or `|s|`). */
  function StripStart(s: string): (i: nat)
    ensures i <= |s|
    ensures i < |s| ==> !IsWhitespace(s[i])
  {
    if s == [] || !IsWhitespace(s[0]) then 0 else StripStart(s[1..]) + 1
  }

  /** Everything before `StripStart(s)` is whitespace. */
  lemma {:induction false} StripStartSpec(s: string)
    ensures AllWhitespace(s[..StripStart(s)])
    decreases |s|
  {
    if s != [] && IsWhitespace(s[0]) {
      StripStartSpec(s[1..]);
      assert s[..StripStart(s)] == [s[0]] + s[1..][..StripStart(s[1..])];
    }
  }

  /** Walks back from `j` over trailing whitespace, never past `StripStart(s)`. */
  function TrimEnd(s: string, j: nat): (e: nat)
    requires StripStart(s) <= j <= |s|
    ensures StripStart(s) <= e <= j
    ensures e > StripStart(s) ==> !IsWhitespace(s[e - 1])
    decreases j
  {
    if j == StripStart(s) || !IsWhitespace(s[j - 1]) then j else TrimEnd(s, j - 1)
  }

  /** What `TrimEnd` walks back over is whitespace. */
  lemma {:induction false} TrimEndSpec(s: string, j: nat)
    requires StripStart(s) <= j <= |s|
    ensures AllWhitespace(s[TrimEnd(s, j)..j])
    decreases j
  {
    if !(j == StripStart(s) || !IsWhitespace(s[j - 1])) {
      TrimEndSpec(s, j - 1);
      var e := TrimEnd(s, j - 1);
      assert s[e..j] == s[e..j - 1] + [s[j - 1]];
    }
  }

  /** Index just past the last character of `s` that `strip` keeps. */
  function StripEnd(s: string): (j: nat)
    ensures StripStart(s) <= j <= |s|
    ensures j > StripStart(s) ==> !IsWhitespace(s[j - 1])
  {
    TrimEnd(s, |s|)
  }

  /** `s.strip()`: `s` without its leading and trailing whitespace; neither end of the result is blank. */
  function Strip(s: string): (r: string)
    ensures |r| <= |s|
    ensures r == [] || (!IsWhitespace(r[0]) && !IsWhitespace(r[|r| - 1]))
  {
    var i, j := StripStart(s), StripEnd(s);
    assert j > i ==> s[i..j][0] == s[i] && s[i..j][j - i - 1] == s[j - 1];
    s[i..j]
  }

  /** `strip` removes whitespace only, from both ends. */
  lemma {:induction false} StripSpec(s: string)
    ensures AllWhitespace(s[..StripStart(s)]) && AllWhitespace(s[StripEnd(s)..])
  {
    StripStartSpec(s);
    TrimEndSpec(s, |s|);
    assert s[StripEnd(s)..|s|] == s[StripEnd(s)..];
  }

  /** A text with no whitespace at either end is its own strip. */
  lemma {:induction false} StripUnchanged(s: string)
    requires s != [] && !IsWhitespace(s[0]) && !IsWhitespace(s[|s| - 1])
    ensures Strip(s) == s
  {
    assert StripStart(s) == 0;
    assert TrimEnd(s, |s|) == |s|;
    assert s[0..|s|] == s;
  }

  /** A stripped string that starts with a non-blank character keeps it first. */
  lemma {:induction false} StripKeepsFirst(s: string)
    requires s != [] && !IsWhitespace(s[0])
    ensures Strip(s) != [] && Strip(s)[0] == s[0]
  {
    TrimEndSpec(s, |s|);
  }

  /** Leading whitespace makes no difference to `strip`. */
  lemma {:induction false} StripSkipsLeadingWhitespace(w: string, s: string)
    requires AllWhitespace(w)
    ensures Strip(w + s) == Strip(s)
    decreases |w|
  {
    if w != [] {
      var u := w + s;
      assert u[0] == w[0] && u[1..] == w[1..] + s;
      StripStartShift(u);
      StripSkipsLeadingWhitespace(w[1..], s);
    } else {
      assert w + s == s;
    }
  }

  /** Dropping one leading blank shifts both strip bounds by one. */
  lemma {:induction false} StripStartShift(s: string)
    requires s != [] && IsWhitespace(s[0])
    ensures Strip(s) == Strip(s[1..])
  {
    var t := s[1..];
    var a := StripStart(t);
    assert StripStart(s) == a + 1;
    EndShift(s, |s|);
    assert |t| == |s| - 1;
    var b := TrimEnd(t, |t|);
    assert StripEnd(s) == b + 1;
    assert Strip(s) == s[a + 1..b + 1];
    SliceOfTail(s, a, b);
  }

  lemma {:induction false} SliceOfTail(s: string, a: nat, b: nat)
    requires a <= b < |s|
    ensures s[a + 1..b + 1] == s[1..][a..b]
  {
    var x, y := s[a + 1..b + 1], s[1..][a..b];
    assert |x| == b - a == |y|;
    forall i | 0 <= i < b - a
      ensures x[i] == y[i]
    {
      assert x[i] == s[a + 1 + i];
      assert y[i] == s[1..][a + i];
    }
  }

  lemma {:induction false} EndShift(s: string, j: nat)
    requires s != [] && IsWhitespace(s[0])
    requires StripStart(s) <= j <= |s|
    ensures StripStart(s[1..]) <= j - 1 && TrimEnd(s, j) == TrimEnd(s[1..], j - 1) + 1
    decreases j
  {
    assert StripStart(s) == StripStart(s[1..]) + 1;
    if j == StripStart(s) || !IsWhitespace(s[j - 1]) {
    } else {
      EndShift(s, j - 1);
    }
  }

  /** `pat` occurs in `s` starting at index `i`. */
  predicate OccursAt(s: string, pat: string, i: int) {
    0 <= i && i + |pat| <= |s| && s[i..i + |pat|] == pat
  }

  /** `s.find(pat, from)`: the least occurrence at or after `from`, or -1. */
  function Find(s: string, pat: string, from: nat): (r: int)
    ensures r == -1 || (from <= r && r + |pat| <= |s|)
    decreases |s| + 1 - from
  {
    if from + |pat| > |s| then -1
    else if s[from..from + |pat|] == pat then from
    else Find(s, pat, from + 1)
  }

  /** `find` reports an occurrence, and no occurrence at or after `from` comes before it; -1 means there is none. */
  lemma {:induction false} FindSpec(s: string, pat: string, from: nat)
    ensures var r := Find(s, pat, from);
      && (r == -1 || (from <= r && OccursAt(s, pat, r)))
      && (r == -1 ==> forall i :: from <= i ==> !OccursAt(s, pat, i))
      && (r != -1 ==> forall i :: from <= i < r ==> !OccursAt(s, pat, i))
    decreases |s| + 1 - from
  {
    if from + |pat| <= |s| && s[from..from + |pat|] != pat {
      FindSpec(s, pat, from + 1);
    }
  }

  /** An occurrence preceded by no copy of the pattern's first character is the one `find` reports. */
  lemma {:induction false} FindFirstOccurrence(s: string, pat: string, i: nat)
    requires pat != [] && OccursAt(s, pat, i)
    requires forall k :: 0 <= k < i ==> s[k] != pat[0]
    ensures Find(s, pat, 0) == i
  {
    FindSpec(s, pat, 0);
    assert s[i..i + |pat|][0] == s[i];
  }

  /** `pat` does not occur in `s` at any index below `n`. */
  predicate NoOccurrenceBefore(s: string, pat: string, n: int) {
    forall i :: 0 <= i < n ==> !OccursAt(s, pat, i)
  }

  /** `pat` does not occur in `s` at all. */
  predicate Absent(s: string, pat: string) {
    forall i :: 0 <= i <= |s| ==> !OccursAt(s, pat, i)
  }

  /** The first occurrence is the one `find` reports from the start. */
  lemma {:induction false} FindFirst(s: string, pat: string, i: nat)
    requires OccursAt(s, pat, i) && NoOccurrenceBefore(s, pat, i)
    ensures Find(s, pat, 0) == i
  {
    FindSpec(s, pat, 0);
  }

  /** A pattern that does not occur is not found. */
  lemma {:induction false} FindAbsent(s: string, pat: string)
    requires Absent(s, pat)
    ensures Find(s, pat, 0) == -1
  {
    FindSpec(s, pat, 0);
  }

  /** A pattern holding a character that `s` lacks is never found. */
  lemma {:induction false} FindMissingChar(s: string, pat: string, c: char, from: nat)
    requires c in pat && c !in s
    ensures Find(s, pat, from) == -1
  {
    FindSpec(s, pat, from);
  }

  /** `s.startswith(pat)`. */
  predicate StartsWith(s: string, pat: string) {
    |pat| <= |s| && s[..|pat|] == pat
  }

  /** `s.endswith(pat)`. */
  predicate EndsWith(s: string, pat: string) {
    |pat| <= |s| && s[|s| - |pat|..] == pat
  }

  /** `(a + b).endswith(b)`. */
  lemma {:induction false} EndsWithAppend(a: string, b: string)
    ensures EndsWith(a + b, b)
  {
    assert (a + b)[|a|..] == b;
  }

  /** A suffix of a suffix is a suffix. */
  lemma {:induction false} EndsWithTrans(s: string, t: string, u: string)
    requires EndsWith(s, t) && EndsWith(t, u)
    ensures EndsWith(s, u)
  {
    assert s[|s| - |u|..] == s[|s| - |t|..][|t| - |u|..];
  }

  function Min(a: int, b: int): int {
    if a < b then a else b
  }

  /** `s[lo:hi]` for non-negative bounds: each bound is clamped to `len(s)`. */
  function Slice(s: string, lo: nat, hi: nat): (r: string)
    ensures lo < Min(hi, |s|) ==> r == s[lo..Min(hi, |s|)]
    ensures lo >= Min(hi, |s|) ==> r == []
  {
    var h := Min(hi, |s|);
    if lo < h then s[lo..h] else []
  }

  /** Adjacent slices join up: `s[a:b] + s[b:c] == s[a:c]` whenever `a <= b <= c`. */
  lemma {:induction false} SliceAdjacent(s: string, a: nat, b: nat, c: nat)
    requires a <= b <= c
    ensures Slice(s, a, b) + Slice(s, b, c) == Slice(s, a, c)
  {
    var hb, hc := Min(b, |s|), Min(c, |s|);
    if a < hb && b < hc {
      assert s[a..hb] + s[b..hc] == s[a..hc];
    }
  }

  /** The case used from the start of the text: `s[0:a] + s[a:b] == s[0:b]`. */
  lemma {:induction false} SliceConcat(s: string, a: nat, b: nat)
    requires a <= b
    ensures Slice(s, 0, a) + Slice(s, a, b) == Slice(s, 0, b)
  {
    SliceAdjacent(s, 0, a, b);
  }

  /** `"".join(parts)`. */
  function Join(parts: seq<string>): (r: string)
    ensures parts == [] ==> r == []
    decreases |parts|
  {
    if parts == [] then [] else Join(parts[..|parts| - 1]) + parts[|parts| - 1]
  }

  /** Joining a concatenation of lists joins each list in turn. */
  lemma {:induction false} JoinConcat(a: seq<string>, b: seq<string>)
    ensures Join(a + b) == Join(a) + Join(b)
    decreases |b|
  {
    if b == [] {
      assert a + b == a;
    } else {
      var init := b[..|b| - 1];
      assert (a + b)[..|a + b| - 1] == a + init;
      assert (a + b)[|a + b| - 1] == b[|b| - 1];
      JoinConcat(a, init);
    }
  }

  /** `s.count(c)` for a one-character pattern. */
  function CountChar(s: string, c: char): (n: nat)
    ensures n <= |s|
    ensures n == 0 <==> c !in s
  {
    if s == [] then 0 else (if s[0] == c then 1 else 0) + CountChar(s[1..], c)
  }

  /** `s.replace(c, repl)` for a one-character pattern: every `c`, left to right, becomes `repl`. */
  function Replace(s: string, c: char, repl: string): (r: string)
    ensures c !in s ==> r == s
    decreases |s|
  {
    if s == [] then [] else (if s[0] == c then repl else [s[0]]) + Replace(s[1..], c, repl)
  }

  /** `replace` distributes over concatenation. */
  lemma {:induction false} ReplaceConcat(a: string, b: string, c: char, repl: string)
    ensures Replace(a + b, c, repl) == Replace(a, c, repl) + Replace(b, c, repl)
    decreases |a|
  {
    if a != [] {
      assert (a + b)[1..] == a[1..] + b;
      ReplaceConcat(a[1..], b, c, repl);
    } else {
      assert a + b == b;
    }
  }
}
