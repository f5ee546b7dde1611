/**
 * `NLPUtil.split_text_by_punctuation`: cuts a text after its periods and
 * regroups the slices greedily, so that a new piece starts only after two
 * long slices and once enough characters have accumulated.
 *
 * The method `SplitTextByPunctuation` is the routine itself (its two loops);
 * `Split` is the same computation written as a left fold (`Run`) over the cut
 * positions (`Positions`), and the lemmas below state what the fold
 * guarantees.
 */
module Nlp {
  import opened PyStrings

  /** A slice at least this long (measured as `pos - prev_pos`) may start a new piece. */
  const SafeSplit: int := 32
  /** A new piece starts only once the current one holds at least this many characters. */
  const MinPiece: int := 64

  /** The indices of the periods of `t` at or after `from`, in increasing order. */
  function DotsFrom(t: string, from: nat): (ds: seq<nat>)
    ensures forall j :: 0 <= j < |ds| ==> from <= ds[j] < |t| && t[ds[j]] == '.'
    decreases |t| - from
  {
    if from >= |t| then []
    else if t[from] == '.' then [from] + DotsFrom(t, from + 1)
    else DotsFrom(t, from + 1)
  }

  /** Every period at or after `from` is listed. */
  lemma {:induction false} DotsCover(t: string, from: nat, i: nat)
    requires from <= i < |t| && t[i] == '.'
    ensures i in DotsFrom(t, from)
    decreases |t| - from
  {
    if from < i {
      DotsCover(t, from + 1, i);
    }
  }

  /** The period indices come in strictly increasing order. */
  lemma {:induction false} DotsIncreasing(t: string, from: nat, i: nat, j: nat)
    requires i < j < |DotsFrom(t, from)|
    ensures DotsFrom(t, from)[i] < DotsFrom(t, from)[j]
    decreases |t| - from
  {
    if t[from] == '.' {
      if i > 0 {
        DotsIncreasing(t, from + 1, i - 1, j - 1);
      }
    } else {
      DotsIncreasing(t, from + 1, i, j);
    }
  }

  /** One step of the position scan: `t.find('.', from)` yields the next period, or -1 when none is left. */
  lemma {:induction false} FindNextDot(t: string, from: nat)
    requires from <= |t|
    ensures Find(t, ".", from) == -1 ==> DotsFrom(t, from) == []
    ensures Find(t, ".", from) != -1 ==>
      var r := Find(t, ".", from);
      r < |t| && DotsFrom(t, from) == [r] + DotsFrom(t, r + 1)
    decreases |t| - from
  {
    if from < |t| {
      assert t[from..from + 1] == [t[from]];
      if t[from] != '.' {
        FindNextDot(t, from + 1);
      }
    }
  }

  /** The period indices with 0 in front: the list `positions` once the scan loop ends. */
  function Scanned(t: string): (found: seq<nat>)
    ensures |found| >= 1 && found[0] == 0
  {
    [0] + DotsFrom(t, 0)
  }

  /** `Scanned(t)` without its repeated 0 when `t` starts with a period. */
  function Deduped(t: string): (ds: seq<nat>)
    ensures |ds| >= 1 && ds[0] == 0
  {
    var found := Scanned(t);
    if |found| > 1 && found[1] == found[0] then found[1..] else found
  }

  /**
   * The cut positions: 0, then every period, without the repeated 0 when the
   * text starts with a period, then `|t|` unless the text ends with a period.
   */
  function Positions(t: string): (ps: seq<nat>)
    ensures |ps| >= 1 && ps[0] == 0
  {
    var deduped := Deduped(t);
    if deduped[|deduped| - 1] != |t| - 1 then deduped + [|t|] else deduped
  }

  /** Every entry of `Deduped(t)` but the first is a period index, and the entries increase strictly. */
  lemma {:induction false} DedupedShape(t: string, i: nat, j: nat)
    requires i < j < |Deduped(t)|
    ensures Deduped(t)[i] < Deduped(t)[j] < |t| && t[Deduped(t)[j]] == '.'
  {
    var ds, dd := DotsFrom(t, 0), Deduped(t);
    if |ds| > 0 && ds[0] == 0 {
      assert dd == ds;
      DotsIncreasing(t, 0, i, j);
    } else {
      assert dd == [0] + ds;
      assert dd[j] == ds[j - 1];
      if i > 0 {
        assert dd[i] == ds[i - 1];
        DotsIncreasing(t, 0, i - 1, j - 1);
      } else if j > 1 {
        DotsIncreasing(t, 0, 0, j - 1);
      }
    }
  }

  /** The entries of `Deduped(t)` lie below `|t|`, unless `t` is empty. */
  lemma {:induction false} DedupedBounded(t: string, j: nat)
    requires j < |Deduped(t)|
    ensures Deduped(t)[j] <= |t| && (|t| > 0 ==> Deduped(t)[j] < |t|)
  {
    if j > 0 {
      DedupedShape(t, 0, j);
    }
  }

  /** The cut positions are at most `|t|`, and the last one is `|t| - 1` or `|t|`. */
  lemma {:induction false} PositionsBounded(t: string, j: nat)
    requires j < |Positions(t)|
    ensures Positions(t)[j] <= |t|
    ensures |t| <= Positions(t)[|Positions(t)| - 1] + 1
  {
    var ps, ds := Positions(t), Deduped(t);
    DedupedBounded(t, |ds| - 1);
    if ds[|ds| - 1] != |t| - 1 {
      assert ps == ds + [|t|];
    } else {
      assert ps == ds;
    }
    if j < |ds| {
      DedupedBounded(t, j);
    }
  }

  /** The cut positions never decrease, and increase strictly in a non-empty text. */
  lemma {:induction false} PositionsOrdered(t: string, i: nat, j: nat)
    requires i < j < |Positions(t)|
    ensures Positions(t)[i] <= Positions(t)[j]
    ensures |t| > 0 ==> Positions(t)[i] < Positions(t)[j]
  {
    var ds := Deduped(t);
    if j < |ds| {
      DedupedShape(t, i, j);
    } else {
      DedupedBounded(t, i);
      if |t| == 0 {
        assert ds == [0];
      }
    }
  }

  /** Every cut position other than the first and the last is the index of a period. */
  lemma {:induction false} PositionsInterior(t: string, j: nat)
    requires 0 < j < |Positions(t)| - 1
    ensures Positions(t)[j] < |t| && t[Positions(t)[j]] == '.'
  {
    DedupedShape(t, 0, j);
  }

  /** Every period of `t` is a cut position. */
  lemma {:induction false} PositionsCoverPeriods(t: string, i: nat)
    requires i < |t| && t[i] == '.'
    ensures i in Positions(t)
  {
    DotsCover(t, 0, i);
    assert i in Deduped(t);
  }

  /** The end of the text is added as a cut only when the last period is not the last character. */
  lemma {:induction false} PositionsSentinel(t: string)
    requires |t| > 0 && Positions(t)[|Positions(t)| - 1] == |t|
    ensures |Positions(t)| >= 2 && Positions(t)[|Positions(t)| - 2] + 1 < |t|
  {
    var ds, ps := Deduped(t), Positions(t);
    DedupedBounded(t, |ds| - 1);
    assert ds[|ds| - 1] < |t|;
    assert ps != ds;
    assert ds[|ds| - 1] != |t| - 1 && ps == ds + [|t|];
    assert ps[|ps| - 2] == ds[|ds| - 1];
  }

  /** An empty text is cut at 0 twice. */
  lemma {:induction false} PositionsOfEmpty(t: string)
    requires t == []
    ensures Positions(t) == [0, 0]
  {
  }

  /** Where the slice for position index `k` starts: `prev_pos` in the loop. */
  function PrevPos(ps: seq<nat>, k: nat): nat
    requires k <= |ps|
  {
    if k == 0 then 0 else ps[k - 1] + 1
  }

  /** The `length` the loop computes for position index `k`. */
  function Measure(ps: seq<nat>, k: nat): int
    requires k < |ps|
  {
    ps[k] - PrevPos(ps, k)
  }

  /** The slice `text[prev_pos:pos + 1]` for position index `k`. */
  function Part(t: string, ps: seq<nat>, k: nat): string
    requires k < |ps|
  {
    Slice(t, PrevPos(ps, k), ps[k] + 1)
  }

  /** The loop's variables: `result`, `tmp`, `tmp_len`, `prev_pos` and `countdown`. */
  datatype Acc = Acc(result: seq<string>, tmp: seq<string>, tmpLen: int, prevPos: nat, countdown: int)

  const Start: Acc := Acc([], [], 0, 0, 0)

  /** Whether the iteration for cut position `pos` closes the current piece before adding its slice. */
  predicate Flushes(a: Acc, pos: nat) {
    a.countdown == 0 && pos - a.prevPos >= SafeSplit && a.tmpLen >= MinPiece
  }

  /** One iteration of the regrouping loop, for cut position `pos`. */
  function Step(t: string, a: Acc, pos: nat): Acc {
    var length := pos - a.prevPos;
    var part := Slice(t, a.prevPos, pos + 1);
    var flush := Flushes(a, pos);
    var countdown := if !flush && length < SafeSplit then 2 else a.countdown;
    var result := if flush then a.result + [Join(a.tmp)] else a.result;
    var tmp := if flush then [] else a.tmp;
    var tmpLen := if flush then 0 else a.tmpLen;
    Acc(result, tmp + [part], tmpLen + |part|, pos + 1, if countdown != 0 then countdown - 1 else countdown)
  }

  /** The loop state after the iterations for `ps`, in order. */
  function Run(t: string, ps: seq<nat>): Acc
    decreases |ps|
  {
    if ps == [] then Start else Step(t, Run(t, ps[..|ps| - 1]), ps[|ps| - 1])
  }

  /** The final `if tmp: result.append("".join(tmp))`. */
  function Finish(a: Acc): (r: seq<string>)
    ensures |r| == |a.result| + (if a.tmp != [] then 1 else 0)
    ensures r[..|a.result|] == a.result
    ensures a.tmp != [] ==> r[|r| - 1] == Join(a.tmp)
  {
    if a.tmp != [] then a.result + [Join(a.tmp)] else a.result
  }

  /** What `split_text_by_punctuation(text)` returns. */
  function Split(text: string): seq<string> {
    var t := Strip(text);
    Finish(Run(t, Positions(t)))
  }

  /** A flushed piece is long enough and ends with a period. */
  predicate GoodPiece(s: string) {
    |s| >= MinPiece && s[|s| - 1] == '.'
  }

  /** Every piece but the last is a flushed one. */
  predicate AllButLastGood(r: seq<string>) {
    forall j :: 0 <= j < |r| - 1 ==> GoodPiece(r[j])
  }

  /** The pieces and the pending slices spell out the text read so far, and `tmp_len` counts the pending ones. */
  ghost predicate Covers(t: string, a: Acc) {
    && Join(a.result) + Join(a.tmp) == Slice(t, 0, a.prevPos)
    && a.tmpLen == |Join(a.tmp)|
  }

  /** The shape of the loop state after `k` iterations. */
  ghost predicate Shaped(t: string, ps: seq<nat>, k: nat, a: Acc)
    requires k <= |ps|
  {
    && a.prevPos == PrevPos(ps, k)
    && a.countdown == (if k > 0 && Measure(ps, k - 1) < SafeSplit then 1 else 0)
    && (a.tmp == [] <==> k == 0)
    && (forall j :: 0 <= j < |a.result| ==> GoodPiece(a.result[j]))
    && (k <= 2 ==> a.result == [])
    && (a.result != [] ==> |ps| >= 2 && Slice(t, 0, PrevPos(ps, 2)) <= a.result[0])
  }

  /** What holds of the loop state after `k` iterations. */
  ghost predicate Inv(t: string, ps: seq<nat>, k: nat, a: Acc)
    requires k <= |ps|
  {
    Covers(t, a) && Shaped(t, ps, k, a)
  }

  lemma {:induction false} JoinSnoc(parts: seq<string>, s: string)
    ensures Join(parts + [s]) == Join(parts) + s
  {
    assert (parts + [s])[..|parts|] == parts;
  }

  lemma {:induction false} SlicePrefix(t: string, a: nat, b: nat)
    requires a <= b
    ensures Slice(t, 0, a) <= Slice(t, 0, b)
  {
  }

  /** The facts about the cut positions that iteration `k` relies on. */
  ghost predicate CutsAt(t: string, ps: seq<nat>, k: nat)
    requires k < |ps|
  {
    && ps[0] == 0
    && (k > 0 ==> ps[k - 1] <= ps[k])
    && (k > 1 ==> ps[k - 1] < |t| && t[ps[k - 1]] == '.' && ps[1] <= ps[k - 1])
  }

  lemma {:induction false} PositionsCutsAt(t: string, k: nat)
    requires k < |Positions(t)|
    ensures CutsAt(t, Positions(t), k)
  {
    if k > 0 {
      PositionsOrdered(t, k - 1, k);
    }
    if k > 1 {
      PositionsInterior(t, k - 1);
    }
    if k > 2 {
      PositionsOrdered(t, 1, k - 1);
    }
  }

  /**
   * The piece a flush appends is long enough, ends with the period before the
   * new slice, and, when it is the first piece, holds the first two slices.
   */
  lemma {:induction false} FlushedPieceIsGood(t: string, ps: seq<nat>, k: nat, a: Acc)
    requires k < |ps| && CutsAt(t, ps, k) && Inv(t, ps, k, a) && Flushes(a, ps[k])
    ensures k >= 2 && GoodPiece(Join(a.tmp))
    ensures a.result == [] ==> Slice(t, 0, PrevPos(ps, 2)) <= Join(a.tmp)
  {
    var x, y := Join(a.result), Join(a.tmp);
    assert k >= 2 by {
      assert Measure(ps, 0) == 0;
    }
    var p := ps[k - 1];
    assert x + y == t[..p + 1];
    LastOfSuffix(x, y, t, p);
    if a.result == [] {
      assert x == [];
      SlicePrefix(t, PrevPos(ps, 2), a.prevPos);
    }
  }

  /** The last character of `y` is the last character of `t[..p + 1]` when `x + y` is that prefix. */
  lemma {:induction false} LastOfSuffix(x: string, y: string, t: string, p: nat)
    requires p < |t| && x + y == t[..p + 1] && y != []
    ensures y[|y| - 1] == t[p]
  {
    assert (x + y)[|x| + |y| - 1] == y[|y| - 1];
  }

  /** Appending a slice to the pieces appends it to their concatenation. */
  lemma {:induction false} AppendPart(x: string, y: string, part: string, whole: string)
    requires x + y == whole
    ensures x + (y + part) == whole + part
  {
  }

  /** Each iteration keeps the pieces and the pending slices spelling out the text read so far. */
  lemma {:induction false} StepCovers(t: string, a: Acc, pos: nat)
    requires Covers(t, a) && a.prevPos <= pos + 1
    ensures Covers(t, Step(t, a, pos))
  {
    var part := Slice(t, a.prevPos, pos + 1);
    var b := Step(t, a, pos);
    SliceConcat(t, a.prevPos, pos + 1);
    if Flushes(a, pos) {
      assert b.result == a.result + [Join(a.tmp)] && b.tmp == [part] && b.tmpLen == |part|;
      JoinSnoc(a.result, Join(a.tmp));
      JoinSnoc([], part);
      AppendPart(Join(a.result), Join(a.tmp), part, Slice(t, 0, a.prevPos));
    } else {
      assert b.result == a.result && b.tmp == a.tmp + [part] && b.tmpLen == a.tmpLen + |part|;
      JoinSnoc(a.tmp, part);
      AppendPart(Join(a.result), Join(a.tmp), part, Slice(t, 0, a.prevPos));
    }
    assert b.prevPos == pos + 1;
  }

  /** Each iteration keeps the shape of the loop state. */
  lemma {:induction false} StepShaped(t: string, ps: seq<nat>, k: nat, a: Acc)
    requires k < |ps| && Shaped(t, ps, k, a)
    requires Flushes(a, ps[k]) ==>
      k >= 2 && GoodPiece(Join(a.tmp)) && (a.result == [] ==> Slice(t, 0, PrevPos(ps, 2)) <= Join(a.tmp))
    ensures Shaped(t, ps, k + 1, Step(t, a, ps[k]))
  {
    var b := Step(t, a, ps[k]);
    if Flushes(a, ps[k]) {
      assert b.result == a.result + [Join(a.tmp)];
    } else {
      assert b.result == a.result;
    }
  }

  /** Each loop iteration preserves `Inv`. */
  lemma {:induction false} StepPreservesInv(t: string, ps: seq<nat>, k: nat, a: Acc)
    requires k < |ps| && CutsAt(t, ps, k) && Inv(t, ps, k, a)
    ensures Inv(t, ps, k + 1, Step(t, a, ps[k]))
  {
    if Flushes(a, ps[k]) {
      FlushedPieceIsGood(t, ps, k, a);
    }
    StepCovers(t, a, ps[k]);
    StepShaped(t, ps, k, a);
  }

  /** The facts about the cut positions that the whole loop relies on. */
  ghost predicate Cuts(t: string, ps: seq<nat>) {
    && |ps| >= 1
    && (forall k :: 0 <= k < |ps| ==> CutsAt(t, ps, k))
    && ps[|ps| - 1] <= |t| <= ps[|ps| - 1] + 1
    && (|ps| >= 2 ==> ps[1] <= ps[|ps| - 1])
  }

  lemma {:induction false} PositionsCuts(t: string)
    ensures Cuts(t, Positions(t))
  {
    var ps := Positions(t);
    forall k | 0 <= k < |ps|
      ensures CutsAt(t, ps, k)
    {
      PositionsCutsAt(t, k);
    }
    PositionsBounded(t, |ps| - 1);
    if |ps| > 2 {
      PositionsOrdered(t, 1, |ps| - 1);
    }
  }

  /** `Inv` holds after every number of iterations. */
  lemma {:induction false} RunInv(t: string, ps: seq<nat>, k: nat)
    requires Cuts(t, ps) && k <= |ps|
    ensures Inv(t, ps, k, Run(t, ps[..k]))
  {
    if k > 0 {
      RunInv(t, ps, k - 1);
      RunSnoc(t, ps, k - 1);
      assert CutsAt(t, ps, k - 1);
      StepPreservesInv(t, ps, k - 1, Run(t, ps[..k - 1]));
    }
  }

  /** One more cut position means one more iteration. */
  lemma {:induction false} RunSnoc(t: string, ps: seq<nat>, k: nat)
    requires k < |ps|
    ensures Run(t, ps[..k + 1]) == Step(t, Run(t, ps[..k]), ps[k])
  {
    assert ps[..k + 1][..k] == ps[..k];
  }

  /** The state after the whole loop, with `Inv` and the fact that the slices cover `t`. */
  lemma {:induction false} FinalState(t: string, ps: seq<nat>)
    requires Cuts(t, ps)
    ensures var a := Run(t, ps);
      Inv(t, ps, |ps|, a) && a.tmp != [] && Slice(t, 0, a.prevPos) == t
  {
    RunInv(t, ps, |ps|);
    assert ps[..|ps|] == ps;
  }

  /** What the final flush returns, for any cut positions the loop can meet. */
  lemma {:induction false} FinishFacts(t: string, ps: seq<nat>)
    requires Cuts(t, ps)
    ensures var r := Finish(Run(t, ps));
      && Join(r) == t
      && r != []
      && AllButLastGood(r)
      && (|ps| <= 2 ==> r == [t])
      && (|ps| >= 2 ==> Slice(t, 0, ps[1] + 1) <= r[0])
  {
    var a := Run(t, ps);
    FinalState(t, ps);
    JoinSnoc(a.result, Join(a.tmp));
    if |ps| >= 2 {
      FirstPieceOf(t, ps, a);
    }
    if |ps| <= 2 {
      assert Join(a.result) == [];
    }
  }

  /** After the last iteration the first piece starts with the text up to the second cut. */
  lemma {:induction false} FirstPieceOf(t: string, ps: seq<nat>, a: Acc)
    requires |ps| >= 2 && ps[1] <= ps[|ps| - 1]
    requires Inv(t, ps, |ps|, a) && a.tmp != [] && Slice(t, 0, a.prevPos) == t
    ensures Slice(t, 0, ps[1] + 1) <= Finish(a)[0]
  {
    if a.result == [] {
      JoinSnoc([], Join(a.tmp));
      SlicePrefix(t, ps[1] + 1, a.prevPos);
    }
  }

  /** Concatenating the returned pieces gives back exactly the stripped text. */
  lemma {:induction false} SplitRoundTrip(text: string)
    ensures Join(Split(text)) == Strip(text)
  {
    PositionsCuts(Strip(text));
    FinishFacts(Strip(text), Positions(Strip(text)));
  }

  /** The result is never empty. */
  lemma {:induction false} SplitNonEmpty(text: string)
    ensures |Split(text)| >= 1
  {
    PositionsCuts(Strip(text));
    FinishFacts(Strip(text), Positions(Strip(text)));
  }

  /** Every piece but the last is at least 64 characters long and ends with a period. */
  lemma {:induction false} SplitPiecesEndAfterPeriod(text: string)
    ensures AllButLastGood(Split(text))
  {
    PositionsCuts(Strip(text));
    FinishFacts(Strip(text), Positions(Strip(text)));
  }

  /** A text without periods comes back as one piece, the stripped text. */
  lemma {:induction false} SplitWithoutPeriod(text: string)
    requires '.' !in Strip(text)
    ensures Split(text) == [Strip(text)]
  {
    var t := Strip(text);
    var ps := Positions(t);
    forall j | 0 < j < |ps| - 1
      ensures ps[j] < |t| && t[ps[j]] == '.'
    {
      PositionsInterior(t, j);
    }
    assert |ps| <= 2;
    PositionsCuts(t);
    FinishFacts(t, ps);
  }

  /** An empty or all-blank text gives `[""]`. */
  lemma {:induction false} SplitBlank(text: string)
    requires Strip(text) == []
    ensures Split(text) == [""]
  {
    SplitWithoutPeriod(text);
  }

  /** At the loop head `countdown` is 0 or 1, and 0 exactly when the previous slice measured at least 32. */
  lemma {:induction false} CountdownAtLoopHead(t: string, k: nat)
    requires k <= |Positions(t)|
    ensures var c := Run(t, Positions(t)[..k]).countdown;
      (c == 0 || c == 1) && (c == 0 <==> k == 0 || Measure(Positions(t), k - 1) >= SafeSplit)
  {
    PositionsCuts(t);
    RunInv(t, Positions(t), k);
  }

  /**
   * Iteration `k` starts a new piece exactly when its slice and the previous
   * one both measure at least 32 and 64 characters have accumulated; this
   * never happens in the first two iterations.
   */
  lemma {:induction false} NewPieceCondition(t: string, k: nat)
    requires k < |Positions(t)|
    ensures var ps := Positions(t);
      var before := Run(t, ps[..k]);
      var after := Run(t, ps[..k + 1]);
      var starts := k >= 1 && Measure(ps, k) >= SafeSplit && Measure(ps, k - 1) >= SafeSplit
                    && before.tmpLen >= MinPiece;
      |after.result| == |before.result| + (if starts then 1 else 0) && (starts ==> k >= 2)
  {
    var ps := Positions(t);
    PositionsCuts(t);
    NewPieceConditionOn(t, ps, k);
  }

  lemma {:induction false} NewPieceConditionOn(t: string, ps: seq<nat>, k: nat)
    requires Cuts(t, ps) && k < |ps|
    ensures var before := Run(t, ps[..k]);
      var after := Run(t, ps[..k + 1]);
      var starts := k >= 1 && Measure(ps, k) >= SafeSplit && Measure(ps, k - 1) >= SafeSplit
                    && before.tmpLen >= MinPiece;
      |after.result| == |before.result| + (if starts then 1 else 0) && (starts ==> k >= 2)
  {
    RunInv(t, ps, k);
    assert CutsAt(t, ps, k);
    RunSnoc(t, ps, k);
    StepCount(t, ps, k, Run(t, ps[..k]));
  }

  /** How many pieces one iteration adds, in terms of the two latest slices. */
  lemma {:induction false} StepCount(t: string, ps: seq<nat>, k: nat, a: Acc)
    requires k < |ps| && CutsAt(t, ps, k) && Inv(t, ps, k, a)
    ensures var starts := k >= 1 && Measure(ps, k) >= SafeSplit && Measure(ps, k - 1) >= SafeSplit
                          && a.tmpLen >= MinPiece;
      |Step(t, a, ps[k]).result| == |a.result| + (if starts then 1 else 0) && (starts ==> k >= 2)
  {
    if k == 1 {
      assert Measure(ps, 0) == 0;
    }
    if Flushes(a, ps[k]) {
      FlushedPieceIsGood(t, ps, k, a);
    }
  }

  /** The first piece always holds the first two slices. */
  lemma {:induction false} FirstPieceHoldsTwoParts(text: string)
    requires |Positions(Strip(text))| >= 2
    ensures var t := Strip(text);
      Part(t, Positions(t), 0) + Part(t, Positions(t), 1) <= Split(text)[0]
  {
    var t := Strip(text);
    var ps := Positions(t);
    PositionsCuts(t);
    FinishFacts(t, ps);
    FirstTwoParts(t, ps);
  }

  lemma {:induction false} FirstTwoParts(t: string, ps: seq<nat>)
    requires |ps| >= 2 && ps[0] == 0
    ensures Part(t, ps, 0) + Part(t, ps, 1) == Slice(t, 0, ps[1] + 1)
  {
    assert Part(t, ps, 0) == Slice(t, 0, 1) && Part(t, ps, 1) == Slice(t, 1, ps[1] + 1);
    SliceConcat(t, 1, ps[1] + 1);
  }

  /** Dropping the repeated leading 0 means a non-empty text is never cut into an empty slice. */
  lemma {:induction false} NoEmptyParts(t: string, k: nat)
    requires |t| > 0 && k < |Positions(t)|
    ensures Part(t, Positions(t), k) != []
  {
    var ps := Positions(t);
    if k > 0 {
      PositionsOrdered(t, k - 1, k);
      if k < |ps| - 1 {
        PositionsInterior(t, k);
      } else if ps[k] == |t| {
        PositionsSentinel(t);
      } else {
        PositionsBounded(t, k);
      }
    }
  }

  /** `NLPUtil.split_text_by_punctuation`: strip, find the cuts, regroup the slices. */
  method SplitTextByPunctuation(text: string) returns (result: seq<string>)
    ensures result == Split(text)
    ensures Join(result) == Strip(text)
    ensures result != []
    ensures AllButLastGood(result)
  {
    var t := Strip(text);
    var positions := ScanPeriods(t);
    if |positions| > 1 && positions[1] == positions[0] {
      positions := positions[1..];
    }
    assert positions == Deduped(t);
    if positions[|positions| - 1] != |t| - 1 {
      positions := positions + [|t|];
    }
    assert positions == Positions(t);
    result := Regroup(t, positions);
    SplitRoundTrip(text);
    SplitNonEmpty(text);
    SplitPiecesEndAfterPeriod(text);
  }

  /** The first loop of `split_text_by_punctuation`: 0, then every period `find` reports. */
  method ScanPeriods(t: string) returns (positions: seq<nat>)
    ensures positions == Scanned(t)
  {
    positions := [0];
    var currPos: int := 0;
    while currPos >= 0
      invariant currPos <= |t|
      invariant currPos >= 0 ==> [0] + DotsFrom(t, 0) == positions + DotsFrom(t, currPos)
      invariant currPos < 0 ==> [0] + DotsFrom(t, 0) == positions
      decreases if currPos >= 0 then |t| + 1 - currPos else 0
    {
      FindNextDot(t, currPos);
      currPos := Find(t, ".", currPos);
      if currPos >= 0 {
        positions := positions + [currPos];
        currPos := currPos + 1;
      }
    }
  }

  /** The second loop of `split_text_by_punctuation` and the final flush. */
  method Regroup(t: string, positions: seq<nat>) returns (result: seq<string>)
    ensures result == Finish(Run(t, positions))
  {
    result := [];
    var tmp: seq<string> := [];
    var tmpLen := 0;
    var prevPos: nat := 0;
    var countdown := 0;
    for i := 0 to |positions|
      invariant Acc(result, tmp, tmpLen, prevPos, countdown) == Run(t, positions[..i])
    {
      var pos := positions[i];
      assert positions[..i + 1][..i] == positions[..i];
      ghost var next := Step(t, Acc(result, tmp, tmpLen, prevPos, countdown), pos);
      assert Run(t, positions[..i + 1]) == next;
      var length := pos - prevPos;
      var part := Slice(t, prevPos, pos + 1);
      if countdown == 0 && length >= SafeSplit && tmpLen >= MinPiece {
        result := result + [Join(tmp)];
        tmp, tmpLen := [], 0;
      } else if length < SafeSplit {
        countdown := 2;  // decremented below, so only the next iteration cannot flush
      }
      tmp := tmp + [part];
      tmpLen := tmpLen + |part|;
      prevPos := pos + 1;
      if countdown != 0 {
        countdown := countdown - 1;
      }
    }
    assert positions[..|positions|] == positions;
    if tmp != [] {
      result := result + [Join(tmp)];
    }
  }
}
