/**
 Merging short transcript segments: `merge_short_segments`. Times are seconds as
 `real`; `strip` is Python's `str.strip`, left arbitrary.
 */
module Segments {
  import opened Wrappers

  datatype Segment = Segment(start: real, end: real, text: string)

  function Last(run: seq<Segment>): Segment
    requires run != []
  {
    run[|run| - 1]
  }

  function Duration(s: Segment): real { s.end - s.start }

  /** The merging condition: `and` binds tighter than `or`. */
  predicate Joins(current: Segment, next: Segment, minDuration: real, maxDuration: real) {
    || Duration(next) < minDuration
    || (next.end - current.start < maxDuration && next.start - current.end < 3.0)
  }

  function Join(texts: seq<string>): string {
    if texts == [] then ""
    else if |texts| == 1 then texts[0]
    else Join(texts[..|texts| - 1]) + " " + texts[|texts| - 1]
  }

  function Texts(segments: seq<Segment>, strip: string -> string): (r: seq<string>)
    ensures |r| == |segments|
  {
    seq(|segments|, i requires 0 <= i < |segments| => strip(segments[i].text))
  }

  /** One output segment for a run of input segments. */
  function Fuse(run: seq<Segment>, strip: string -> string): Segment
    requires run != []
  {
    Segment(run[0].start, Last(run).end, Join(Texts(run, strip)))
  }

  datatype Settings = Settings(minDuration: real, maxDuration: real, strip: string -> string)

  /** Within a run, each segment joins what came before it. */
  ghost predicate IsRun(run: seq<Segment>, o: Settings) {
    run != [] && forall j :: 1 <= j < |run| ==> Joins(Fuse(run[..j], o.strip), run[j], o.minDuration, o.maxDuration)
  }

  /** The input cut into consecutive runs, latest first. */
  datatype Runs = Empty | Then(before: Runs, run: seq<Segment>)

  ghost function Input(runs: Runs): seq<Segment> {
    match runs
    case Empty => []
    case Then(before, run) => Input(before) + run
  }

  /** One fused segment per run. */
  ghost function Output(runs: Runs, o: Settings): seq<Segment>
    requires IsMerge(runs, o)
  {
    match runs
    case Empty => []
    case Then(before, run) => Output(before, o) + [Fuse(run, o.strip)]
  }

  /** Within a run the condition holds at every step, and between runs it fails. */
  ghost predicate IsMerge(runs: Runs, o: Settings) {
    match runs
    case Empty => true
    case Then(before, run) => IsRun(run, o) && IsMerge(before, o) && Breaks(before, run[0], o)
  }

  ghost predicate Breaks(before: Runs, next: Segment, o: Settings) {
    before.Then? ==> before.run != [] && !Joins(Fuse(before.run, o.strip), next, o.minDuration, o.maxDuration)
  }

  lemma SingleRun(s: Segment, o: Settings)
    ensures IsRun([s], o)
    ensures Fuse([s], o.strip) == Segment(s.start, s.end, o.strip(s.text))
  {
  }

  lemma ExtendRun(run: seq<Segment>, s: Segment, o: Settings)
    requires IsRun(run, o) && Joins(Fuse(run, o.strip), s, o.minDuration, o.maxDuration)
    ensures IsRun(run + [s], o)
    ensures Fuse(run + [s], o.strip) == Segment(run[0].start, s.end, Fuse(run, o.strip).text + " " + o.strip(s.text))
  {
    var longer := run + [s];
    forall j | 1 <= j < |longer| ensures Joins(Fuse(longer[..j], o.strip), longer[j], o.minDuration, o.maxDuration) {
      if j < |run| { assert longer[..j] == run[..j]; } else { assert longer[..j] == run; }
    }
    assert Texts(longer, o.strip)[..|run|] == Texts(run, o.strip);
  }

  /** After the segments `seen`: complete runs, and the current segment fused from `current`. */
  ghost predicate Merging(seen: seq<Segment>, runs: Runs, current: seq<Segment>, o: Settings,
                          merged: seq<Segment>, currentSegment: Option<Segment>)
  {
    && IsMerge(runs, o) && merged == Output(runs, o)
    && (seen == [] ==> runs == Empty && currentSegment == None)
    && (seen != [] ==>
          && IsMerge(Then(runs, current), o) && Input(Then(runs, current)) == seen
          && currentSegment == Some(Fuse(current, o.strip)))
  }

  lemma MergingFirst(s: Segment, o: Settings)
    ensures Merging([s], Empty, [s], o, [], Some(Segment(s.start, s.end, o.strip(s.text))))
  {
    SingleRun(s, o);
  }

  lemma MergingJoins(
      seen: seq<Segment>, runs: Runs, current: seq<Segment>, o: Settings, merged: seq<Segment>, now: Segment,
      s: Segment)
    requires seen != [] && Merging(seen, runs, current, o, merged, Some(now))
    requires Joins(now, s, o.minDuration, o.maxDuration)
    ensures Merging(seen + [s], runs, current + [s], o, merged,
                    Some(Segment(now.start, s.end, now.text + " " + o.strip(s.text))))
  {
    ExtendRun(current, s, o);
    assert Input(runs) + (current + [s]) == Input(runs) + current + [s];
  }

  lemma MergingBreaks(
      seen: seq<Segment>, runs: Runs, current: seq<Segment>, o: Settings, merged: seq<Segment>, now: Segment,
      s: Segment)
    requires seen != [] && Merging(seen, runs, current, o, merged, Some(now))
    requires !Joins(now, s, o.minDuration, o.maxDuration)
    ensures Merging(seen + [s], Then(runs, current), [s], o, merged + [now],
                    Some(Segment(s.start, s.end, o.strip(s.text))))
  {
    SingleRun(s, o);
  }

  /** `merged` has one fused segment per run of a cut of `segments` into consecutive runs. */
  ghost predicate IsMerged(segments: seq<Segment>, o: Settings, merged: seq<Segment>) {
    exists runs :: IsMerge(runs, o) && Input(runs) == segments && Output(runs, o) == merged
  }

  /** `merge_short_segments`. */
  method MergeShortSegments(segments: seq<Segment>, o: Settings) returns (merged: seq<Segment>)
    ensures IsMerged(segments, o, merged)
  {
    merged := [];
    var currentSegment: Option<Segment> := None;
    ghost var runs: Runs, current: seq<Segment> := Empty, [];
    for n := 0 to |segments|
      invariant Merging(segments[..n], runs, current, o, merged, currentSegment)
    {
      var segment := segments[n];
      assert segments[..n + 1] == segments[..n] + [segment];
      if currentSegment == None {
        MergingFirst(segment, o);
        assert segments[..1] == [segment];
        currentSegment := Some(Segment(segment.start, segment.end, o.strip(segment.text)));
        current := [segment];
      } else {
        var now := currentSegment.value;
        if Joins(now, segment, o.minDuration, o.maxDuration) {
          MergingJoins(segments[..n], runs, current, o, merged, now, segment);
          currentSegment := Some(Segment(now.start, segment.end, now.text + " " + o.strip(segment.text)));
          current := current + [segment];
        } else {
          MergingBreaks(segments[..n], runs, current, o, merged, now, segment);
          merged := merged + [now];
          currentSegment := Some(Segment(segment.start, segment.end, o.strip(segment.text)));
          runs, current := Then(runs, current), [segment];
        }
      }
    }
    assert segments[..|segments|] == segments;
    if currentSegment.Some? {
      merged, runs := merged + [currentSegment.value], Then(runs, current);
    }
    assert IsMerge(runs, o) && Input(runs) == segments && Output(runs, o) == merged;
  }

  /** The cut of all but the last segment. */
  ghost function DropLast(runs: Runs, o: Settings): (r: Runs)
    requires IsMerge(runs, o) && runs.Then?
    ensures IsMerge(r, o) && Input(runs) != []
    ensures Input(r) == Input(runs)[..|Input(runs)| - 1]
  {
    var n := |runs.run| - 1;
    assert Input(runs)[..|Input(runs)| - 1] == Input(runs.before) + runs.run[..n];
    if n == 0 then
      assert Input(runs.before) + runs.run[..0] == Input(runs.before);
      runs.before
    else
      assert forall j :: 1 <= j < n ==> runs.run[..n][..j] == runs.run[..j];
      Then(runs.before, runs.run[..n])
  }

  /** The cut once `s` is added at the end. */
  ghost function WithLast(r: Runs, s: Segment, o: Settings): Runs
    requires IsMerge(r, o)
  {
    if r == Empty then Then(Empty, [s])
    else if Joins(Fuse(r.run, o.strip), s, o.minDuration, o.maxDuration) then Then(r.before, r.run + [s])
    else Then(r, [s])
  }

  lemma LastStep(runs: Runs, o: Settings)
    requires IsMerge(runs, o) && runs.Then?
    ensures runs == WithLast(DropLast(runs, o), Last(Input(runs)), o)
  {
    var n := |runs.run| - 1;
    assert runs.run == runs.run[..n] + [runs.run[n]];
    assert Last(Input(runs)) == runs.run[n];
    if n > 0 { assert Joins(Fuse(runs.run[..n], o.strip), runs.run[n], o.minDuration, o.maxDuration); }
  }

  /** There is only one such cut, so `IsMerged` determines the result. */
  lemma {:induction false} CutUnique(a: Runs, b: Runs, o: Settings)
    requires IsMerge(a, o) && IsMerge(b, o) && Input(a) == Input(b)
    ensures a == b
    decreases |Input(a)|
  {
    SameEmptiness(a, o);
    SameEmptiness(b, o);
    if a.Then? {
      var x, y := DropLast(a, o), DropLast(b, o);
      CutUnique(x, y, o);
      LastStep(a, o);
      LastStep(b, o);
    }
  }

  lemma {:induction false} MergedUnique(segments: seq<Segment>, o: Settings, a: seq<Segment>, b: seq<Segment>)
    requires IsMerged(segments, o, a) && IsMerged(segments, o, b)
    ensures a == b
  {
    var x :| IsMerge(x, o) && Input(x) == segments && Output(x, o) == a;
    var y :| IsMerge(y, o) && Input(y) == segments && Output(y, o) == b;
    CutUnique(x, y, o);
  }

  // ---------- which inputs share an output ----------

  /** Does input `i` continue an output that starts with input `first`? In times and gap only. */
  ghost predicate Continues(segments: seq<Segment>, o: Settings, first: nat, i: nat)
    requires first < i < |segments|
  {
    var s := segments[i];
    || s.end - s.start < o.minDuration
    || (s.end - segments[first].start < o.maxDuration && s.start - segments[i - 1].end < 3.0)
  }

  /** The positions where outputs start, in order, and the end of the input. */
  ghost predicate Ascends(cuts: seq<nat>, n: nat) {
    && cuts != [] && cuts[0] == 0 && cuts[|cuts| - 1] == n
    && forall m, p :: 0 <= m < p < |cuts| ==> cuts[m] < cuts[p] <= n
  }

  /** Output `m` is what the inputs from one cut to the next make. */
  ghost predicate MadeOf(segments: seq<Segment>, o: Settings, cuts: seq<nat>, merged: seq<Segment>, m: nat)
    requires Ascends(cuts, |segments|) && m < |merged| == |cuts| - 1
  {
    merged[m] == Segment(
      segments[cuts[m]].start, segments[cuts[m + 1] - 1].end, Join(Texts(segments[cuts[m]..cuts[m + 1]], o.strip)))
  }

  ghost predicate CutsAreRight(segments: seq<Segment>, o: Settings, cuts: seq<nat>)
    requires Ascends(cuts, |segments|)
  {
    && (forall m, i :: 0 <= m < |cuts| - 1 && cuts[m] < i < cuts[m + 1] ==> Continues(segments, o, cuts[m], i))
    && (forall m :: 1 <= m < |cuts| - 1 ==> !Continues(segments, o, cuts[m - 1], cuts[m]))
  }

  lemma AscendsExtend(front: seq<nat>, n: nat, n': nat)
    requires Ascends(front, n) && n < n'
    ensures Ascends(front + [n'], n')
  {
  }

  lemma MadeInFront(
      a: seq<Segment>, b: seq<Segment>, o: Settings, front: seq<nat>, out: seq<Segment>, last: Segment, m: nat)
    requires Ascends(front, |a|) && Ascends(front + [|a + b|], |a + b|)
    requires m < |out| == |front| - 1 && MadeOf(a, o, front, out, m)
    ensures MadeOf(a + b, o, front + [|a + b|], out + [last], m)
  {
    assert (a + b)[front[m]..front[m + 1]] == a[front[m]..front[m + 1]];
  }

  lemma MadeLast(a: seq<Segment>, b: seq<Segment>, o: Settings, front: seq<nat>, out: seq<Segment>)
    requires Ascends(front, |a|) && Ascends(front + [|a + b|], |a + b|) && b != [] && |out| == |front| - 1
    ensures MadeOf(a + b, o, front + [|a + b|], out + [Fuse(b, o.strip)], |out|)
  {
    assert (a + b)[|a|..|a + b|] == b;
  }

  lemma SameInFront(a: seq<Segment>, b: seq<Segment>, o: Settings, first: nat, i: nat)
    requires first < i < |a|
    ensures Continues(a + b, o, first, i) <==> Continues(a, o, first, i)
  {
  }

  /** Inputs `b` form one more output. */
  ghost predicate OneMore(a: seq<Segment>, b: seq<Segment>, o: Settings, front: seq<nat>)
    requires Ascends(front, |a|)
  {
    && b != []
    && (forall i :: |a| < i < |a + b| ==> Continues(a + b, o, |a|, i))
    && (|front| > 1 ==> !Continues(a + b, o, front[|front| - 2], |a|))
  }

  lemma InnerExtend(a: seq<Segment>, b: seq<Segment>, o: Settings, front: seq<nat>, m: nat, i: nat)
    requires Ascends(front, |a|) && Ascends(front + [|a + b|], |a + b|)
    requires CutsAreRight(a, o, front) && OneMore(a, b, o, front)
    requires m < |front| && front[m] < i < (front + [|a + b|])[m + 1]
    ensures Continues(a + b, o, front[m], i)
  {
    if m < |front| - 1 { SameInFront(a, b, o, front[m], i); }
  }

  lemma BreaksExtend(a: seq<Segment>, b: seq<Segment>, o: Settings, front: seq<nat>, m: nat)
    requires Ascends(front, |a|) && CutsAreRight(a, o, front) && OneMore(a, b, o, front)
    requires 1 <= m < |front|
    ensures !Continues(a + b, o, front[m - 1], front[m])
  {
    if m < |front| - 1 { SameInFront(a, b, o, front[m - 1], front[m]); }
  }

  lemma CutsExtend(a: seq<Segment>, b: seq<Segment>, o: Settings, front: seq<nat>)
    requires Ascends(front, |a|) && CutsAreRight(a, o, front) && OneMore(a, b, o, front)
    ensures Ascends(front + [|a + b|], |a + b|) && CutsAreRight(a + b, o, front + [|a + b|])
  {
    var cuts := front + [|a + b|];
    AscendsExtend(front, |a|, |a + b|);
    forall m, i | 0 <= m < |front| && cuts[m] < i < cuts[m + 1] ensures Continues(a + b, o, cuts[m], i) {
      InnerExtend(a, b, o, front, m, i);
    }
    forall m | 1 <= m < |front| ensures !Continues(a + b, o, cuts[m - 1], cuts[m]) {
      BreaksExtend(a, b, o, front, m);
    }
  }

  lemma MadeExtend(a: seq<Segment>, b: seq<Segment>, o: Settings, front: seq<nat>, out: seq<Segment>)
    requires Ascends(front, |a|) && Ascends(front + [|a + b|], |a + b|) && b != [] && |out| == |front| - 1
    requires forall m :: 0 <= m < |out| ==> MadeOf(a, o, front, out, m)
    ensures forall m :: 0 <= m < |front| ==> MadeOf(a + b, o, front + [|a + b|], out + [Fuse(b, o.strip)], m)
  {
    forall m | 0 <= m < |front| ensures MadeOf(a + b, o, front + [|a + b|], out + [Fuse(b, o.strip)], m) {
      if m < |out| { MadeInFront(a, b, o, front, out, Fuse(b, o.strip), m); } else { MadeLast(a, b, o, front, out); }
    }
  }

  lemma RunContinues(a: seq<Segment>, run: seq<Segment>, o: Settings, i: nat)
    requires IsRun(run, o) && |a| < i < |a + run|
    ensures Continues(a + run, o, |a|, i)
  {
    var j := i - |a|;
    assert Joins(Fuse(run[..j], o.strip), run[j], o.minDuration, o.maxDuration);
  }

  lemma RunBreaks(a: seq<Segment>, previous: seq<Segment>, run: seq<Segment>, o: Settings)
    requires previous != [] && run != []
    requires !Joins(Fuse(previous, o.strip), run[0], o.minDuration, o.maxDuration)
    ensures !Continues(a + previous + run, o, |a|, |a + previous|)
  {
  }

  /** The last run: its segments continue it, and it did not continue the run before. */
  lemma LastRunIsOneMore(before: Runs, run: seq<Segment>, o: Settings, front: seq<nat>)
    requires IsMerge(Then(before, run), o) && Ascends(front, |Input(before)|)
    requires if before == Empty then |front| == 1 else |front| > 1 && front[|front| - 2] == |Input(before.before)|
    ensures OneMore(Input(before), run, o, front)
  {
    var n, all := |Input(before)|, Input(before) + run;
    forall i | n < i < |all| ensures Continues(all, o, n, i) { RunContinues(Input(before), run, o, i); }
    if before.Then? { RunBreaks(Input(before.before), before.run, run, o); }
  }

  lemma {:induction false} CutsOf(runs: Runs, o: Settings) returns (cuts: seq<nat>)
    requires IsMerge(runs, o)
    ensures Ascends(cuts, |Input(runs)|) && |Output(runs, o)| == |cuts| - 1
    ensures if runs == Empty then |cuts| == 1 else |cuts| > 1 && cuts[|cuts| - 2] == |Input(runs.before)|
    ensures CutsAreRight(Input(runs), o, cuts)
    ensures forall m :: 0 <= m < |cuts| - 1 ==> MadeOf(Input(runs), o, cuts, Output(runs, o), m)
  {
    match runs
    case Empty => cuts := [0];
    case Then(before, run) =>
      var front := CutsOf(before, o);
      LastRunIsOneMore(before, run, o, front);
      CutsExtend(Input(before), run, o, front);
      MadeExtend(Input(before), run, o, front, Output(before, o));
      cuts := front + [|Input(before) + run|];
  }

  /** The positions at which the outputs of `MergeShortSegments` start. */
  lemma {:induction false} OutputsCut(segments: seq<Segment>, o: Settings, merged: seq<Segment>)
    returns (cuts: seq<nat>)
    requires IsMerged(segments, o, merged)
    ensures Ascends(cuts, |segments|) && |cuts| == |merged| + 1 && CutsAreRight(segments, o, cuts)
    ensures forall m :: 0 <= m < |merged| ==>
      merged[m] == Segment(
        segments[cuts[m]].start, segments[cuts[m + 1] - 1].end, Join(Texts(segments[cuts[m]..cuts[m + 1]], o.strip)))
  {
    var runs :| IsMerge(runs, o) && Input(runs) == segments && Output(runs, o) == merged;
    cuts := CutsOf(runs, o);
    OutputsAre(segments, o, cuts, merged);
  }

  lemma OutputsAre(segments: seq<Segment>, o: Settings, cuts: seq<nat>, merged: seq<Segment>)
    requires Ascends(cuts, |segments|) && |cuts| == |merged| + 1
    requires forall m :: 0 <= m < |merged| ==> MadeOf(segments, o, cuts, merged, m)
    ensures forall m :: 0 <= m < |merged| ==>
      merged[m] == Segment(
        segments[cuts[m]].start, segments[cuts[m + 1] - 1].end, Join(Texts(segments[cuts[m]..cuts[m + 1]], o.strip)))
  {
    forall m | 0 <= m < |merged|
      ensures merged[m] == Segment(
        segments[cuts[m]].start, segments[cuts[m + 1] - 1].end, Join(Texts(segments[cuts[m]..cuts[m + 1]], o.strip)))
    {
      assert MadeOf(segments, o, cuts, merged, m);
    }
  }

  /**
   Which neighbours share an output: the input after those of output `m` so far
   starts a new one exactly when it is not short itself, and either ends too late
   for the maximum or follows its predecessor by three seconds or more.
   */
  lemma {:induction false} NewOutputIff(segments: seq<Segment>, o: Settings, cuts: seq<nat>, m: nat, i: nat)
    requires Ascends(cuts, |segments|) && CutsAreRight(segments, o, cuts)
    requires m < |cuts| - 1 && cuts[m] < i < |segments| && i <= cuts[m + 1]
    ensures i == cuts[m + 1] <==>
      && segments[i].end - segments[i].start >= o.minDuration
      && (segments[i].end - segments[cuts[m]].start >= o.maxDuration
          || segments[i].start - segments[i - 1].end >= 3.0)
  {
    if i == cuts[m + 1] {
      assert 1 <= m + 1 < |cuts| - 1;
      assert !Continues(segments, o, cuts[m + 1 - 1], cuts[m + 1]);
    } else {
      assert Continues(segments, o, cuts[m], i);
    }
  }

  // ---------- what the result guarantees ----------

  /** Each segment ends no earlier than it starts, and the next starts no earlier than that. */
  ghost predicate TimeOrdered(segments: seq<Segment>) {
    && (forall i :: 0 <= i < |segments| ==> segments[i].start <= segments[i].end)
    && (forall i, j :: 0 <= i < j < |segments| ==> segments[i].end <= segments[j].start)
  }

  /** The outputs keep the text: joining theirs is joining the stripped inputs. */
  lemma {:induction false} TextPreserved(runs: Runs, o: Settings)
    requires IsMerge(runs, o)
    ensures Join(OutputTexts(Output(runs, o))) == Join(Texts(Input(runs), o.strip))
  {
    if runs.Then? {
      var outs, last := OutputTexts(Output(runs.before, o)), Texts(runs.run, o.strip);
      TextPreserved(runs.before, o);
      OutputTextsAppend(Output(runs.before, o), Fuse(runs.run, o.strip));
      TextsAppend(Input(runs.before), runs.run, o.strip);
      JoinConcat(Texts(Input(runs.before), o.strip), last);
      JoinConcat(outs, [Join(last)]);
      SameEmptiness(runs.before, o);
    }
  }

  lemma TextsAppend(a: seq<Segment>, b: seq<Segment>, strip: string -> string)
    ensures Texts(a + b, strip) == Texts(a, strip) + Texts(b, strip)
  {
  }

  lemma OutputTextsAppend(a: seq<Segment>, s: Segment)
    ensures OutputTexts(a + [s]) == OutputTexts(a) + [s.text]
  {
  }

  lemma SameEmptiness(runs: Runs, o: Settings)
    requires IsMerge(runs, o)
    ensures runs == Empty <==> Input(runs) == []
    ensures runs == Empty <==> Output(runs, o) == []
  {
  }

  function OutputTexts(merged: seq<Segment>): (r: seq<string>)
    ensures |r| == |merged|
  {
    seq(|merged|, i requires 0 <= i < |merged| => merged[i].text)
  }

  lemma JoinLast(a: seq<string>, x: string)
    ensures Join(a + [x]) == if a == [] then x else Join(a) + " " + x
  {
    assert (a + [x])[..|a|] == a;
  }

  lemma {:induction false} JoinConcat(a: seq<string>, b: seq<string>)
    requires b != []
    ensures Join(a + b) == if a == [] then Join(b) else Join(a) + " " + Join(b)
  {
    if a == [] {
      assert a + b == b;
    } else {
      var n := |b| - 1;
      assert b == b[..n] + [b[n]] && a + b == (a + b[..n]) + [b[n]];
      JoinLast(a + b[..n], b[n]);
      JoinLast(b[..n], b[n]);
      if n > 0 {
        JoinConcat(a, b[..n]);
        SpacedAssoc(Join(a), Join(b[..n]), b[n]);
      } else {
        assert a + b[..n] == a;
      }
    }
  }

  lemma SpacedAssoc(x: string, y: string, z: string)
    ensures x + " " + y + " " + z == x + " " + (y + " " + z)
  {
  }

  lemma TimeOrderedParts(a: seq<Segment>, b: seq<Segment>)
    requires TimeOrdered(a + b)
    ensures TimeOrdered(a) && TimeOrdered(b)
    ensures forall x, y :: x in a && y in b ==> x.end <= y.start
  {
    var s := a + b;
    forall i | 0 <= i < |a| ensures a[i] == s[i] {}
    forall i | 0 <= i < |b| ensures b[i] == s[|a| + i] {}
  }

  lemma RunSpan(run: seq<Segment>)
    requires run != [] && TimeOrdered(run)
    ensures run[0].start <= run[0].end <= Last(run).end
  {
    if |run| > 1 { assert run[0].end <= run[|run| - 1].start; }
  }

  /** A multi-segment output reaches the maximum only if its final segment is short. */
  lemma {:induction false} RunBounded(run: seq<Segment>, o: Settings)
    requires IsRun(run, o) && |run| > 1
    ensures Duration(Fuse(run, o.strip)) < o.maxDuration || Duration(Last(run)) < o.minDuration
  {
    var n := |run| - 1;
    assert Joins(Fuse(run[..n], o.strip), run[n], o.minDuration, o.maxDuration);
  }

  /** The run behind output `i`. */
  ghost function RunAt(runs: Runs, o: Settings, i: nat): seq<Segment>
    requires IsMerge(runs, o) && i < |Output(runs, o)|
  {
    if i == |Output(runs, o)| - 1 then runs.run else RunAt(runs.before, o, i)
  }

  /** Each output fuses its run; with more than one segment it stays under the maximum unless its last one is short. */
  lemma {:induction false} OutputsBounded(runs: Runs, o: Settings, i: nat)
    requires IsMerge(runs, o) && i < |Output(runs, o)|
    ensures IsRun(RunAt(runs, o, i), o) && Output(runs, o)[i] == Fuse(RunAt(runs, o, i), o.strip)
    ensures |RunAt(runs, o, i)| > 1 ==>
      Duration(Output(runs, o)[i]) < o.maxDuration || Duration(Last(RunAt(runs, o, i))) < o.minDuration
  {
    if i < |Output(runs, o)| - 1 {
      OutputsBounded(runs.before, o, i);
    } else if |runs.run| > 1 {
      RunBounded(runs.run, o);
    }
  }

  /** On time-ordered input the outputs are ordered and disjoint. */
  lemma {:induction false} OrderedOutputs(runs: Runs, o: Settings)
    requires IsMerge(runs, o) && TimeOrdered(Input(runs))
    ensures TimeOrdered(Output(runs, o))
    ensures runs.Then? ==> runs.run != [] && Last(Output(runs, o)).end == Last(runs.run).end
  {
    if runs.Then? {
      var out := Fuse(runs.run, o.strip);
      TimeOrderedParts(Input(runs.before), runs.run);
      RunSpan(runs.run);
      OrderedOutputs(runs.before, o);
      if runs.before.Then? {
        assert Last(runs.before.run) in Input(runs.before);
        AppendOrdered(Output(runs.before, o), out);
      }
    }
  }

  /** And all but the first last long enough: a run starts with a segment that did not join. */
  lemma {:induction false} LongOutputs(runs: Runs, o: Settings)
    requires IsMerge(runs, o) && TimeOrdered(Input(runs))
    ensures forall i :: 1 <= i < |Output(runs, o)| ==> Duration(Output(runs, o)[i]) >= o.minDuration
  {
    if runs.Then? {
      TimeOrderedParts(Input(runs.before), runs.run);
      RunSpan(runs.run);
      LongOutputs(runs.before, o);
    }
  }

  /** The same, for whatever `MergeShortSegments` returns. */
  lemma {:induction false} MergedKeepsText(segments: seq<Segment>, o: Settings, merged: seq<Segment>)
    requires IsMerged(segments, o, merged)
    ensures Join(OutputTexts(merged)) == Join(Texts(segments, o.strip))
  {
    var runs :| IsMerge(runs, o) && Input(runs) == segments && Output(runs, o) == merged;
    TextPreserved(runs, o);
  }

  lemma {:induction false} MergedInTime(segments: seq<Segment>, o: Settings, merged: seq<Segment>)
    requires IsMerged(segments, o, merged) && TimeOrdered(segments)
    ensures TimeOrdered(merged)
    ensures forall i :: 1 <= i < |merged| ==> Duration(merged[i]) >= o.minDuration
  {
    var runs :| IsMerge(runs, o) && Input(runs) == segments && Output(runs, o) == merged;
    OrderedOutputs(runs, o);
    LongOutputs(runs, o);
  }

  lemma AppendOrdered(s: seq<Segment>, x: Segment)
    requires s != [] && TimeOrdered(s) && x.start <= x.end && Last(s).end <= x.start
    ensures TimeOrdered(s + [x])
  {
    forall i | 0 <= i < |s| ensures s[i].end <= x.start {
      if i < |s| - 1 { assert s[i].end <= s[|s| - 1].start <= s[|s| - 1].end; }
    }
  }
}
