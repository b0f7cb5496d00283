/** The timeline bucketizer: logs are cut into step-sized segments, the
    segment sizes are summed per bucket of a fixed-width window, and each
    bucket sum is classified against thirds of the bucket width into one
    of four square symbols. Also the default window of a set of logs and
    the legend caption. */
module Timeline {
  import opened Types
  import opened Text
  import opened Utils

  // ---------------------------------------------------------------------
  // createInterval and inInterval

  /** The values the generator `createInterval([start, end], step)`
      yields: `start, start + step, ...`, every one below `end`. */
  function Steps(start: int, end: int, step: int): (r: seq<int>)
    requires step > 0
    ensures forall i :: 0 <= i < |r| ==> r[i] == start + i * step && r[i] < end
    ensures start < end ==> start + |r| * step >= end
    ensures start >= end ==> r == []
    decreases end - start
  {
    if start < end then [start] + Steps(start + step, end, step) else []
  }

  /** The generator's loop: `for (let i = start; i < end; i += step)
      yield i`, collecting what it yields. */
  method CreateInterval(start: int, end: int, step: int) returns (r: seq<int>)
    requires step > 0
    ensures r == Steps(start, end, step)
  {
    r := [];
    var i := start;
    while i < end
      invariant r + Steps(i, end, step) == Steps(start, end, step)
      decreases end - i
    {
      assert Steps(i, end, step) == [i] + Steps(i + step, end, step);
      r := r + [i];
      i := i + step;
    }
  }

  /** The yielded values rise strictly and stop at the first one that
      would reach `end`; nothing is yielded for an empty range. */
  lemma StepsShape(start: int, end: int, step: int)
    requires step > 0
    ensures forall i, j :: 0 <= i < j < |Steps(start, end, step)| ==>
      Steps(start, end, step)[i] < Steps(start, end, step)[j]
    ensures |Steps(start, end, step)| == 0 <==> start >= end
    ensures Steps(start, end, step) != [] ==>
      Steps(start, end, step)[|Steps(start, end, step)| - 1] + step >= end
  {
    var r := Steps(start, end, step);
    forall i, j | 0 <= i < j < |r| ensures r[i] < r[j] {
      MulMonotone(i, j, step);
    }
    if r != [] {
      var n := |r|;
      MulSucc(n, step);
    }
  }

  lemma MulMonotone(i: int, j: int, step: int)
    requires i < j && step > 0
    ensures i * step < j * step
  {
    assert j * step - i * step == (j - i) * step;
  }

  lemma MulSucc(n: int, step: int)
    ensures (n - 1) * step + step == n * step
  {
  }

  /** `inInterval(value, [start, end])`: both ends included. */
  predicate InInterval(value: int, iv: Interval) {
    iv.start <= value <= iv.end
  }

  // ---------------------------------------------------------------------
  // segments

  /** A piece of a log: where it starts and how many milliseconds it
      covers. */
  datatype Segment = Segment(start: int, size: int)

  function Min(a: int, b: int): int {
    if a <= b then a else b
  }

  /** One segment per yielded start, each as long as a step or as what is
      left of the log, whichever is shorter. */
  function SegmentsAt(starts: seq<int>, end: int, intervalMs: int): (r: seq<Segment>)
    ensures |r| == |starts|
  {
    if starts == [] then []
    else [Segment(starts[0], Min(intervalMs, end - starts[0]))] + SegmentsAt(starts[1..], end, intervalMs)
  }

  /** The segments of one log. */
  function LogSegments(interval: Interval, intervalMs: int): seq<Segment>
    requires intervalMs > 0
  {
    SegmentsAt(Steps(interval.start, interval.end, intervalMs), interval.end, intervalMs)
  }

  /** `logs.flatMap(...)`: the segments of every log, log by log. */
  function AllSegments(logs: seq<Log>, intervalMs: int): seq<Segment>
    requires intervalMs > 0
  {
    if logs == [] then [] else LogSegments(logs[0].interval, intervalMs) + AllSegments(logs[1..], intervalMs)
  }

  function Sizes(segments: seq<Segment>): (r: seq<int>)
    ensures |r| == |segments|
  {
    if segments == [] then [] else [segments[0].size] + Sizes(segments[1..])
  }

  /** A log is cut into segments starting `intervalMs` apart from the log's
      own start; each is longer than zero and at most a step long, and
      together they cover exactly the log (a log whose end does not follow
      its start has no segment). */
  lemma {:induction false} LogSegmentsCover(interval: Interval, intervalMs: int)
    requires intervalMs > 0
    ensures var segs := LogSegments(interval, intervalMs);
      (forall k :: 0 <= k < |segs| ==>
         segs[k].start == interval.start + k * intervalMs && 0 < segs[k].size <= intervalMs)
      && Sum(Sizes(segs)) == (if interval.start < interval.end then interval.end - interval.start else 0)
    decreases interval.end - interval.start
  {
    var a, b := interval.start, interval.end;
    var segs := LogSegments(interval, intervalMs);
    if a < b {
      var next := Interval(a + intervalMs, b);
      LogSegmentsCover(next, intervalMs);
      var rest := LogSegments(next, intervalMs);
      assert Steps(a, b, intervalMs) == [a] + Steps(a + intervalMs, b, intervalMs);
      assert ([a] + Steps(a + intervalMs, b, intervalMs))[1..] == Steps(a + intervalMs, b, intervalMs);
      assert segs == [Segment(a, Min(intervalMs, b - a))] + rest;
      assert ([Segment(a, Min(intervalMs, b - a))] + rest)[1..] == rest;
      forall k | 0 <= k < |segs|
        ensures segs[k].start == a + k * intervalMs && 0 < segs[k].size <= intervalMs
      {
        if k > 0 {
          assert segs[k] == rest[k - 1];
          assert a + intervalMs + (k - 1) * intervalMs == a + k * intervalMs;
        }
      }
    }
  }

  // ---------------------------------------------------------------------
  // classification and the timeline

  const White: char := '\U{2B1C}'
  const Yellow: char := '\U{1F7E8}'
  const Orange: char := '\U{1F7E7}'
  const Red: char := '\U{1F7E5}'

  /** The symbol for a bucket whose segments sum to `sumMs`, compared, as
      the source does, with `thirdPartMs = intervalMs / 3`. */
  function Classify(sumMs: int, intervalMs: int): char {
    var thirdPartMs := intervalMs as real / 3.0;
    if sumMs as real > thirdPartMs * 2.0 then Red
    else if sumMs as real > thirdPartMs then Orange
    else if sumMs > 0 then Yellow
    else White
  }

  /** The comparisons against thirds are integer-exact. */
  lemma ClassifyExact(sumMs: int, intervalMs: int)
    requires intervalMs > 0
    ensures Classify(sumMs, intervalMs) == Red <==> 3 * sumMs > 2 * intervalMs
    ensures Classify(sumMs, intervalMs) == Orange <==> intervalMs < 3 * sumMs <= 2 * intervalMs
    ensures Classify(sumMs, intervalMs) == Yellow <==> 0 < sumMs && 3 * sumMs <= intervalMs
    ensures Classify(sumMs, intervalMs) == White <==> sumMs <= 0
  {
    var thirdPartMs := intervalMs as real / 3.0;
    assert sumMs as real > thirdPartMs * 2.0 <==> 3 * sumMs > 2 * intervalMs;
    assert sumMs as real > thirdPartMs <==> 3 * sumMs > intervalMs;
  }

  /** The four symbols in increasing order of activity. */
  function Rank(c: char): int {
    if c == White then 0 else if c == Yellow then 1 else if c == Orange then 2 else 3
  }

  /** More activity in a bucket never shows a lower symbol. */
  lemma ClassifyMonotone(s1: int, s2: int, intervalMs: int)
    requires intervalMs > 0 && s1 <= s2
    ensures Rank(Classify(s1, intervalMs)) <= Rank(Classify(s2, intervalMs))
  {
    ClassifyExact(s1, intervalMs);
    ClassifyExact(s2, intervalMs);
  }

  /** The window of bucket `i`: `[c0 + i * intervalMs, c0 + (i + 1) * intervalMs]`. */
  function Window(c0: int, i: int, intervalMs: int): Interval {
    Interval(c0 + i * intervalMs, c0 + i * intervalMs + intervalMs)
  }

  /** `intervals.filter(({ start }) => inInterval(start, interval))`. */
  function StartingIn(segments: seq<Segment>, iv: Interval): seq<Segment> {
    if segments == [] then []
    else (if InInterval(segments[0].start, iv) then [segments[0]] else []) + StartingIn(segments[1..], iv)
  }

  /** The milliseconds a bucket is credited with. */
  function BucketSum(segments: seq<Segment>, iv: Interval): int {
    Sum(Sizes(StartingIn(segments, iv)))
  }

  /** The symbols for the buckets named by `indices`, joined. */
  function Blocks(indices: seq<int>, c0: int, segments: seq<Segment>, intervalMs: int): (r: string)
    ensures |r| == |indices|
  {
    if indices == [] then []
    else
      [Classify(BucketSum(segments, Window(c0, indices[0], intervalMs)), intervalMs)]
      + Blocks(indices[1..], c0, segments, intervalMs)
  }

  /** `logsTimeline({ constraints, logs, intervalMinutes, timelineLength })`. */
  function LogsTimeline(constraints: Interval, logs: seq<Log>, intervalMinutes: nat, timelineLength: nat): string
    requires intervalMinutes > 0
  {
    var intervalMs := 1000 * 60 * intervalMinutes;
    Blocks(Steps(0, timelineLength, 1), constraints.start, AllSegments(logs, intervalMs), intervalMs)
  }

  lemma {:induction false} BlocksAt(indices: seq<int>, c0: int, segments: seq<Segment>, intervalMs: int, k: int)
    requires 0 <= k < |indices|
    ensures Blocks(indices, c0, segments, intervalMs)[k]
      == Classify(BucketSum(segments, Window(c0, indices[k], intervalMs)), intervalMs)
  {
    if k > 0 {
      BlocksAt(indices[1..], c0, segments, intervalMs, k - 1);
    }
  }

  /** The timeline has exactly `timelineLength` symbols, and symbol `i`
      classifies what the segments starting inside window `i` (both ends
      included) add up to. */
  lemma TimelineShape(constraints: Interval, logs: seq<Log>, intervalMinutes: nat, timelineLength: nat)
    requires intervalMinutes > 0
    ensures var r := LogsTimeline(constraints, logs, intervalMinutes, timelineLength);
      var intervalMs := 60000 * intervalMinutes;
      |r| == timelineLength
      && forall i :: 0 <= i < timelineLength ==>
           r[i] == Classify(BucketSum(AllSegments(logs, intervalMs), Window(constraints.start, i, intervalMs)), intervalMs)
           && r[i] in {White, Yellow, Orange, Red}
  {
    var intervalMs := 60000 * intervalMinutes;
    var idx := Steps(0, timelineLength, 1);
    var r := LogsTimeline(constraints, logs, intervalMinutes, timelineLength);
    if |idx| > 0 {
      assert idx[|idx| - 1] == |idx| - 1;
    }
    assert |idx| == timelineLength;
    forall i | 0 <= i < timelineLength
      ensures r[i] == Classify(BucketSum(AllSegments(logs, intervalMs), Window(constraints.start, i, intervalMs)), intervalMs)
    {
      BlocksAt(idx, constraints.start, AllSegments(logs, intervalMs), intervalMs, i);
    }
  }

  /** Without logs every bucket is empty. */
  lemma TimelineWithoutLogs(constraints: Interval, intervalMinutes: nat, timelineLength: nat)
    requires intervalMinutes > 0
    ensures forall i :: 0 <= i < timelineLength ==>
      LogsTimeline(constraints, [], intervalMinutes, timelineLength)[i] == White
  {
    TimelineShape(constraints, [], intervalMinutes, timelineLength);
  }

  /** A log filling the first of two buckets exactly shows that bucket at
      the highest level and the second as empty. */
  lemma TimelineOneFullBucket(slug: Slug, name: string, intervalMinutes: nat)
    requires intervalMinutes > 0
    ensures var ms := 60000 * intervalMinutes;
      LogsTimeline(Interval(0, 2 * ms), [Log(slug, Interval(0, ms), name)], intervalMinutes, 2) == [Red, White]
  {
    var ms := 60000 * intervalMinutes;
    var logs := [Log(slug, Interval(0, ms), name)];
    var segs := AllSegments(logs, ms);
    assert Steps(ms, ms, ms) == [];
    assert Steps(0, ms, ms) == [0];
    assert [0][1..] == [];
    assert LogSegments(Interval(0, ms), ms) == [Segment(0, ms)];
    assert logs[1..] == [];
    assert AllSegments(logs[1..], ms) == [];
    assert segs == LogSegments(Interval(0, ms), ms) + [];
    assert segs == [Segment(0, ms)];
    assert segs[1..] == [];
    assert StartingIn(segs, Window(0, 0, ms)) == segs;
    assert StartingIn(segs, Window(0, 1, ms)) == [];
    assert Sizes(segs) == [ms];
    assert Sum([ms]) == ms by { assert [ms][1..] == []; }
    assert BucketSum(segs, Window(0, 0, ms)) == ms;
    assert BucketSum(segs, Window(0, 1, ms)) == 0;
    TimelineShape(Interval(0, 2 * ms), logs, intervalMinutes, 2);
    ClassifyExact(ms, ms);
    ClassifyExact(0, ms);
  }

  /** Windows share their end points, so a segment that starts exactly on a
      boundary is credited to both buckets: one step of activity beginning
      at the end of the first bucket shows two full buckets. */
  lemma TimelineBoundaryCountedTwice(slug: Slug, name: string, intervalMinutes: nat)
    requires intervalMinutes > 0
    ensures var ms := 60000 * intervalMinutes;
      LogsTimeline(Interval(0, 2 * ms), [Log(slug, Interval(ms, 2 * ms), name)], intervalMinutes, 2) == [Red, Red]
  {
    var ms := 60000 * intervalMinutes;
    var logs := [Log(slug, Interval(ms, 2 * ms), name)];
    var segs := AllSegments(logs, ms);
    assert Steps(2 * ms, 2 * ms, ms) == [];
    assert Steps(ms, 2 * ms, ms) == [ms];
    assert [ms][1..] == [];
    assert LogSegments(Interval(ms, 2 * ms), ms) == [Segment(ms, ms)];
    assert logs[1..] == [];
    assert AllSegments(logs[1..], ms) == [];
    assert segs == LogSegments(Interval(ms, 2 * ms), ms) + [];
    assert segs == [Segment(ms, ms)];
    assert segs[1..] == [];
    assert StartingIn(segs, Window(0, 0, ms)) == segs;
    assert StartingIn(segs, Window(0, 1, ms)) == segs;
    assert Sizes(segs) == [ms];
    assert Sum([ms]) == ms by { assert [ms][1..] == []; }
    assert BucketSum(segs, Window(0, 0, ms)) == ms;
    assert BucketSum(segs, Window(0, 1, ms)) == ms;
    TimelineShape(Interval(0, 2 * ms), logs, intervalMinutes, 2);
    ClassifyExact(ms, ms);
  }

  // ---------------------------------------------------------------------
  // getLegend

  /** The two minute values the legend prints: `Math.floor(m / 3)` and
      `Math.floor(m / 3 * 2)`. */
  function LegendThresholds(intervalMinutes: nat): (nat, nat) {
    var thirdPartM := intervalMinutes as real / 3.0;
    FloorOfQuotient(intervalMinutes, 3);
    FloorOfQuotient(2 * intervalMinutes, 3);
    assert thirdPartM * 2.0 == (2 * intervalMinutes) as real / 3.0;
    (thirdPartM.Floor, (thirdPartM * 2.0).Floor)
  }

  /** `getLegend(intervalMinutes)`. */
  function GetLegend(intervalMinutes: nat): string {
    var (third, twoThirds) := LegendThresholds(intervalMinutes);
    "Legend: " + [White] + " 0m"
    + " < " + [Yellow] + " < " + NatToString(third) + "m"
    + " < " + [Orange] + " < " + NatToString(twoThirds) + "m"
    + " < " + [Red] + " < " + NatToString(intervalMinutes) + "m"
  }

  /** The legend's numbers are the whole-minute boundaries the classifier
      uses: a bucket holding `k` whole minutes shows yellow up to the first
      number, orange up to the second, and red beyond it. */
  lemma LegendMatchesClassify(intervalMinutes: nat, k: nat)
    requires intervalMinutes > 0
    ensures var (third, twoThirds) := LegendThresholds(intervalMinutes);
      var c := Classify(60000 * k, 60000 * intervalMinutes);
      third == intervalMinutes / 3 && twoThirds == 2 * intervalMinutes / 3
      && (c == White <==> k == 0)
      && (c == Yellow <==> 0 < k <= third)
      && (c == Orange <==> third < k <= twoThirds)
      && (c == Red <==> twoThirds < k)
  {
    var m := intervalMinutes;
    ClassifyExact(60000 * k, 60000 * m);
    assert 3 * (60000 * k) > 2 * (60000 * m) <==> 3 * k > 2 * m;
    assert 3 * (60000 * k) > 60000 * m <==> 3 * k > m;
    assert 3 * k > m <==> k > m / 3;
    assert 3 * k > 2 * m <==> k > 2 * m / 3;
  }

  // ---------------------------------------------------------------------
  // getLogsConstraints

  /** `projects.map((e) => e.startedAt).filter(Boolean)`. */
  function TruthyStartedAts(projects: seq<Project>): (r: seq<int>)
    ensures forall j :: 0 <= j < |projects| && Truthy(projects[j].startedAt) ==> projects[j].startedAt.value in r
    ensures forall x :: x in r ==> exists j :: 0 <= j < |projects| && Truthy(projects[j].startedAt) && projects[j].startedAt.value == x
    ensures r == [] <==> forall j :: 0 <= j < |projects| ==> !Truthy(projects[j].startedAt)
  {
    if projects == [] then []
    else
      var rest := TruthyStartedAts(projects[1..]);
      assert forall j :: 1 <= j < |projects| ==> projects[j] == projects[1..][j - 1];
      (if Truthy(projects[0].startedAt) then [projects[0].startedAt.value] else []) + rest
  }

  function LogStarts(logs: seq<Log>): (r: seq<int>)
    ensures |r| == |logs| && forall i :: 0 <= i < |logs| ==> r[i] == logs[i].interval.start
  {
    if logs == [] then [] else [logs[0].interval.start] + LogStarts(logs[1..])
  }

  function LogEnds(logs: seq<Log>): (r: seq<int>)
    ensures |r| == |logs| && forall i :: 0 <= i < |logs| ==> r[i] == logs[i].interval.end
  {
    if logs == [] then [] else [logs[0].interval.end] + LogEnds(logs[1..])
  }

  /** `Math.min(...xs)` on a non-empty list. */
  function MinOf(xs: seq<int>): (m: int)
    requires xs != []
    ensures m in xs && forall i :: 0 <= i < |xs| ==> m <= xs[i]
  {
    if |xs| == 1 then xs[0]
    else
      var rest := MinOf(xs[1..]);
      assert forall i :: 1 <= i < |xs| ==> xs[i] == xs[1..][i - 1];
      if xs[0] <= rest then xs[0] else rest
  }

  /** `Math.max(...xs)` on a non-empty list. */
  function MaxOf(xs: seq<int>): (m: int)
    requires xs != []
    ensures m in xs && forall i :: 0 <= i < |xs| ==> xs[i] <= m
  {
    if |xs| == 1 then xs[0]
    else
      var rest := MaxOf(xs[1..]);
      assert forall i :: 1 <= i < |xs| ==> xs[i] == xs[1..][i - 1];
      if xs[0] >= rest then xs[0] else rest
  }

  /** `getLogsConstraints(logs, projects)` with the clock reading `now`.
      The source takes the minimum and maximum of possibly empty lists and
      then yields `[Infinity, -Infinity]`; here that case is `None`. */
  function GetLogsConstraints(logs: seq<Log>, projects: seq<Project>, now: int): (r: Option<Interval>)
    ensures r.None? <==> logs == [] && forall j :: 0 <= j < |projects| ==> !Truthy(projects[j].startedAt)
    ensures r.Some? ==>
      (forall i :: 0 <= i < |logs| ==> r.value.start <= logs[i].interval.start && logs[i].interval.end <= r.value.end)
      && (forall j :: 0 <= j < |projects| && Truthy(projects[j].startedAt) ==>
            r.value.start <= projects[j].startedAt.value && now <= r.value.end)
    ensures r.Some? ==>
      ((exists i :: 0 <= i < |logs| && r.value.start == logs[i].interval.start)
       || (exists j :: 0 <= j < |projects| && Truthy(projects[j].startedAt) && r.value.start == projects[j].startedAt.value))
      && ((exists i :: 0 <= i < |logs| && r.value.end == logs[i].interval.end)
          || (r.value.end == now && exists j :: 0 <= j < |projects| && Truthy(projects[j].startedAt)))
  {
    var startedAts := TruthyStartedAts(projects);
    var starts := LogStarts(logs) + startedAts;
    if starts == [] then None
    else
      StartBound(logs, projects);
      EndBound(logs, projects, now);
      Some(Interval(MinOf(starts), MaxOf(LogEnds(logs) + EndedAts(projects, now))))
  }

  /** The "ended at" list the source builds: `now` once, if any project is
      running, and nothing otherwise. */
  function EndedAts(projects: seq<Project>, now: int): (r: seq<int>)
    ensures r == [] || r == [now]
    ensures r == [now] <==> exists j :: 0 <= j < |projects| && Truthy(projects[j].startedAt)
  {
    if |TruthyStartedAts(projects)| > 0 then [now] else []
  }

  /** The minimum of two concatenated lists lies in one of them and bounds
      both from below. */
  lemma MinOfConcat(a: seq<int>, b: seq<int>)
    requires a + b != []
    ensures var m := MinOf(a + b);
      (m in a || m in b) && (forall x :: x in a ==> m <= x) && (forall x :: x in b ==> m <= x)
  {
    var c := a + b;
    var m := MinOf(c);
    forall x | x in a ensures m <= x {
      var i :| 0 <= i < |a| && a[i] == x;
      assert c[i] == x;
    }
    forall x | x in b ensures m <= x {
      var i :| 0 <= i < |b| && b[i] == x;
      assert c[|a| + i] == x;
    }
  }

  /** The maximum of two concatenated lists lies in one of them and bounds
      both from above. */
  lemma MaxOfConcat(a: seq<int>, b: seq<int>)
    requires a + b != []
    ensures var m := MaxOf(a + b);
      (m in a || m in b) && (forall x :: x in a ==> x <= m) && (forall x :: x in b ==> x <= m)
  {
    var c := a + b;
    var m := MaxOf(c);
    forall x | x in a ensures x <= m {
      var i :| 0 <= i < |a| && a[i] == x;
      assert c[i] == x;
    }
    forall x | x in b ensures x <= m {
      var i :| 0 <= i < |b| && b[i] == x;
      assert c[|a| + i] == x;
    }
  }

  /** The window starts at the earliest log start or running project's
      start, and no earlier. */
  lemma StartBound(logs: seq<Log>, projects: seq<Project>)
    requires LogStarts(logs) + TruthyStartedAts(projects) != []
    ensures var m := MinOf(LogStarts(logs) + TruthyStartedAts(projects));
      (forall i :: 0 <= i < |logs| ==> m <= logs[i].interval.start)
      && (forall j :: 0 <= j < |projects| && Truthy(projects[j].startedAt) ==> m <= projects[j].startedAt.value)
      && ((exists i :: 0 <= i < |logs| && m == logs[i].interval.start)
          || (exists j :: 0 <= j < |projects| && Truthy(projects[j].startedAt) && m == projects[j].startedAt.value))
  {
    var a := LogStarts(logs);
    var b := TruthyStartedAts(projects);
    MinOfConcat(a, b);
    var m := MinOf(a + b);
    forall i | 0 <= i < |logs| ensures m <= logs[i].interval.start {
      assert a[i] in a;
    }
    if m in a {
      var i :| 0 <= i < |a| && a[i] == m;
      assert m == logs[i].interval.start;
    }
  }

  /** The window ends at the latest log end, or at `now` while a project
      runs, and no later. */
  lemma EndBound(logs: seq<Log>, projects: seq<Project>, now: int)
    requires logs != [] || TruthyStartedAts(projects) != []
    ensures var m := MaxOf(LogEnds(logs) + EndedAts(projects, now));
      (forall i :: 0 <= i < |logs| ==> logs[i].interval.end <= m)
      && ((exists j :: 0 <= j < |projects| && Truthy(projects[j].startedAt)) ==> now <= m)
      && ((exists i :: 0 <= i < |logs| && m == logs[i].interval.end)
          || (m == now && exists j :: 0 <= j < |projects| && Truthy(projects[j].startedAt)))
  {
    var a := LogEnds(logs);
    var b := EndedAts(projects, now);
    MaxOfConcat(a, b);
    var m := MaxOf(a + b);
    forall i | 0 <= i < |logs| ensures logs[i].interval.end <= m {
      assert a[i] in a;
    }
    if m in a {
      var i :| 0 <= i < |a| && a[i] == m;
      assert m == logs[i].interval.end;
    } else {
      assert b == [now];
    }
    if b == [now] {
      assert now in b;
    }
  }
}
