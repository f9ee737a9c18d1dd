/** The burst detector: cadence-matched scores by running sums, and peak picking.
    Powers are real numbers; `ons` and `offs` are counts of 10 ms windows. */
module Detector {

  const WINDOW_MS := 10

  function Sum(p: seq<real>, a: nat, b: nat): real
    requires a <= b <= |p|
  {
    if a == b then 0.0 else Sum(p, a, b - 1) + p[b - 1]
  }

  lemma {:induction false} SumSplits(p: seq<real>, a: nat, b: nat, c: nat)
    requires a <= b <= c <= |p|
    ensures Sum(p, a, c) == Sum(p, a, b) + Sum(p, b, c)
  {
    if b < c {
      SumSplits(p, a, b, c - 1);
    }
  }

  lemma SumOne(p: seq<real>, a: nat)
    requires a < |p|
    ensures Sum(p, a, a + 1) == p[a]
  {}

  /** The powers, silence appended so that the last burst has its off windows. */
  function Padded(powers: seq<real>, period: nat): seq<real>
    requires period >= 1
  {
    powers + seq(period - 1, _ => 0.0)
  }

  /** Mean power of the on windows less mean power of the off windows. */
  function Score(p: seq<real>, ons: nat, offs: nat, i: nat): real
    requires 1 <= ons && 1 <= offs && i + ons + offs <= |p|
  {
    Sum(p, i, i + ons) * (1.0 / ons as real) + Sum(p, i + ons, i + ons + offs) * (-1.0 / offs as real)
  }

  function Scores(powers: seq<real>, ons: nat, offs: nat): (s: seq<real>)
    requires 1 <= ons && 1 <= offs
    ensures |s| == |powers|
  {
    seq(|powers|, i requires 0 <= i < |powers| => Score(Padded(powers, ons + offs), ons, offs, i))
  }

  /** Where a climb from i ends: the first index whose successor is no higher. */
  function Climb(s: seq<real>, i: nat): (p: nat)
    requires i < |s|
    ensures i <= p < |s|
    ensures forall k :: i <= k < p ==> s[k] < s[k + 1]
    ensures p + 1 < |s| ==> s[p + 1] <= s[p]
    decreases |s| - i
  {
    if i + 1 < |s| && s[i + 1] > s[i] then Climb(s, i + 1) else i
  }

  function Peaks(s: seq<real>, thresh: real, period: nat, i: nat): seq<nat>
    requires period >= 1
    decreases |s| - i
  {
    if i >= |s| then [] else
    if s[i] > thresh then [Climb(s, i)] + Peaks(s, thresh, period, Climb(s, i) + period)
    else Peaks(s, thresh, period, i + 1)
  }

  ghost predicate IsMax(s: seq<real>, m: real) {
    m in s && forall k :: 0 <= k < |s| ==> s[k] <= m
  }

  function MaxOf(s: seq<real>): (m: real)
    requires s != []
    ensures IsMax(s, m)
  {
    if |s| == 1 then s[0] else
      var rest := MaxOf(s[1..]);
      if s[0] >= rest then s[0] else rest
  }

  /** Burst onsets, as window numbers. */
  function Detected(powers: seq<real>, ons: nat, offs: nat): seq<nat>
    requires 1 <= ons && 1 <= offs
  {
    if |powers| < ons + offs then [] else
      var s := Scores(powers, ons, offs);
      if MaxOf(s) <= 0.0 then [] else Peaks(s, MaxOf(s) * 0.25, ons + offs, 0)
  }

  // ---------------------------------------------------------- the program

  /** The running sums are the window sums: each score is the direct one. */
  method ComputeScores(powers: seq<real>, ons: nat, offs: nat) returns (scores: seq<real>)
    requires 1 <= ons && 1 <= offs && ons + offs <= |powers|
    ensures scores == Scores(powers, ons, offs)
  {
    hide Sum;
    var period := ons + offs;
    var padded := Padded(powers, period);
    var coefOn, coefOff := 1.0 / ons as real, -1.0 / offs as real;
    var onSum := AddUp(padded, 0, ons);
    var offSum := AddUp(padded, ons, period);
    scores := [onSum * coefOn + offSum * coefOff];
    for i := 1 to |padded| - period + 1
      invariant |scores| == i
      invariant onSum == Sum(padded, i - 1, i - 1 + ons) && offSum == Sum(padded, i - 1 + ons, i - 1 + period)
      invariant forall k :: 0 <= k < i ==> scores[k] == Score(padded, ons, offs, k)
    {
      Slide(padded, i - 1, i - 1 + ons);
      Slide(padded, i - 1 + ons, i - 1 + period);
      onSum := onSum + (padded[i + ons - 1] - padded[i - 1]);
      offSum := offSum + (padded[i + period - 1] - padded[i + ons - 1]);
      scores := scores + [onSum * coefOn + offSum * coefOff];
    }
  }

  method AddUp(p: seq<real>, a: nat, b: nat) returns (total: real)
    requires a <= b <= |p|
    ensures total == Sum(p, a, b)
  {
    total := 0.0;
    for i := a to b
      invariant total == Sum(p, a, i)
    {
      total := total + p[i];
    }
  }

  lemma Slide(p: seq<real>, a: nat, b: nat)
    requires a <= b < |p|
    ensures Sum(p, a + 1, b + 1) == Sum(p, a, b) + (p[b] - p[a])
  {
    SumSplits(p, a, a + 1, b + 1);
    SumOne(p, a);
  }

  method ClimbUp(scores: seq<real>, i: nat) returns (peak: nat)
    requires i < |scores|
    ensures peak == Climb(scores, i)
  {
    peak := i;
    while peak + 1 < |scores| && scores[peak + 1] > scores[peak]
      invariant i <= peak < |scores| && Climb(scores, peak) == Climb(scores, i)
    {
      peak := peak + 1;
    }
  }

  lemma NextPeak(s: seq<real>, thresh: real, period: nat, i: nat, found: seq<nat>)
    requires period >= 1 && i < |s|
    ensures s[i] > thresh ==>
      found + Peaks(s, thresh, period, i) == found + [Climb(s, i)] + Peaks(s, thresh, period, Climb(s, i) + period)
    ensures s[i] <= thresh ==> Peaks(s, thresh, period, i) == Peaks(s, thresh, period, i + 1)
  {
    if s[i] > thresh {
      var rest := Peaks(s, thresh, period, Climb(s, i) + period);
      assert found + ([Climb(s, i)] + rest) == found + [Climb(s, i)] + rest;
    }
  }

  method PickPeaks(scores: seq<real>, thresh: real, period: nat) returns (peaks: seq<nat>)
    requires period >= 1
    ensures peaks == Peaks(scores, thresh, period, 0)
  {
    peaks := [];
    var i := 0;
    assert [] + Peaks(scores, thresh, period, 0) == Peaks(scores, thresh, period, 0);
    while i < |scores|
      invariant 0 <= i && peaks + Peaks(scores, thresh, period, i) == Peaks(scores, thresh, period, 0)
      decreases |scores| - i
    {
      hide Peaks, Climb;
      NextPeak(scores, thresh, period, i, peaks);
      if scores[i] > thresh {
        var peak := ClimbUp(scores, i);
        peaks := peaks + [peak];
        i := peak + period;
      } else {
        i := i + 1;
      }
    }
    assert peaks + [] == peaks;
  }

  lemma DetectedCases(powers: seq<real>, ons: nat, offs: nat)
    requires 1 <= ons && 1 <= offs
    ensures |powers| < ons + offs ==> Detected(powers, ons, offs) == []
    ensures |powers| >= ons + offs ==>
      var s := Scores(powers, ons, offs);
      Detected(powers, ons, offs) == if MaxOf(s) <= 0.0 then [] else Peaks(s, MaxOf(s) * 0.25, ons + offs, 0)
  {
    hide Scores, Peaks, MaxOf;
  }

  method DetectBursts(powers: seq<real>, ons: nat, offs: nat) returns (onsets: seq<int>)
    requires 1 <= ons && 1 <= offs
    ensures onsets == InMs(Detected(powers, ons, offs))
  {
    hide Detected, Scores, Peaks, MaxOf, IsMax, InMs;
    DetectedCases(powers, ons, offs);
    if |powers| < ons + offs {
      return [];
    }
    var scores := ComputeScores(powers, ons, offs);
    var maxScore := MaxOf(scores);
    if maxScore <= 0.0 {
      return [];
    }
    var peaks := PickPeaks(scores, maxScore * 0.25, ons + offs);
    onsets := InMs(peaks);
  }

  function InMs(windows: seq<nat>): (ms: seq<int>)
    ensures |ms| == |windows|
  {
    seq(|windows|, i requires 0 <= i < |windows| => windows[i] * WINDOW_MS)
  }

  // ---------------------------------------------------------- every input

  /** Window i is covered by peak p: within a period after it, or on the climb to it. */
  ghost predicate Covers(s: seq<real>, period: nat, p: nat, i: nat)
    requires i < |s| && p < |s|
  {
    p <= i < p + period || (i < p && forall k :: i <= k < p ==> s[k] < s[k + 1])
  }

  ghost predicate Covered(s: seq<real>, period: nat, peaks: seq<nat>, i: nat)
    requires i < |s|
  {
    exists k :: 0 <= k < |peaks| && peaks[k] < |s| && Covers(s, period, peaks[k], i)
  }

  ghost predicate SpacedFrom(s: seq<real>, thresh: real, period: nat, i: nat, peaks: seq<nat>) {
    && (forall k :: 0 <= k < |peaks| ==> i <= peaks[k] < |s| && s[peaks[k]] > thresh)
    && (forall k :: 0 < k < |peaks| ==> peaks[k - 1] + period <= peaks[k])
  }

  lemma PeakBefore(s: seq<real>, thresh: real, period: nat, i: nat, p: nat, rest: seq<nat>)
    requires SpacedFrom(s, thresh, period, p + period, rest) && i <= p < |s| && s[p] > thresh
    ensures SpacedFrom(s, thresh, period, i, [p] + rest)
  {
    var peaks := [p] + rest;
    forall k | 0 < k < |peaks|
      ensures peaks[k - 1] + period <= peaks[k]
    {
      assert peaks[k] == rest[k - 1];
      assert k > 1 ==> peaks[k - 1] == rest[k - 2];
    }
  }

  /** Detected peaks are above the threshold and at least one period apart. */
  lemma {:induction false} PeaksSpaced(s: seq<real>, thresh: real, period: nat, i: nat)
    requires period >= 1
    ensures SpacedFrom(s, thresh, period, i, Peaks(s, thresh, period, i))
    decreases |s| - i
  {
    if i < |s| {
      if s[i] > thresh {
        var p := Climb(s, i);
        PeaksSpaced(s, thresh, period, p + period);
        ClimbRises(s, i, p);
        PeakBefore(s, thresh, period, i, p, Peaks(s, thresh, period, p + period));
      } else {
        PeaksSpaced(s, thresh, period, i + 1);
      }
    }
  }

  /** Between them they cover every window above the threshold. */
  lemma {:induction false} PeaksCover(s: seq<real>, thresh: real, period: nat, i: nat, j: nat)
    requires period >= 1 && i <= j < |s| && s[j] > thresh
    ensures Covered(s, period, Peaks(s, thresh, period, i), j)
    decreases |s| - i
  {
    var peaks := Peaks(s, thresh, period, i);
    if s[i] > thresh {
      var p := Climb(s, i);
      if j < p + period {
        assert peaks[0] == p && Covers(s, period, p, j);
      } else {
        var rest := Peaks(s, thresh, period, p + period);
        PeaksCover(s, thresh, period, p + period, j);
        var k :| 0 <= k < |rest| && rest[k] < |s| && Covers(s, period, rest[k], j);
        assert peaks[k + 1] == rest[k];
      }
    } else {
      PeaksCover(s, thresh, period, i + 1, j);
    }
  }

  lemma {:induction false} ClimbRises(s: seq<real>, i: nat, p: nat)
    requires i <= p < |s| && forall k :: i <= k < p ==> s[k] < s[k + 1]
    ensures s[i] <= s[p]
    decreases p - i
  {
    if i < p {
      ClimbRises(s, i + 1, p);
    }
  }

  /** Of a recording long enough, every peak scores more than a quarter of the greatest
      score, and every window that does is covered by a peak; and nothing is found if and
      only if no score is positive. */
  lemma DetectedMeans(powers: seq<real>, ons: nat, offs: nat, top: real)
    requires 1 <= ons && 1 <= offs && ons + offs <= |powers| && IsMax(Scores(powers, ons, offs), top)
    ensures var s, found := Scores(powers, ons, offs), Detected(powers, ons, offs);
      && (found == [] <==> top <= 0.0)
      && (forall k :: 0 <= k < |found| ==> found[k] < |powers| && 4.0 * s[found[k]] > top)
      && (forall k :: 0 < k < |found| ==> found[k - 1] + ons + offs <= found[k])
      && (top > 0.0 ==> forall j :: 0 <= j < |s| && 4.0 * s[j] > top ==> Covered(s, ons + offs, found, j))
  {
    hide Scores, Peaks, Covered;
    var s, period := Scores(powers, ons, offs), ons + offs;
    DetectedCases(powers, ons, offs);
    if top > 0.0 {
      PeaksSpaced(s, top * 0.25, period, 0);
      forall j | 0 <= j < |s| && 4.0 * s[j] > top
        ensures Covered(s, period, Detected(powers, ons, offs), j)
      {
        PeaksCover(s, top * 0.25, period, 0, j);
      }
      var best :| 0 <= best < |s| && s[best] == top;
      CoveredByOne(s, period, Detected(powers, ons, offs), best);
    }
  }

  lemma CoveredByOne(s: seq<real>, period: nat, peaks: seq<nat>, i: nat)
    requires i < |s| && (4.0 * s[i] > s[i] ==> Covered(s, period, peaks, i)) && s[i] > 0.0
    ensures peaks != []
  {}

  lemma {:induction false} SumMoves(p: seq<real>, a: nat, b: nat, j: nat, d: real)
    requires a <= b <= |p| && j < |p|
    ensures Sum(p[j := p[j] + d], a, b) == Sum(p, a, b) + if a <= j < b then d else 0.0
  {
    if a < b {
      SumMoves(p, a, b - 1, j, d);
    }
  }

  /** One window louder by d raises the scores it is on in by d / ons, lowers those it is
      off in by d / offs, and leaves the others alone. */
  lemma ScoreMoves(p: seq<real>, ons: nat, offs: nat, i: nat, j: nat, d: real)
    requires 1 <= ons && 1 <= offs && i + ons + offs <= |p| && j < |p|
    ensures Score(p[j := p[j] + d], ons, offs, i) == Score(p, ons, offs, i)
      + if i <= j < i + ons then d / ons as real else if i + ons <= j < i + ons + offs then -d / offs as real else 0.0
  {
    hide Sum;
    SumMoves(p, i, i + ons, j, d);
    SumMoves(p, i + ons, i + ons + offs, j, d);
    Share(Sum(p, i, i + ons), d, ons);
    Share(Sum(p, i + ons, i + ons + offs), d, offs);
  }

  lemma Share(a: real, d: real, n: nat)
    requires n >= 1
    ensures (a + d) * (1.0 / n as real) == a * (1.0 / n as real) + d / n as real
    ensures (a + d) * (-1.0 / n as real) == a * (-1.0 / n as real) - d / n as real
    ensures -d / n as real == -(d / n as real)
  {
    var x := 1.0 / n as real;
    assert d / n as real == d * x;
    assert -1.0 / n as real == -x;
    assert (a + d) * x == a * x + d * x;
    assert (a + d) * -x == -((a + d) * x) && a * -x == -(a * x);
    assert -d / n as real == -d * x;
  }
}
