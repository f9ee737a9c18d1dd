/** The detector on an ideal recording: `lead` silent windows, m whole burst periods,
    any trailing silence.  It finds exactly the bursts. */
module IdealRecording {
  import opened FixedPoint
  import opened Detector

  datatype Cadence = Cadence(ons: nat, offs: nat) {
    predicate Valid() { 1 <= ons && 1 <= offs }
    function Period(): nat { ons + offs }
  }

  /** Power of window i, counted from the first burst. */
  function Level(c: Cadence, m: nat, power: real, i: int): real
    requires c.Valid()
  {
    if 0 <= i < m * c.Period() && i % c.Period() < c.ons then power else 0.0
  }

  function Recording(c: Cadence, m: nat, power: real, lead: nat, tail: nat): (p: seq<real>)
    requires c.Valid()
    ensures |p| == lead + m * c.Period() + tail
  {
    MulMonotone(0, m, c.Period());
    seq(lead + m * c.Period() + tail, i requires 0 <= i < lead + m * c.Period() + tail => Level(c, m, power, i - lead))
  }

  function Onset(c: Cadence, lead: nat, k: nat): nat
    ensures Onset(c, lead, k) >= lead
  {
    MulMonotone(0, k, c.Period());
    lead + k * c.Period()
  }

  // ---------------------------------------------------------- stretches

  ghost predicate Constant(p: seq<real>, a: nat, b: nat, v: real) {
    a <= b <= |p| && forall i :: a <= i < b ==> p[i] == v
  }

  lemma {:induction false} SumConstant(p: seq<real>, a: nat, b: nat, v: real)
    requires Constant(p, a, b, v)
    ensures Sum(p, a, b) == (b - a) as real * v
  {
    if a < b {
      SumConstant(p, a, b - 1, v);
      assert (b - a) as real * v == (b - 1 - a) as real * v + v;
    }
  }

  lemma {:induction false} SumWithin(p: seq<real>, a: nat, b: nat, v: real)
    requires a <= b <= |p| && forall i :: a <= i < b ==> 0.0 <= p[i] <= v
    ensures 0.0 <= Sum(p, a, b) <= (b - a) as real * v
  {
    if a < b {
      SumWithin(p, a, b - 1, v);
      assert (b - a) as real * v == (b - 1 - a) as real * v + v;
    }
  }

  /** What the detector needs to know of the padded powers. */
  ghost predicate Shaped(c: Cadence, m: nat, power: real, lead: nat, p: seq<real>) {
    && c.Valid() && power > 0.0 && Onset(c, lead, m) <= |p|
    && (forall i :: 0 <= i < |p| ==> 0.0 <= p[i] <= power)
    && Constant(p, 0, lead, 0.0) && Constant(p, Onset(c, lead, m), |p|, 0.0)
    && (forall k :: 0 <= k < m ==> BurstAt(c, power, p, Onset(c, lead, k)))
  }

  ghost predicate BurstAt(c: Cadence, power: real, p: seq<real>, i: nat) {
    Constant(p, i, i + c.ons, power) && Constant(p, i + c.ons, i + c.Period(), 0.0)
  }

  lemma OnsetNext(c: Cadence, lead: nat, k: nat)
    ensures Onset(c, lead, k + 1) == Onset(c, lead, k) + c.Period()
  {}

  lemma OnsetMonotone(c: Cadence, lead: nat, k: nat, l: nat)
    requires k <= l
    ensures Onset(c, lead, k) <= Onset(c, lead, l)
  {
    MulMonotone(k, l, c.Period());
  }

  lemma RecordingIsShaped(c: Cadence, m: nat, power: real, lead: nat, tail: nat)
    requires c.Valid() && power > 0.0
    ensures Shaped(c, m, power, lead, Padded(Recording(c, m, power, lead, tail), c.Period()))
  {
    var p := Padded(Recording(c, m, power, lead, tail), c.Period());
    assert forall i :: 0 <= i < |p| ==> p[i] == Level(c, m, power, i - lead);
    forall k | 0 <= k < m
      ensures BurstAt(c, power, p, Onset(c, lead, k))
    {
      OnsetNext(c, lead, k);
      OnsetMonotone(c, lead, k + 1, m);
      var i := Onset(c, lead, k);
      forall x | i <= x < i + c.Period()
        ensures p[x] == if x - i < c.ons then power else 0.0
      {
        Quotient(x - lead, c.Period(), k, x - i);
      }
    }
  }

  // ---------------------------------------------------------- scores

  lemma Mean(n: nat, v: real)
    requires n >= 1
    ensures n as real * v * (1.0 / n as real) == v && n as real * v * (-1.0 / n as real) == -v
  {
    var x := 1.0 / n as real;
    assert n as real * x == 1.0;
    assert n as real * v * x == v * (n as real * x);
    assert -1.0 / n as real == -x;
    assert n as real * v * -x == -(n as real * v * x);
  }

  lemma ScoreOnBurst(c: Cadence, power: real, p: seq<real>, i: nat)
    requires c.Valid() && BurstAt(c, power, p, i)
    ensures Score(p, c.ons, c.offs, i) == power
  {
    SumConstant(p, i, i + c.ons, power);
    SumConstant(p, i + c.ons, i + c.Period(), 0.0);
    Mean(c.ons, power);
  }

  lemma ScoreAtMost(c: Cadence, power: real, p: seq<real>, i: nat)
    requires c.Valid() && i + c.Period() <= |p| && forall x :: 0 <= x < |p| ==> 0.0 <= p[x] <= power
    ensures Score(p, c.ons, c.offs, i) <= power
  {
    SumWithin(p, i, i + c.ons, power);
    SumWithin(p, i + c.ons, i + c.Period(), power);
    Mean(c.ons, power);
    ScaleUp(Sum(p, i, i + c.ons), c.ons as real * power, 1.0 / c.ons as real);
    ScaleDown(Sum(p, i + c.ons, i + c.Period()), -1.0 / c.offs as real);
  }

  lemma ScaleUp(a: real, b: real, k: real)
    requires a <= b && k >= 0.0
    ensures a * k <= b * k
  {}

  lemma ScaleDown(a: real, k: real)
    requires a >= 0.0 && k <= 0.0
    ensures a * k <= 0.0
  {}

  lemma ScoreOfSilence(c: Cadence, p: seq<real>, i: nat)
    requires c.Valid() && Constant(p, i, i + c.Period(), 0.0)
    ensures Score(p, c.ons, c.offs, i) == 0.0
  {
    SumConstant(p, i, i + c.ons, 0.0);
    SumConstant(p, i + c.ons, i + c.Period(), 0.0);
  }

  /** j windows before the first burst: the on mean has lost j windows and the off
      mean has gained them. */
  function EarlyScore(c: Cadence, power: real, j: nat): real
    requires c.Valid()
  {
    (c.ons - j) as real * power * (1.0 / c.ons as real) + j as real * power * (-1.0 / c.offs as real)
  }

  /** A stretch at power v within silence. */
  lemma SumPulse(p: seq<real>, a: nat, b: nat, c: nat, d: nat, v: real)
    requires Constant(p, a, b, 0.0) && Constant(p, b, c, v) && Constant(p, c, d, 0.0)
    ensures Sum(p, a, d) == (c - b) as real * v
  {
    SumConstant(p, a, b, 0.0);
    SumConstant(p, b, c, v);
    SumConstant(p, c, d, 0.0);
    SumSplits(p, a, b, d);
    SumSplits(p, b, c, d);
  }

  lemma ScoreBefore(c: Cadence, m: nat, power: real, lead: nat, p: seq<real>, j: nat)
    requires Shaped(c, m, power, lead, p) && m > 0 && 1 <= j <= lead && j <= c.ons && j <= c.offs
    ensures lead - j + c.Period() <= |p| && Score(p, c.ons, c.offs, lead - j) == EarlyScore(c, power, j)
  {
    hide Sum;
    var i := lead - j;
    assert Onset(c, lead, 0) == lead && BurstAt(c, power, p, Onset(c, lead, 0));
    SumPulse(p, i, lead, i + c.ons, i + c.ons, power);
    SumPulse(p, i + c.ons, i + c.ons, lead + c.ons, i + c.Period(), power);
    assert i + c.ons - lead == c.ons - j && lead + c.ons - (i + c.ons) == j && i + c.Period() == i + c.ons + c.offs;
    hide Shaped, BurstAt, Constant;
  }

  /** Too early to reach the burst with the on windows. */
  lemma ScoreTooEarly(c: Cadence, m: nat, power: real, lead: nat, p: seq<real>, i: nat)
    requires Shaped(c, m, power, lead, p) && m > 0 && i + c.ons <= lead
    ensures i + c.Period() <= |p| && Score(p, c.ons, c.offs, i) <= 0.0
  {
    hide Sum;
    assert Onset(c, lead, 0) == lead && BurstAt(c, power, p, Onset(c, lead, 0));
    SumPulse(p, i, i + c.ons, i + c.ons, i + c.ons, power);
    SumWithin(p, i + c.ons, i + c.Period(), power);
    ScaleDown(Sum(p, i + c.ons, i + c.Period()), -1.0 / c.offs as real);
  }

  /** Early enough for the off windows to lie within the burst. */
  lemma ScoreOffInBurst(c: Cadence, m: nat, power: real, lead: nat, p: seq<real>, i: nat)
    requires Shaped(c, m, power, lead, p) && m > 0 && lead < i + c.ons && i + c.offs <= lead
    ensures i + c.Period() <= |p| && Score(p, c.ons, c.offs, i) <= 0.0
  {
    hide Sum;
    assert Onset(c, lead, 0) == lead && BurstAt(c, power, p, Onset(c, lead, 0));
    SumWithin(p, i, i + c.ons, power);
    SumPulse(p, i + c.ons, i + c.ons, i + c.Period(), i + c.Period(), power);
    Mean(c.ons, power);
    Mean(c.offs, power);
    ScaleUp(Sum(p, i, i + c.ons), c.ons as real * power, 1.0 / c.ons as real);
  }

  lemma EarlyScoreFalls(c: Cadence, power: real, j: nat)
    requires c.Valid() && power > 0.0
    ensures EarlyScore(c, power, j + 1) < EarlyScore(c, power, j) && EarlyScore(c, power, 0) == power
  {
    var x, y := 1.0 / c.ons as real, -1.0 / c.offs as real;
    Mean(c.ons, power);
    assert x > 0.0 && y < 0.0;
    assert (c.ons - (j + 1)) as real * power * x == (c.ons - j) as real * power * x - power * x;
    assert (j + 1) as real * power * y == j as real * power * y + power * y;
    assert power * x > 0.0 && power * y < 0.0;
  }

  // ---------------------------------------------------------- peak picking

  /** The course of the scores: a climb to the first burst from wherever they are
      positive, the power itself on every burst, and nothing after the last. */
  ghost predicate Course(c: Cadence, m: nat, power: real, lead: nat, s: seq<real>) {
    && c.Valid() && power > 0.0 && m >= 1 && Onset(c, lead, m) <= |s|
    && (forall i :: 0 <= i < |s| ==> s[i] <= power)
    && (forall i :: 0 <= i < lead ==> Rising(s, i))
    && (forall k :: 0 <= k < m ==> Onset(c, lead, k) < |s| && s[Onset(c, lead, k)] == power)
    && (forall i :: Onset(c, lead, m) <= i < |s| ==> s[i] <= 0.0)
  }

  ghost predicate Rising(s: seq<real>, i: nat) {
    i + 1 < |s| && (s[i] <= 0.0 || s[i] < s[i + 1])
  }

  lemma ScoreRises(c: Cadence, m: nat, power: real, lead: nat, p: seq<real>, i: nat)
    requires Shaped(c, m, power, lead, p) && m > 0 && i < lead
    ensures i + 1 + c.Period() <= |p|
    ensures Score(p, c.ons, c.offs, i) <= 0.0 || Score(p, c.ons, c.offs, i) < Score(p, c.ons, c.offs, i + 1)
  {
    hide Score, EarlyScore;
    assert Onset(c, lead, 0) == lead && BurstAt(c, power, p, Onset(c, lead, 0));
    var j := lead - i;
    if j >= c.ons {
      ScoreTooEarly(c, m, power, lead, p, i);
    } else if j >= c.offs {
      ScoreOffInBurst(c, m, power, lead, p, i);
    } else {
      ScoreBefore(c, m, power, lead, p, j);
      EarlyScoreFalls(c, power, j - 1);
      if j > 1 {
        ScoreBefore(c, m, power, lead, p, j - 1);
      } else {
        ScoreOnBurst(c, power, p, lead);
      }
    }
  }

  lemma RecordingCourse(c: Cadence, m: nat, power: real, lead: nat, tail: nat)
    requires c.Valid() && m >= 1 && power > 0.0
    ensures Course(c, m, power, lead, Scores(Recording(c, m, power, lead, tail), c.ons, c.offs))
  {
    var powers := Recording(c, m, power, lead, tail);
    var p, s := Padded(powers, c.Period()), Scores(powers, c.ons, c.offs);
    RecordingIsShaped(c, m, power, lead, tail);
    assert Onset(c, lead, m) + tail == |powers|;
    hide Score, Recording, Shaped, BurstAt;
    CourseOf(c, m, power, lead, p, s);
  }

  lemma CourseOf(c: Cadence, m: nat, power: real, lead: nat, p: seq<real>, s: seq<real>)
    requires Shaped(c, m, power, lead, p) && m >= 1 && Onset(c, lead, m) <= |s| && |p| == |s| + c.Period() - 1
    requires forall i :: 0 <= i < |s| ==> s[i] == Score(p, c.ons, c.offs, i)
    ensures Course(c, m, power, lead, s)
  {
    hide Score, BurstAt;
    forall k | 0 <= k < m
      ensures Onset(c, lead, k) < |s| && s[Onset(c, lead, k)] == power
    {
      OnsetNext(c, lead, k);
      OnsetMonotone(c, lead, k + 1, m);
      assert BurstAt(c, power, p, Onset(c, lead, k));
      ScoreOnBurst(c, power, p, Onset(c, lead, k));
    }
    assert Onset(c, lead, 0) == lead < |s|;
    forall i | 0 <= i < |s|
      ensures s[i] <= power && (i < lead ==> Rising(s, i)) && (i >= Onset(c, lead, m) ==> s[i] <= 0.0)
    {
      ScoreAtMost(c, power, p, i);
      if i < lead { ScoreRises(c, m, power, lead, p, i); }
      if i >= Onset(c, lead, m) { ScoreOfSilence(c, p, i); }
    }
  }

  lemma {:induction false} ClimbsToFirst(c: Cadence, m: nat, power: real, lead: nat, s: seq<real>, i: nat)
    requires Course(c, m, power, lead, s) && i <= lead < |s| && s[i] > 0.0
    ensures Climb(s, i) == lead
    decreases lead - i
  {
    assert Onset(c, lead, 0) == lead;
    if i < lead {
      assert Rising(s, i);
      ClimbsToFirst(c, m, power, lead, s, i + 1);
    }
  }

  lemma {:induction false} NoPeaks(s: seq<real>, thresh: real, period: nat, i: nat)
    requires period >= 1 && forall k :: i <= k < |s| ==> s[k] <= thresh
    ensures Peaks(s, thresh, period, i) == []
    decreases |s| - i
  {
    if i < |s| {
      NoPeaks(s, thresh, period, i + 1);
    }
  }

  lemma {:induction false} SamePeak(s: seq<real>, thresh: real, period: nat, i: nat, j: nat)
    requires period >= 1 && i < |s| && j < |s| && s[i] > thresh && s[j] > thresh && Climb(s, i) == Climb(s, j)
    ensures Peaks(s, thresh, period, i) == Peaks(s, thresh, period, j)
  {
    hide Climb;
  }

  lemma {:induction false} PeaksFromLead(c: Cadence, m: nat, power: real, lead: nat, s: seq<real>, thresh: real, i: nat)
    requires Course(c, m, power, lead, s) && i <= lead < |s| && 0.0 <= thresh < power
    ensures Peaks(s, thresh, c.Period(), i) == Peaks(s, thresh, c.Period(), lead)
    decreases lead - i
  {
    hide Climb, Peaks;
    if i < lead {
      if s[i] > thresh {
        assert Onset(c, lead, 0) == lead && s[Onset(c, lead, 0)] == power;
        ClimbsToFirst(c, m, power, lead, s, i);
        ClimbsToFirst(c, m, power, lead, s, lead);
        SamePeak(s, thresh, c.Period(), i, lead);
      } else {
        NextPeak(s, thresh, c.Period(), i, []);
        PeaksFromLead(c, m, power, lead, s, thresh, i + 1);
      }
    }
  }

  /** Onsets of bursts k, k + 1, ... */
  function Onsets(c: Cadence, lead: nat, k: nat, m: nat): (r: seq<nat>)
    requires k <= m
    ensures |r| == m - k
  {
    seq<nat>(m - k, (i: nat) requires i < m - k => Onset(c, lead, k + i))
  }

  lemma {:induction false} PeaksOnBursts(c: Cadence, m: nat, power: real, lead: nat, s: seq<real>, thresh: real, k: nat)
    requires Course(c, m, power, lead, s) && k <= m && 0.0 <= thresh < power
    ensures Peaks(s, thresh, c.Period(), Onset(c, lead, k)) == Onsets(c, lead, k, m)
    decreases m - k
  {
    var i := Onset(c, lead, k);
    if k == m {
      NoPeaks(s, thresh, c.Period(), i);
    } else {
      OnsetNext(c, lead, k);
      hide Onset;
      assert s[i] == power && Climb(s, i) == i;
      PeaksOnBursts(c, m, power, lead, s, thresh, k + 1);
      assert Onsets(c, lead, k, m) == [i] + Onsets(c, lead, k + 1, m);
    }
  }

  lemma PicksBursts(c: Cadence, m: nat, power: real, lead: nat, s: seq<real>)
    requires Course(c, m, power, lead, s)
    ensures s != [] && MaxOf(s) == power && Peaks(s, power * 0.25, c.Period(), 0) == Onsets(c, lead, 0, m)
  {
    hide Peaks;
    assert Onset(c, lead, 0) == lead && s[Onset(c, lead, 0)] == power;
    var t := power * 0.25;
    assert 0.0 <= t < power;
    PeaksFromLead(c, m, power, lead, s, t, 0);
    PeaksOnBursts(c, m, power, lead, s, t, 0);
  }

  /** The detector finds the bursts of an ideal recording, all of them and no other. */
  lemma DetectsExactly(c: Cadence, m: nat, power: real, lead: nat, tail: nat)
    requires c.Valid() && m >= 1 && power > 0.0
    ensures Detected(Recording(c, m, power, lead, tail), c.ons, c.offs) == Onsets(c, lead, 0, m)
  {
    hide Course, Scores, Recording, Peaks, Onsets, Detected, MaxOf, IsMax;
    var powers := Recording(c, m, power, lead, tail);
    MulMonotone(1, m, c.Period());
    RecordingCourse(c, m, power, lead, tail);
    PicksBursts(c, m, power, lead, Scores(powers, c.ons, c.offs));
    DetectedCases(powers, c.ons, c.offs);
  }
}
