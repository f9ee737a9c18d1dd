/** analyze_pair from cadence to exit code, and the burst signal it is meant for. */
module Analysis {
  import opened FixedPoint
  import opened Detector
  import opened IdealRecording
  import opened Delay
  import opened Pairing

  const SRATE := 8000

  datatype CadenceResult = Good(cadence: Cadence) | Bad

  /** On and off windows; too short a burst or silence is an error. */
  function CadenceWindows(burstMs: int, periodMs: int): (r: CadenceResult)
    ensures r.Good? ==> r.cadence.Valid()
  {
    var onW, offW := burstMs / WINDOW_MS, (periodMs - burstMs) / WINDOW_MS;
    if onW < 1 || offW < 1 then Bad else Good(Cadence(onW, offW))
  }

  /** A cadence is refused if and only if the burst or the silence is shorter than a
      window; else it has all the whole windows that fit in each. */
  lemma CadenceMeans(burstMs: int, periodMs: int)
    ensures var r, silence := CadenceWindows(burstMs, periodMs), periodMs - burstMs;
      && (r.Good? <==> burstMs >= 10 && silence >= 10)
      && (r.Good? ==> 0 <= burstMs - 10 * r.cadence.ons < 10 && 0 <= silence - 10 * r.cadence.offs < 10)
  {}

  /** Rounding down is silent: an accepted cadence is the one asked for exactly when
      both lengths are whole windows. */
  lemma CadenceExactIff(burstMs: int, periodMs: int)
    requires CadenceWindows(burstMs, periodMs).Good?
    ensures var c := CadenceWindows(burstMs, periodMs).cadence;
      (c.ons * WINDOW_MS == burstMs && c.Period() * WINDOW_MS == periodMs)
      <==> burstMs % WINDOW_MS == 0 && periodMs % WINDOW_MS == 0
  {
    var a, b := burstMs / WINDOW_MS, (periodMs - burstMs) / WINDOW_MS;
    assert burstMs == a * WINDOW_MS + burstMs % WINDOW_MS;
    assert periodMs - burstMs == b * WINDOW_MS + (periodMs - burstMs) % WINDOW_MS;
  }

  /** 105 ms bursts every 505 ms are analysed as 100 ms bursts every 500 ms. */
  lemma CadenceRoundsDown()
    ensures CadenceWindows(105, 505) == CadenceWindows(100, 500) == Good(Cadence(10, 40))
  {}

  /** The bursts found lie a rounded-down period apart, but the margin is a third of the
      period itself.  Its whole windows reach half that spacing for one cadence only:
      one window on and one off, of a period of 30 ms or more. */
  lemma MarginFitsIff(burstMs: int, periodMs: nat)
    requires CadenceWindows(burstMs, periodMs).Good?
    ensures var spacing := CadenceWindows(burstMs, periodMs).cadence.Period() * WINDOW_MS;
      2 * Rounded(periodMs / 3) < spacing <==> !(spacing == 20 && periodMs >= 30)
  {
    var c := CadenceWindows(burstMs, periodMs).cadence;
    assert periodMs == c.Period() * WINDOW_MS + burstMs % WINDOW_MS + (periodMs - burstMs) % WINDOW_MS;
  }

  datatype Report = Report(exitCode: int, delay: int, rows: seq<Match>)

  datatype Outcome = Analysed(report: Report) | CadenceError

  method AnalyzePair(txPowers: seq<real>, rxPowers: seq<real>, periodMs: nat, burstMs: int) returns (outcome: Outcome)
    ensures outcome.CadenceError? <==> CadenceWindows(burstMs, periodMs).Bad?
    ensures outcome.Analysed? ==>
      var c, r := CadenceWindows(burstMs, periodMs).cadence, outcome.report;
      var maxMs := if periodMs * 2 > 500 then periodMs * 2 else 500;
      && r.delay % WINDOW_MS == 0
      && FirstBest(txPowers, rxPowers, maxMs / WINDOW_MS, r.delay / WINDOW_MS)
      && Greedy(InMs(Detected(txPowers, c.ons, c.offs)), InMs(Detected(rxPowers, c.ons, c.offs)),
                r.delay, periodMs / 3, r.rows)
      && r.exitCode == (if MissingIn(r.rows) > 0 then 2 else 0)
      && (!(c.Period() * WINDOW_MS == 20 && periodMs >= 30) ==>
        BestPairing(InMs(Detected(txPowers, c.ons, c.offs)), InMs(Detected(rxPowers, c.ons, c.offs)),
                    r.delay, periodMs / 3, r.rows))
  {
    hide FirstBest, Greedy, Detected, BestPairing;
    var cadence := CadenceWindows(burstMs, periodMs);
    if cadence.Bad? {
      return CadenceError;
    }
    var tx := DetectBursts(txPowers, cadence.cadence.ons, cadence.cadence.offs);
    var rx := DetectBursts(rxPowers, cadence.cadence.ons, cadence.cadence.offs);
    var delay := EstimateDelay(txPowers, rxPowers, if periodMs * 2 > 500 then periodMs * 2 else 500);
    var rows, missed := PairBursts(tx, rx, delay, periodMs / 3);
    MarginFitsIff(burstMs, periodMs);
    if 2 * Rounded(periodMs / 3) < cadence.cadence.Period() * WINDOW_MS {
      RecordingPairs(txPowers, rxPowers, cadence.cadence, delay, periodMs / 3, rows);
    }
    outcome := Analysed(Report(if missed > 0 then 2 else 0, delay, rows));
  }

  /** What the analysis of two recordings makes of them: any delay and rows that meet the
      contract of AnalyzePair. */
  ghost predicate Analyses(txPowers: seq<real>, rxPowers: seq<real>, c: Cadence, periodMs: nat, delay: int,
                           rows: seq<Match>)
    requires c.Valid()
  {
    var maxMs := if periodMs * 2 > 500 then periodMs * 2 else 500;
    && delay % WINDOW_MS == 0 && FirstBest(txPowers, rxPowers, maxMs / WINDOW_MS, delay / WINDOW_MS)
    && Greedy(InMs(Detected(txPowers, c.ons, c.offs)), InMs(Detected(rxPowers, c.ons, c.offs)),
              delay, periodMs / 3, rows)
  }

  /** No two recordings leave anything to choose. */
  ghost predicate AlwaysBest(c: Cadence, periodMs: nat)
    requires c.Valid()
  {
    forall txPowers: seq<real>, rxPowers: seq<real>, delay: int, rows: seq<Match> ::
      Analyses(txPowers, rxPowers, c, periodMs, delay, rows) ==>
      BestPairing(InMs(Detected(txPowers, c.ons, c.offs)), InMs(Detected(rxPowers, c.ons, c.offs)),
                  delay, periodMs / 3, rows)
  }

  /** Exactly which accepted cadences make the pairing of any two recordings forced,
      ordered and maximum. */
  lemma AlwaysBestIff(burstMs: int, periodMs: nat)
    requires CadenceWindows(burstMs, periodMs).Good?
    ensures var c := CadenceWindows(burstMs, periodMs).cadence;
      AlwaysBest(c, periodMs) <==> !(c.Period() * WINDOW_MS == 20 && periodMs >= 30)
  {
    hide FirstBest, Greedy, Detected, BestPairing;
    var c := CadenceWindows(burstMs, periodMs).cadence;
    MarginFitsIff(burstMs, periodMs);
    if 2 * Rounded(periodMs / 3) < c.Period() * WINDOW_MS {
      forall txPowers: seq<real>, rxPowers: seq<real>, delay: int, rows: seq<Match> |
        Analyses(txPowers, rxPowers, c, periodMs, delay, rows)
        ensures BestPairing(InMs(Detected(txPowers, c.ons, c.offs)), InMs(Detected(rxPowers, c.ons, c.offs)),
                            delay, periodMs / 3, rows)
      {
        RecordingPairs(txPowers, rxPowers, c, delay, periodMs / 3, rows);
      }
    } else {
      var rows := AmbiguousRecordings(periodMs);
      assert c == Cadence(1, 1);
    }
  }

  /** Two recordings with something to choose, analysed for 19 ms bursts every 38 ms, say:
      a burst of 10 ms sent after 10 ms of silence, and two received, 10 ms before it and
      10 ms after. */
  lemma AmbiguousRecordings(periodMs: nat) returns (rows: seq<Match>)
    requires periodMs >= 30
    ensures CadenceWindows(19, 38) == Good(Cadence(1, 1))
    ensures var c, tx, rx := Cadence(1, 1), [0.0, 1.0, 0.0, 0.0], [1.0, 0.0, 1.0, 0.0];
      && Analyses(tx, rx, c, periodMs, 0, rows)
      && InMs(Detected(tx, 1, 1)) == [10] && InMs(Detected(rx, 1, 1)) == [0, 20]
      && !BestPairing(InMs(Detected(tx, 1, 1)), InMs(Detected(rx, 1, 1)), 0, periodMs / 3, rows)
  {
    hide Detected, Recording, Greedy, BestPairing, FirstBest, Onsets, InMs;
    TwoRecordings();
    DetectsExactly(Cadence(1, 1), 1, 1.0, 1, 1);
    DetectsExactly(Cadence(1, 1), 2, 1.0, 0, 0);
    rows := [Paired(0)];
    FirstOfTwo(periodMs / 3);
    NoLag([0.0, 1.0, 0.0, 0.0], [1.0, 0.0, 1.0, 0.0], (if periodMs * 2 > 500 then periodMs * 2 else 500) / WINDOW_MS);
  }

  lemma TwoRecordings()
    ensures var c := Cadence(1, 1);
      && [0.0, 1.0, 0.0, 0.0] == Recording(c, 1, 1.0, 1, 1) && [1.0, 0.0, 1.0, 0.0] == Recording(c, 2, 1.0, 0, 0)
      && InMs(Onsets(c, 1, 0, 1)) == [10] && InMs(Onsets(c, 0, 0, 2)) == [0, 20]
  {
    hide Level, Onset;
    var c := Cadence(1, 1);
    var tx, rx := Recording(c, 1, 1.0, 1, 1), Recording(c, 2, 1.0, 0, 0);
    OneOnOneOff(1, -1, 1, 0);
    OneOnOneOff(1, 0, 0, 0);
    OneOnOneOff(1, 1, 0, 1);
    OneOnOneOff(1, 2, 0, 1);
    assert tx[0] == Level(c, 1, 1.0, -1) && tx[1] == Level(c, 1, 1.0, 0);
    assert tx[2] == Level(c, 1, 1.0, 1) && tx[3] == Level(c, 1, 1.0, 2);
    OneOnOneOff(2, 0, 0, 0);
    OneOnOneOff(2, 1, 0, 0);
    OneOnOneOff(2, 2, 0, 0);
    OneOnOneOff(2, 3, 0, 0);
    assert rx[0] == Level(c, 2, 1.0, 0) && rx[1] == Level(c, 2, 1.0, 1);
    assert rx[2] == Level(c, 2, 1.0, 2) && rx[3] == Level(c, 2, 1.0, 3);
  }

  /** One window on and one off. */
  lemma OneOnOneOff(m: nat, i: int, lead: nat, k: nat)
    ensures Level(Cadence(1, 1), m, 1.0, i) == if 0 <= i < 2 * m && i % 2 == 0 then 1.0 else 0.0
    ensures Onset(Cadence(1, 1), lead, k) == lead + 2 * k
  {
    var period := Cadence(1, 1).Period();
    assert m * period == 2 * m && k * period == 2 * k;
    Quotient(i, period, i / 2, i % 2);
  }

  lemma FirstOfTwo(margin: nat)
    requires margin >= 10
    ensures Greedy([10], [0, 20], 0, margin, [Paired(0)]) && !BestPairing([10], [0, 20], 0, margin, [Paired(0)])
  {
    var tx, rx, rows := [10], [0, 20], [Paired(0)];
    assert rows[..0] == [];
    assert Within(rx, 0, tx[0] + 0, margin) && Within(rx, 1, tx[0] + 0, margin);
    assert Nearest(rx, [], 10, margin, Paired(0));
    assert rows[0] != Paired(1);
  }

  /** Too short to overlap in 50 windows, they get the delay 0. */
  lemma NoLag(tx: seq<real>, rx: seq<real>, maxK: int)
    requires |tx| < 50
    ensures FirstBest(tx, rx, maxK, 0)
  {}

  /** On an ideal pair, sent with whole-window lengths, the program reports the delay,
      pairs burst k with burst k, and exits with 0. */
  method AnalyzeIdealPair(ghost w: Pair, txPowers: seq<real>, rxPowers: seq<real>, periodMs: nat, burstMs: nat)
    returns (outcome: Outcome)
    requires w.Valid() && txPowers == w.Tx() && rxPowers == w.Rx() && w.Length() - w.delay >= 50
    requires burstMs == w.c.ons * WINDOW_MS && periodMs == w.c.Period() * WINDOW_MS
    ensures outcome.Analysed? && outcome.report.exitCode == 0 && outcome.report.delay == w.delay * WINDOW_MS
    ensures |outcome.report.rows| == w.m && forall k :: 0 <= k < w.m ==> outcome.report.rows[k] == Paired(k)
  {
    hide FirstBest, Greedy, Detected, Recording, BestPairing;
    assert CadenceWindows(burstMs, periodMs) == Good(w.c);
    outcome := AnalyzePair(txPowers, rxPowers, periodMs, burstMs);
    AnalysisExact(w, if periodMs * 2 > 500 then periodMs * 2 else 500, outcome.report.delay, outcome.report.rows);
  }

  // ---------------------------------------------------------- the signal

  /** Sample idx of the pattern, for any tone. */
  function PatternSample(tone: int -> int, idx: nat, burstMs: nat, periodMs: nat): int
    requires periodMs > 0
  {
    var period, burst := SRATE * periodMs / 1000, SRATE * burstMs / 1000;
    if idx % period < burst then tone(idx) else 0
  }

  /** Sample i lies in burst k of so many samples, one every so many. */
  predicate InBurst(i: int, burst: nat, period: nat, k: nat) {
    0 <= i - k * period < burst
  }

  /** The sent samples, 8 a millisecond, whatever the lengths: the tone inside the bursts,
      else silence. */
  ghost predicate BurstsOfTone(tone: int -> int, s: seq<int>, burstMs: nat, periodMs: nat) {
    forall i :: 0 <= i < |s| ==>
      s[i] == if exists k: nat :: InBurst(i, 8 * burstMs, 8 * periodMs, k) then tone(i) else 0
  }

  /** The same by the detector's windows of 80 samples, each all tone or all silence. */
  ghost predicate WindowsOfTone(tone: int -> int, s: seq<int>, c: Cadence)
    requires c.Valid()
  {
    forall i :: 0 <= i < |s| ==> s[i] == if On(c, i / 80) then tone(i) else 0
  }

  lemma SampleInBurst(tone: int -> int, i: nat, burstMs: nat, periodMs: nat)
    requires periodMs > 0
    ensures PatternSample(tone, i, burstMs, periodMs)
      == if exists k: nat :: InBurst(i, 8 * burstMs, 8 * periodMs, k) then tone(i) else 0
  {
    hide InBurst;
    Quotient(SRATE * periodMs, 1000, 8 * periodMs, 0);
    Quotient(SRATE * burstMs, 1000, 8 * burstMs, 0);
    InBurstIff(i, 8 * burstMs, 8 * periodMs);
  }

  lemma InBurstIff(i: nat, burst: nat, period: nat)
    requires period > 0
    ensures i % period < burst <==> exists k: nat :: InBurst(i, burst, period, k)
  {
    InItsPeriod(i, period);
    if i % period < burst {
      assert InBurst(i, burst, period, i / period);
    }
    hide InBurst;
    forall k: nat | InBurst(i, burst, period, k)
      ensures i % period < burst
    {
      EarlyInPeriod(i, burst, period, k);
    }
  }

  lemma InItsPeriod(i: nat, period: nat)
    requires period > 0
    ensures i - i / period * period == i % period && 0 <= i % period < period
  {}

  lemma EarlyInPeriod(i: nat, burst: nat, period: nat, k: nat)
    requires period > 0 && InBurst(i, burst, period, k)
    ensures i % period < burst
  {
    if burst < period {
      Quotient(i, period, k, i - k * period);
    }
  }

  lemma SampleInWindow(tone: int -> int, i: nat, burstMs: nat, periodMs: nat)
    requires burstMs % WINDOW_MS == 0 && periodMs % WINDOW_MS == 0 && CadenceWindows(burstMs, periodMs).Good?
    ensures PatternSample(tone, i, burstMs, periodMs)
      == if On(CadenceWindows(burstMs, periodMs).cadence, i / 80) then tone(i) else 0
  {
    WindowsArePure(i / 80, i % 80, burstMs, periodMs);
    hide On;
  }

  /** The samples of burst k lie within the first n. */
  predicate BurstFits(n: nat, burstMs: nat, periodMs: nat, k: nat) {
    k * (SRATE * periodMs / 1000) + SRATE * burstMs / 1000 <= n
  }

  /** The number returned is that of the whole bursts written if and only if what is left
      after the last whole period is shorter than a burst; else one more is written. */
  lemma BurstsReturnedIff(seconds: nat, burstMs: nat, periodMs: nat)
    requires 0 < burstMs <= periodMs
    ensures var whole := seconds * 1000 / periodMs + if seconds * 1000 % periodMs < burstMs then 0 else 1;
      forall k: nat :: BurstFits(SRATE * seconds, burstMs, periodMs, k) <==> k < whole
  {
    var q, r := seconds * 1000 / periodMs, seconds * 1000 % periodMs;
    assert q * periodMs + r == seconds * 1000;
    forall k: nat
      ensures BurstFits(SRATE * seconds, burstMs, periodMs, k) <==> k < q || (k == q && burstMs <= r)
    {
      BurstInMs(seconds, burstMs, periodMs, k);
      hide BurstFits;
      if k < q { MulMonotone(k + 1, q, periodMs); }
      if k > q { MulMonotone(q + 1, k, periodMs); }
    }
  }

  lemma BurstInMs(seconds: nat, burstMs: nat, periodMs: nat, k: nat)
    ensures BurstFits(SRATE * seconds, burstMs, periodMs, k) <==> k * periodMs + burstMs <= seconds * 1000
  {
    Quotient(SRATE * periodMs, 1000, 8 * periodMs, 0);
    Quotient(SRATE * burstMs, 1000, 8 * burstMs, 0);
    assert k * (8 * periodMs) == 8 * (k * periodMs);
  }

  method GenerateSamples(tone: int -> int, seconds: nat, burstMs: nat, periodMs: nat)
    returns (buf: array<int>, bursts: nat)
    requires periodMs > 0
    ensures buf.Length == SRATE * seconds && bursts == seconds * 1000 / periodMs
    ensures BurstsOfTone(tone, buf[..], burstMs, periodMs)
    ensures burstMs % WINDOW_MS == 0 && periodMs % WINDOW_MS == 0 && CadenceWindows(burstMs, periodMs).Good? ==>
      WindowsOfTone(tone, buf[..], CadenceWindows(burstMs, periodMs).cadence)
    ensures 0 < burstMs <= periodMs ==>
      var uncounted := if seconds * 1000 % periodMs < burstMs then 0 else 1;
      forall k: nat :: BurstFits(buf.Length, burstMs, periodMs, k) <==> k < bursts + uncounted
  {
    if 0 < burstMs <= periodMs {
      BurstsReturnedIff(seconds, burstMs, periodMs);
    }
    hide BurstFits, BurstsOfTone, WindowsOfTone, PatternSample, CadenceWindows;
    var n := SRATE * seconds;
    buf := new int[n];
    for i := 0 to n
      invariant forall k :: 0 <= k < i ==> buf[k] == PatternSample(tone, k, burstMs, periodMs)
    {
      buf[i] := PatternSample(tone, i, burstMs, periodMs);
    }
    bursts := seconds * 1000 / periodMs;
    SignalMeans(tone, buf[..], burstMs, periodMs);
  }

  lemma SignalMeans(tone: int -> int, s: seq<int>, burstMs: nat, periodMs: nat)
    requires periodMs > 0 && forall i :: 0 <= i < |s| ==> s[i] == PatternSample(tone, i, burstMs, periodMs)
    ensures BurstsOfTone(tone, s, burstMs, periodMs)
    ensures burstMs % WINDOW_MS == 0 && periodMs % WINDOW_MS == 0 && CadenceWindows(burstMs, periodMs).Good? ==>
      WindowsOfTone(tone, s, CadenceWindows(burstMs, periodMs).cadence)
  {
    hide PatternSample, InBurst, On;
    forall i | 0 <= i < |s|
      ensures s[i] == if exists k: nat :: InBurst(i, 8 * burstMs, 8 * periodMs, k) then tone(i) else 0
    {
      SampleInBurst(tone, i, burstMs, periodMs);
    }
    if burstMs % WINDOW_MS == 0 && periodMs % WINDOW_MS == 0 && CadenceWindows(burstMs, periodMs).Good? {
      forall i | 0 <= i < |s|
        ensures s[i] == if On(CadenceWindows(burstMs, periodMs).cadence, i / 80) then tone(i) else 0
      {
        SampleInWindow(tone, i, burstMs, periodMs);
      }
    }
  }

  /** One second of 100 ms bursts every 600 ms holds two, and one is returned. */
  lemma OneBurstUncounted()
    ensures BurstFits(SRATE, 100, 600, 1) && 1 * 1000 / 600 == 1
  {}

  /** Whole-window lengths make every 10 ms window of the signal all tone or all
      silence, in the detector's own cadence. */
  lemma WindowsArePure(w: nat, r: nat, burstMs: nat, periodMs: nat)
    requires r < 80 && burstMs % WINDOW_MS == 0 && periodMs % WINDOW_MS == 0
    requires CadenceWindows(burstMs, periodMs).Good?
    ensures (80 * w + r) % (SRATE * periodMs / 1000) < SRATE * burstMs / 1000
      <==> On(CadenceWindows(burstMs, periodMs).cadence, w)
  {
    CadenceExactIff(burstMs, periodMs);
    var c := CadenceWindows(burstMs, periodMs).cadence;
    var p := c.Period();
    Quotient(SRATE * periodMs, 1000, 80 * p, 0);
    Quotient(SRATE * burstMs, 1000, 80 * c.ons, 0);
    var q, s := w / p, w % p;
    assert 80 * w + r == q * (80 * p) + (80 * s + r);
    Quotient(80 * w + r, 80 * p, q, 80 * s + r);
  }
}
