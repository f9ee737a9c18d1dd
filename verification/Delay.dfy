/** The pipeline-delay estimate: the lag at which the two envelopes correlate best. */
module Delay {
  import opened FixedPoint
  import opened Detector
  import opened IdealRecording

  /** The sum of x[a + i] * y[b + i] over i < n. */
  function Dot(x: seq<real>, a: nat, y: seq<real>, b: nat, n: nat): real
    requires a + n <= |x| && b + n <= |y|
  {
    if n == 0 then 0.0 else Dot(x, a, y, b, n - 1) + x[a + n - 1] * y[b + n - 1]
  }

  /** Windows that overlap at lag k; at least 50 are required. */
  function Overlap(tx: seq<real>, rx: seq<real>, k: int): int {
    (if |tx| < |rx| then |tx| else |rx|) - if k >= 0 then k else -k
  }

  predicate Eligible(tx: seq<real>, rx: seq<real>, maxK: int, k: int) {
    -maxK <= k <= maxK && Overlap(tx, rx, k) >= 50
  }

  /** A lag is tried if and only if it is within the search and 50 windows of each envelope
      are left after as many as it shifts by. */
  lemma EligibleMeans(tx: seq<real>, rx: seq<real>, maxK: int, k: int)
    ensures var shift := if k >= 0 then k else -k;
      Eligible(tx, rx, maxK, k) <==> shift <= maxK && |tx| - shift >= 50 && |rx| - shift >= 50
  {}

  function Correlation(tx: seq<real>, rx: seq<real>, k: int): real
    requires Overlap(tx, rx, k) >= 0
  {
    if k >= 0 then Dot(tx, 0, rx, k, Overlap(tx, rx, k)) else Dot(tx, -k, rx, 0, Overlap(tx, rx, k))
  }

  /** The first lag of greatest correlation, if any reaches above -1; else lag 0. */
  ghost predicate FirstBest(tx: seq<real>, rx: seq<real>, maxK: int, b: int) {
    || (&& Eligible(tx, rx, maxK, b) && Correlation(tx, rx, b) > -1.0
        && forall k :: Eligible(tx, rx, maxK, k) ==>
          && Correlation(tx, rx, k) <= Correlation(tx, rx, b)
          && (k < b ==> Correlation(tx, rx, k) < Correlation(tx, rx, b)))
    || (b == 0 && forall k :: Eligible(tx, rx, maxK, k) ==> Correlation(tx, rx, k) <= -1.0)
  }

  lemma FirstBestUnique(tx: seq<real>, rx: seq<real>, maxK: int, a: int, b: int)
    requires FirstBest(tx, rx, maxK, a) && FirstBest(tx, rx, maxK, b)
    ensures a == b
  {}

  method Correlate(x: seq<real>, a: nat, y: seq<real>, b: nat, n: nat) returns (total: real)
    requires a + n <= |x| && b + n <= |y|
    ensures total == Dot(x, a, y, b, n)
  {
    total := 0.0;
    for i := 0 to n
      invariant total == Dot(x, a, y, b, i)
    {
      total := total + x[a + i] * y[b + i];
    }
  }

  /** The estimate, in milliseconds, is the first best lag. */
  method EstimateDelay(txEnv: seq<real>, rxEnv: seq<real>, maxMs: nat) returns (delay: int)
    ensures delay % WINDOW_MS == 0 && FirstBest(txEnv, rxEnv, maxMs / WINDOW_MS, delay / WINDOW_MS)
  {
    var maxK := maxMs / WINDOW_MS;
    var bestCorr, bestK := -1.0, 0;
    ghost var found := false;
    for k := -maxK to maxK + 1
      invariant found ==> Eligible(txEnv, rxEnv, maxK, bestK) && bestK < k
      invariant found ==> bestCorr == Correlation(txEnv, rxEnv, bestK) > -1.0
      invariant !found ==> bestK == 0 && bestCorr == -1.0
      invariant forall j :: j < k && Eligible(txEnv, rxEnv, maxK, j) ==>
        Correlation(txEnv, rxEnv, j) <= bestCorr && (found && j < bestK ==> Correlation(txEnv, rxEnv, j) < bestCorr)
    {
      hide Correlation;
      var length := Overlap(txEnv, rxEnv, k);
      if length >= 50 {
        var corr := CorrelateAt(txEnv, rxEnv, k);
        if corr > bestCorr {
          bestCorr, bestK, found := corr, k, true;
        }
      }
    }
    delay := bestK * WINDOW_MS;
  }

  method CorrelateAt(tx: seq<real>, rx: seq<real>, k: int) returns (corr: real)
    requires Overlap(tx, rx, k) >= 0
    ensures corr == Correlation(tx, rx, k)
  {
    if k >= 0 {
      corr := Correlate(tx, 0, rx, k, Overlap(tx, rx, k));
    } else {
      corr := Correlate(tx, -k, rx, 0, Overlap(tx, rx, k));
    }
  }

  /** Only the windows up to the length of the shorter recording decide. */
  lemma OverlapDecides(tx: seq<real>, rx: seq<real>, maxK: int, b: int)
    ensures var n := if |tx| < |rx| then |tx| else |rx|;
      FirstBest(tx, rx, maxK, b) <==> FirstBest(tx[..n], rx[..n], maxK, b)
  {
    var n := if |tx| < |rx| then |tx| else |rx|;
    forall k | Eligible(tx, rx, maxK, k)
      ensures Correlation(tx, rx, k) == Correlation(tx[..n], rx[..n], k)
    {
      DotOfPrefixes(tx, if k >= 0 then 0 else -k, rx, if k >= 0 then k else 0, Overlap(tx, rx, k), n);
    }
    hide Correlation;
  }

  lemma {:induction false} DotOfPrefixes(x: seq<real>, a: nat, y: seq<real>, b: nat, n: nat, l: nat)
    requires a + n <= l <= |x| && b + n <= l <= |y|
    ensures Dot(x, a, y, b, n) == Dot(x[..l], a, y[..l], b, n)
  {
    if n > 0 {
      DotOfPrefixes(x, a, y, b, n - 1, l);
    }
  }

  /** Powers are never negative: then the estimate is the smallest lag within the search,
      of 50 windows or more, that no other such lag beats. */
  lemma BestOfEligible(tx: seq<real>, rx: seq<real>, maxK: int, b: int, k: int)
    requires FirstBest(tx, rx, maxK, b) && Eligible(tx, rx, maxK, k)
    requires (forall i :: 0 <= i < |tx| ==> tx[i] >= 0.0) && (forall i :: 0 <= i < |rx| ==> rx[i] >= 0.0)
    ensures Eligible(tx, rx, maxK, b)
    ensures Correlation(tx, rx, k) <= Correlation(tx, rx, b)
    ensures Correlation(tx, rx, k) == Correlation(tx, rx, b) ==> b <= k
  {
    DotOfPowers(tx, if k >= 0 then 0 else -k, rx, if k >= 0 then k else 0, Overlap(tx, rx, k));
  }

  lemma {:induction false} DotOfPowers(x: seq<real>, a: nat, y: seq<real>, b: nat, n: nat)
    requires a + n <= |x| && b + n <= |y|
    requires (forall i :: 0 <= i < |x| ==> x[i] >= 0.0) && (forall i :: 0 <= i < |y| ==> y[i] >= 0.0)
    ensures Dot(x, a, y, b, n) >= 0.0
  {
    if n > 0 {
      DotOfPowers(x, a, y, b, n - 1);
      assert x[a + n - 1] * y[b + n - 1] >= 0.0;
    }
  }

  // ---------------------------------------------------------- ideal envelopes

  predicate On(c: Cadence, i: int)
    requires c.Valid()
  {
    i % c.Period() < c.ons
  }

  /** Windows i < n that are on, both at i and e windows later. */
  function Both(c: Cadence, e: nat, n: nat): nat
    requires c.Valid()
  {
    if n == 0 then 0 else Both(c, e, n - 1) + if On(c, n - 1) && On(c, n - 1 + e) then 1 else 0
  }

  lemma {:induction false} BothAtMost(c: Cadence, e: nat, n: nat, l: nat)
    requires c.Valid() && n <= l
    ensures Both(c, e, n) <= Both(c, 0, l)
    decreases l
  {
    if n < l {
      BothAtMost(c, e, n, l - 1);
    } else if n > 0 {
      BothAtMost(c, e, n - 1, n - 1);
    }
  }

  /** A window that is on but meets silence makes the count smaller. */
  lemma {:induction false} BothBelow(c: Cadence, e: nat, n: nat, l: nat, i: nat)
    requires c.Valid() && n <= l && i < l && On(c, i) && (i >= n || !On(c, i + e))
    ensures Both(c, e, n) < Both(c, 0, l)
    decreases l
  {
    if n < l {
      if i == l - 1 {
        BothAtMost(c, e, n, l - 1);
      } else {
        BothBelow(c, e, n, l - 1, i);
      }
    } else {
      if i == n - 1 {
        BothAtMost(c, e, n - 1, n - 1);
      } else {
        BothBelow(c, e, n - 1, n - 1, i);
      }
    }
  }

  /** Unless e is a whole number of periods, some burst window is silent e later. */
  lemma SilentLater(c: Cadence, e: nat) returns (i: nat)
    requires c.Valid() && e % c.Period() != 0
    ensures i < c.ons && On(c, i) && !On(c, i + e)
  {
    var r, q := e % c.Period(), e / c.Period();
    i := if r < c.ons then c.ons - r else 0;
    Quotient(i, c.Period(), 0, i);
    Quotient(i + e, c.Period(), q, i + r);
  }

  /** n windows from `a` on follow the cadence, `shift` windows into it. */
  ghost predicate Follows(c: Cadence, x: seq<real>, a: nat, n: nat, v: real, shift: nat)
    requires c.Valid()
  {
    a + n <= |x| && forall t :: a <= t < a + n ==> x[t] == if On(c, t - a + shift) then v else 0.0
  }

  function Total(c: Cadence, e: nat, n: nat, w: real): real
    requires c.Valid()
  {
    if n == 0 then 0.0 else Total(c, e, n - 1, w) + if On(c, n - 1) && On(c, n - 1 + e) then w else 0.0
  }

  lemma {:induction false} TotalIsCount(c: Cadence, e: nat, n: nat, w: real)
    requires c.Valid()
    ensures Total(c, e, n, w) == Both(c, e, n) as real * w
  {
    hide On;
    if n > 0 {
      TotalIsCount(c, e, n - 1, w);
      OneMore(Both(c, e, n - 1), w);
    }
  }

  lemma OneMore(z: nat, w: real)
    ensures (z + 1) as real * w == z as real * w + w
  {}

  lemma {:induction false} DotTotals(c: Cadence, x: seq<real>, a: nat, y: seq<real>, b: nat, n: nat,
                                     u: real, v: real, w: real, early: nat, late: nat)
    requires c.Valid() && (early == 0 || late == 0) && w == u * v
    requires Follows(c, x, a, n, u, early) && Follows(c, y, b, n, v, late)
    ensures Dot(x, a, y, b, n) == Total(c, early + late, n, w)
  {
    hide On;
    if n > 0 {
      DotTotals(c, x, a, y, b, n - 1, u, v, w, early, late);
      Product(x[a + n - 1], y[b + n - 1], u, v, On(c, n - 1 + early), On(c, n - 1 + late));
    }
  }

  lemma Product(s: real, t: real, u: real, v: real, p: bool, q: bool)
    requires s == (if p then u else 0.0) && t == if q then v else 0.0
    ensures s * t == if p && q then u * v else 0.0
  {}

  /** Two stretches of levels: their dot product counts the windows on in both. */
  lemma DotCounts(c: Cadence, x: seq<real>, a: nat, y: seq<real>, b: nat, n: nat,
                  u: real, v: real, early: nat, late: nat)
    requires c.Valid() && (early == 0 || late == 0)
    requires Follows(c, x, a, n, u, early) && Follows(c, y, b, n, v, late)
    ensures Dot(x, a, y, b, n) == Both(c, early + late, n) as real * (u * v)
  {
    hide Dot, Both, Total, Follows;
    DotTotals(c, x, a, y, b, n, u, v, u * v, early, late);
    TotalIsCount(c, early + late, n, u * v);
  }

  lemma {:induction false} DotSilent(x: seq<real>, a: nat, y: seq<real>, b: nat, n: nat)
    requires a + n <= |x| && Constant(y, b, b + n, 0.0)
    ensures Dot(x, a, y, b, n) == 0.0
  {
    if n > 0 {
      DotSilent(x, a, y, b, n - 1);
    }
  }

  lemma {:induction false} DotSplits(x: seq<real>, a: nat, y: seq<real>, b: nat, n: nat, l: nat)
    requires a + n + l <= |x| && b + n + l <= |y|
    ensures Dot(x, a, y, b, n + l) == Dot(x, a, y, b, n) + Dot(x, a + n, y, b + n, l)
  {
    if l > 0 {
      DotSplits(x, a, y, b, n, l - 1);
    }
  }

  /** An ideal pair: TX of m whole periods, RX the same bursts `delay` windows later. */
  datatype Pair = Pair(c: Cadence, m: nat, txPower: real, rxPower: real, delay: nat, tail: nat) {
    ghost predicate Valid() {
      c.Valid() && m >= 2 && txPower > 0.0 && rxPower > 0.0 && delay < c.Period()
    }
    ghost function Tx(): seq<real>
      requires c.Valid()
    {
      Recording(c, m, txPower, 0, 0)
    }
    ghost function Rx(): seq<real>
      requires c.Valid()
    {
      Recording(c, m, rxPower, delay, tail)
    }
    function Length(): int { m * c.Period() }
  }

  lemma TxFollows(w: Pair, a: nat, n: nat)
    requires w.Valid() && a + n <= w.Length()
    ensures Follows(w.c, w.Tx(), a, n, w.txPower, a)
  {}

  lemma RxFollows(w: Pair, b: nat, n: nat)
    requires w.Valid() && w.delay <= b && b + n <= w.delay + w.Length()
    ensures Follows(w.c, w.Rx(), b, n, w.rxPower, b - w.delay)
  {
    forall t | b <= t < b + n
      ensures w.Rx()[t] == if On(w.c, t - b + (b - w.delay)) then w.rxPower else 0.0
    {
      assert w.Rx()[t] == Level(w.c, w.m, w.rxPower, t - w.delay);
    }
  }

  lemma RxSilent(w: Pair, b: nat, n: nat)
    requires w.Valid() && b + n <= w.delay
    ensures Constant(w.Rx(), b, b + n, 0.0)
  {
    MulMonotone(0, w.m, w.c.Period());
    forall t | b <= t < b + n
      ensures w.Rx()[t] == 0.0
    {
      assert w.Rx()[t] == Level(w.c, w.m, w.rxPower, t - w.delay);
    }
  }

  /** Windows from the delay to lag k, and windows counted there. */
  function Shift(w: Pair, k: int): nat { if k >= w.delay then k - w.delay else w.delay - k }

  function Counted(w: Pair, k: int): nat {
    var n := if k >= w.delay then w.Length() - k else if k >= 0 then w.Length() - w.delay else w.Length() - w.delay + k;
    if n < 0 then 0 else n
  }

  /** Lags before the delay: silence at the start of RX, then its bursts meet those of
      TX `e` windows on.  Lag k starts TX at a = -k or RX at b = k. */
  lemma EarlyLag(w: Pair, a: nat, b: nat, len: nat)
    requires w.Valid() && b <= w.delay && a + b + len == w.Length() && (a == 0 || b == 0)
    ensures var e, n := w.delay + a - b, w.Length() - w.delay - a;
      Dot(w.Tx(), a, w.Rx(), b, len) == Both(w.c, e, if n < 0 then 0 else n) as real * (w.txPower * w.rxPower)
  {
    hide Dot, Both, Recording, Follows, Constant;
    var tx, rx, silent, e := w.Tx(), w.Rx(), w.delay - b, w.delay + a - b;
    if silent <= len {
      var n := len - silent;
      RxSilent(w, b, silent);
      DotSilent(tx, a, rx, b, silent);
      DotSplits(tx, a, rx, b, silent, n);
      TxFollows(w, e, n);
      RxFollows(w, w.delay, n);
      DotCounts(w.c, tx, e, rx, w.delay, n, w.txPower, w.rxPower, e, 0);
    } else {
      RxSilent(w, b, len);
      DotSilent(tx, a, rx, b, len);
      NothingCounted(w.c, e);
    }
  }

  lemma LateLag(w: Pair, k: nat)
    requires w.Valid() && w.delay <= k <= w.Length()
    ensures Dot(w.Tx(), 0, w.Rx(), k, w.Length() - k)
      == Both(w.c, k - w.delay, w.Length() - k) as real * (w.txPower * w.rxPower)
  {
    hide Both, Recording, Follows;
    var n := w.Length() - k;
    TxFollows(w, 0, n);
    RxFollows(w, k, n);
    DotCounts(w.c, w.Tx(), 0, w.Rx(), k, n, w.txPower, w.rxPower, 0, k - w.delay);
  }

  /** The correlation at every lag is a count of coinciding burst windows. */
  lemma CorrelationCounts(w: Pair, k: int)
    requires w.Valid() && Overlap(w.Tx(), w.Rx(), k) >= 0
    ensures Correlation(w.Tx(), w.Rx(), k) == Both(w.c, Shift(w, k), Counted(w, k)) as real * (w.txPower * w.rxPower)
  {
    hide Both, Dot;
    MulMonotone(2, w.m, w.c.Period());
    if k >= w.delay {
      LateLag(w, k);
    } else if k >= 0 {
      EarlyLag(w, 0, k, w.Length() - k);
    } else {
      EarlyLag(w, -k, 0, w.Length() + k);
    }
  }

  lemma NothingCounted(c: Cadence, e: nat)
    requires c.Valid()
    ensures Both(c, e, 0) == 0
  {}

  /** No lag correlates better than the delay, and no smaller lag as well. */
  lemma DelayBeats(w: Pair, k: int)
    requires w.Valid()
    ensures Both(w.c, Shift(w, k), Counted(w, k)) <= Both(w.c, 0, Counted(w, w.delay))
    ensures k < w.delay ==> Both(w.c, Shift(w, k), Counted(w, k)) < Both(w.c, 0, Counted(w, w.delay))
  {
    hide Both;
    var c, e, n, l := w.c, Shift(w, k), Counted(w, k), w.Length() - w.delay;
    MulMonotone(2, w.m, c.Period());
    BothAtMost(c, e, n, l);
    if k < w.delay {
      if e % c.Period() != 0 {
        var i := SilentLater(c, e);
        BothBelow(c, e, n, l, i);
      } else if n > 0 {
        LostOnset(w, k);
      } else {
        Quotient(0, c.Period(), 0, 0);
        BothBelow(c, e, 0, l, 0);
      }
    }
  }

  /** A whole number of periods early: the overlap ends just before a burst. */
  lemma LostOnset(w: Pair, k: int)
    requires w.Valid() && k < w.delay && Shift(w, k) % w.c.Period() == 0 && Counted(w, k) > 0
    ensures Both(w.c, Shift(w, k), Counted(w, k)) < Both(w.c, 0, w.Length() - w.delay)
  {
    var c, e, n := w.c, Shift(w, k), Counted(w, k);
    var q := e / c.Period();
    if k >= 0 {
      Quotient(e, c.Period(), 0, e);
    }
    assert (w.m - q) * c.Period() == w.m * c.Period() - q * c.Period();
    Quotient(n, c.Period(), w.m - q, 0);
    BothBelow(c, e, n, w.Length() - w.delay, n);
  }

  /** On an ideal pair the estimate is the delay: with at least 50 windows left to
      overlap and a search that reaches it, it is the first lag of greatest
      correlation, and so whatever the estimator returns. */
  lemma EstimateIsDelay(w: Pair, maxK: int, b: int)
    requires w.Valid() && w.Length() - w.delay >= 50 && w.delay <= maxK
    requires FirstBest(w.Tx(), w.Rx(), maxK, b)
    ensures b == w.delay
  {
    hide Both, Correlation, Recording;
    var tx, rx, u := w.Tx(), w.Rx(), w.txPower * w.rxPower;
    assert u > 0.0;
    CorrelationCounts(w, w.delay);
    Quotient(0, w.c.Period(), 0, 0);
    forall k | Eligible(tx, rx, maxK, k)
      ensures Correlation(tx, rx, k) <= Correlation(tx, rx, w.delay)
      ensures k < w.delay ==> Correlation(tx, rx, k) < Correlation(tx, rx, w.delay)
    {
      CorrelationCounts(w, k);
      DelayBeats(w, k);
      var x, y := Both(w.c, Shift(w, k), Counted(w, k)), Both(w.c, 0, Counted(w, w.delay));
      assert y as real * u - x as real * u == (y - x) as real * u;
    }
    FirstBestUnique(tx, rx, maxK, w.delay, b);
  }
}
