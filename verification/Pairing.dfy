/** Pairing of transmitted and received bursts: greedy nearest match within a margin,
    and why, for bursts a period apart, nothing does better. */
module Pairing {
  import opened FixedPoint
  import opened Detector
  import opened IdealRecording
  import opened Delay

  datatype Match = Missing | Paired(index: nat)

  function Distance(a: int, b: int): nat { if a >= b then a - b else b - a }

  predicate Within(rx: seq<int>, j: nat, expected: int, margin: int) {
    j < |rx| && Distance(rx[j], expected) <= margin
  }

  predicate Used(rows: seq<Match>, j: nat) {
    Paired(j) in rows
  }

  /** Of the unused bursts within the margin, the first of the nearest. */
  ghost predicate Nearest(rx: seq<int>, rows: seq<Match>, expected: int, margin: int, choice: Match) {
    match choice
    case Missing => forall j: nat :: Within(rx, j, expected, margin) ==> Used(rows, j)
    case Paired(c) =>
      && Within(rx, c, expected, margin) && !Used(rows, c)
      && forall j: nat :: Within(rx, j, expected, margin) && !Used(rows, j) ==>
        && Distance(rx[c], expected) <= Distance(rx[j], expected)
        && (j < c ==> Distance(rx[c], expected) < Distance(rx[j], expected))
  }

  ghost predicate Greedy(tx: seq<int>, rx: seq<int>, delay: int, margin: int, rows: seq<Match>) {
    |rows| == |tx| && forall i :: 0 <= i < |rows| ==> Nearest(rx, rows[..i], tx[i] + delay, margin, rows[i])
  }

  function MissingIn(rows: seq<Match>): nat {
    if rows == [] then 0 else MissingIn(rows[..|rows| - 1]) + if rows[|rows| - 1].Missing? then 1 else 0
  }

  function MissingRows(rows: seq<Match>): set<int> {
    set i | 0 <= i < |rows| && rows[i].Missing?
  }

  lemma {:induction false} MissingCounts(rows: seq<Match>)
    ensures MissingIn(rows) == |MissingRows(rows)|
  {
    if rows == [] {
      assert MissingRows(rows) == {};
    } else {
      var n := |rows| - 1;
      MissingCounts(rows[..n]);
      assert n !in MissingRows(rows[..n]);
      assert MissingRows(rows) == if rows[n].Missing? then MissingRows(rows[..n]) + {n} else MissingRows(rows[..n]);
    }
  }

  method NearestUnused(rx: seq<int>, used: seq<bool>, ghost rows: seq<Match>, expected: int, margin: int)
    returns (choice: Match)
    requires |used| == |rx| && forall j :: 0 <= j < |used| ==> used[j] == Used(rows, j)
    ensures Nearest(rx, rows, expected, margin, choice)
  {
    choice := Missing;
    for j := 0 to |rx|
      invariant choice.Missing? ==> forall k: nat :: k < j && Within(rx, k, expected, margin) ==> Used(rows, k)
      invariant choice.Paired? ==> choice.index < j && Within(rx, choice.index, expected, margin)
      invariant choice.Paired? ==> !Used(rows, choice.index)
      invariant choice.Paired? ==> forall k: nat :: k < j && Within(rx, k, expected, margin) && !Used(rows, k) ==>
        Distance(rx[choice.index], expected) <= Distance(rx[k], expected)
        && (k < choice.index ==> Distance(rx[choice.index], expected) < Distance(rx[k], expected))
    {
      if !used[j] && Distance(rx[j], expected) <= margin {
        if choice.Missing? || Distance(rx[j], expected) < Distance(rx[choice.index], expected) {
          choice := Paired(j);
        }
      }
    }
  }

  method PairBursts(tx: seq<int>, rx: seq<int>, delay: int, margin: int) returns (rows: seq<Match>, missed: nat)
    ensures Greedy(tx, rx, delay, margin, rows) && missed == MissingIn(rows)
  {
    rows, missed := [], 0;
    var used := seq(|rx|, _ => false);
    for i := 0 to |tx|
      invariant |rows| == i && missed == MissingIn(rows) && |used| == |rx|
      invariant forall j :: 0 <= j < |used| ==> used[j] == Used(rows, j)
      invariant forall k :: 0 <= k < i ==> Nearest(rx, rows[..k], tx[k] + delay, margin, rows[k])
    {
      hide Nearest;
      ghost var before := rows;
      var choice := NearestUnused(rx, used, rows, tx[i] + delay, margin);
      ChoiceInRange(rx, rows, tx[i] + delay, margin, choice);
      rows := rows + [choice];
      assert rows[..i] == before;
      assert forall k :: 0 <= k < i ==> rows[..k] == before[..k];
      if choice.Paired? {
        used := used[choice.index := true];
      } else {
        missed := missed + 1;
      }
    }
  }

  lemma ChoiceInRange(rx: seq<int>, rows: seq<Match>, expected: int, margin: int, choice: Match)
    requires Nearest(rx, rows, expected, margin, choice)
    ensures choice.Paired? ==> choice.index < |rx|
  {}

  // ---------------------------------------------------------- spaced bursts

  ghost predicate Spaced(bursts: seq<int>, period: int) {
    forall i, j :: 0 <= i < j < |bursts| ==> bursts[i] + period <= bursts[j]
  }

  /** Peaks that are a period apart pairwise from neighbours are so altogether. */
  lemma {:induction false} SpacedFromNeighbours(bursts: seq<int>, period: int)
    requires period >= 0 && forall i :: 0 < i < |bursts| ==> bursts[i - 1] + period <= bursts[i]
    ensures Spaced(bursts, period)
  {
    if bursts != [] {
      var n := |bursts| - 1;
      SpacedFromNeighbours(bursts[..n], period);
      assert forall i :: 0 <= i < n ==> bursts[..n][i] == bursts[i];
      if n > 0 {
        assert bursts[n - 1] + period <= bursts[n];
      }
    }
  }

  /** Margins of less than half the spacing: no two received bursts suit one
      transmitted burst, and no two transmitted bursts suit one received. */
  lemma AtMostOne(tx: seq<int>, rx: seq<int>, delay: int, spacing: int, margin: int, i: nat, i': nat, j: nat, j': nat)
    requires Spaced(tx, spacing) && Spaced(rx, spacing) && 2 * margin < spacing
    requires i < |tx| && i' < |tx| && Within(rx, j, tx[i] + delay, margin) && Within(rx, j', tx[i'] + delay, margin)
    ensures i == i' <==> j == j'
    ensures i < i' <==> j < j'
  {}

  // ---------------------------------------------------------- whole windows

  ghost predicate OnGrid(bursts: seq<int>) {
    forall i :: 0 <= i < |bursts| ==> bursts[i] % WINDOW_MS == 0
  }

  /** A margin, rounded down to whole windows. */
  function Rounded(margin: nat): nat {
    margin / WINDOW_MS * WINDOW_MS
  }

  lemma WholeWindows(distance: nat, margin: nat)
    requires distance % WINDOW_MS == 0
    ensures distance <= margin <==> distance <= Rounded(margin)
  {
    assert margin == Rounded(margin) + margin % WINDOW_MS && distance == Rounded(distance);
  }

  lemma WholeDistance(a: int, b: int)
    requires a % WINDOW_MS == 0 && b % WINDOW_MS == 0
    ensures Distance(a, b) % WINDOW_MS == 0
  {}

  ghost predicate SameWithin(rx: seq<int>, expected: int, a: int, b: int) {
    forall j: nat :: Within(rx, j, expected, a) <==> Within(rx, j, expected, b)
  }

  /** Between whole windows only the whole windows of a margin count. */
  lemma WithinRounded(rx: seq<int>, expected: int, margin: nat)
    requires OnGrid(rx) && expected % WINDOW_MS == 0
    ensures SameWithin(rx, expected, margin, Rounded(margin))
  {
    hide Rounded, Distance;
    forall j: nat
      ensures Within(rx, j, expected, margin) <==> Within(rx, j, expected, Rounded(margin))
    {
      if j < |rx| {
        WholeDistance(rx[j], expected);
        WholeWindows(Distance(rx[j], expected), margin);
      }
    }
  }

  lemma NearestRounded(rx: seq<int>, rows: seq<Match>, expected: int, margin: nat, choice: Match)
    requires OnGrid(rx) && expected % WINDOW_MS == 0 && Nearest(rx, rows, expected, margin, choice)
    ensures Nearest(rx, rows, expected, Rounded(margin), choice)
  {
    hide Within, OnGrid, Rounded;
    WithinRounded(rx, expected, margin);
  }

  lemma GreedyRounded(tx: seq<int>, rx: seq<int>, delay: int, margin: nat, rows: seq<Match>)
    requires OnGrid(tx) && OnGrid(rx) && delay % WINDOW_MS == 0 && Greedy(tx, rx, delay, margin, rows)
    ensures Greedy(tx, rx, delay, Rounded(margin), rows)
  {
    hide Nearest, Rounded;
    forall i | 0 <= i < |rows|
      ensures Nearest(rx, rows[..i], tx[i] + delay, Rounded(margin), rows[i])
    {
      NearestRounded(rx, rows[..i], tx[i] + delay, margin, rows[i]);
    }
  }

  /** Once the whole windows of the margin reach half the spacing there are bursts of
      that spacing to choose between. */
  lemma WiderIsAmbiguous(spacing: int, margin: nat, delay: int) returns (tx: seq<int>, rx: seq<int>)
    requires 0 < spacing <= 2 * Rounded(margin) && spacing % WINDOW_MS == 0 && delay % WINDOW_MS == 0
    ensures Spaced(tx, spacing) && Spaced(rx, spacing) && |tx| == 1 && |rx| == 2
    ensures OnGrid(tx) && OnGrid(rx) && 0 <= tx[0] && 0 <= rx[0]
    ensures Within(rx, 0, tx[0] + delay, margin) && Within(rx, 1, tx[0] + delay, margin)
  {
    hide Rounded;
    var m := Rounded(margin);
    RoundedWhole(margin);
    var t := m + if delay < 0 then -delay else 0;
    WholeSum(m, delay);
    WholeSum(t + delay - m, spacing);
    tx, rx := [t], [t + delay - m, t + delay - m + spacing];
  }

  lemma RoundedWhole(margin: nat)
    ensures Rounded(margin) % WINDOW_MS == 0 && 0 <= Rounded(margin) <= margin
  {
    Quotient(Rounded(margin), WINDOW_MS, margin / WINDOW_MS, 0);
  }

  lemma WholeSum(a: int, b: int)
    requires a % WINDOW_MS == 0 && b % WINDOW_MS == 0
    ensures (a + b) % WINDOW_MS == 0 && (a - b) % WINDOW_MS == 0
  {
    var p, q := a / WINDOW_MS, b / WINDOW_MS;
    Quotient(a + b, WINDOW_MS, p + q, 0);
    Quotient(a - b, WINDOW_MS, p - q, 0);
  }

  // ---------------------------------------------------------- forced pairs

  /** Every transmitted burst is paired exactly with the received burst within its
      margin, if there is one: the greedy choice is forced. */
  lemma {:induction false} PairingForced(tx: seq<int>, rx: seq<int>, delay: int, spacing: int, margin: int,
                                         rows: seq<Match>, i: nat, j: nat)
    requires Spaced(tx, spacing) && Spaced(rx, spacing) && 2 * margin < spacing
    requires Greedy(tx, rx, delay, margin, rows) && i < |tx|
    ensures rows[i] == Paired(j) <==> Within(rx, j, tx[i] + delay, margin)
  {
    assert Nearest(rx, rows[..i], tx[i] + delay, margin, rows[i]);
    if Within(rx, j, tx[i] + delay, margin) {
      NotUsedBefore(tx, rx, delay, spacing, margin, rows, i, j);
      AtMostOne(tx, rx, delay, spacing, margin, i, i, rows[i].index, j);
    }
  }

  lemma {:induction false} NotUsedBefore(tx: seq<int>, rx: seq<int>, delay: int, spacing: int, margin: int,
                                         rows: seq<Match>, i: nat, j: nat)
    requires Spaced(tx, spacing) && Spaced(rx, spacing) && 2 * margin < spacing
    requires Greedy(tx, rx, delay, margin, rows) && i < |tx| && Within(rx, j, tx[i] + delay, margin)
    ensures !Used(rows[..i], j)
  {
    forall k | 0 <= k < i
      ensures rows[..i][k] != Paired(j)
    {
      assert Nearest(rx, rows[..k], tx[k] + delay, margin, rows[k]);
    }
  }

  /** No received burst is used twice, and pairs are in order. */
  lemma PairingInOrder(tx: seq<int>, rx: seq<int>, delay: int, spacing: int, margin: int, rows: seq<Match>,
                       i: nat, i': nat)
    requires Spaced(tx, spacing) && Spaced(rx, spacing) && 2 * margin < spacing
    requires Greedy(tx, rx, delay, margin, rows) && i < i' < |tx| && rows[i].Paired? && rows[i'].Paired?
    ensures rows[i].index < rows[i'].index
  {
    PairingForced(tx, rx, delay, spacing, margin, rows, i, rows[i].index);
    PairingForced(tx, rx, delay, spacing, margin, rows, i', rows[i'].index);
    AtMostOne(tx, rx, delay, spacing, margin, i, i', rows[i].index, rows[i'].index);
  }

  ghost predicate WithinMargin(tx: seq<int>, rx: seq<int>, delay: int, margin: int, rows: seq<Match>) {
    |rows| == |tx|
    && forall i :: 0 <= i < |rows| && rows[i].Paired? ==> Within(rx, rows[i].index, tx[i] + delay, margin)
  }

  /** Any other pairing within the margins, whatever it reuses, leaves at least as
      many bursts missing. */
  lemma PairingMaximum(tx: seq<int>, rx: seq<int>, delay: int, spacing: int, margin: int, rows: seq<Match>,
                       other: seq<Match>)
    requires Spaced(tx, spacing) && Spaced(rx, spacing) && 2 * margin < spacing
    requires Greedy(tx, rx, delay, margin, rows) && WithinMargin(tx, rx, delay, margin, other)
    ensures MissingIn(rows) <= MissingIn(other)
  {
    forall i | 0 <= i < |rows| && other[i].Paired?
      ensures rows[i].Paired?
    {
      PairingForced(tx, rx, delay, spacing, margin, rows, i, other[i].index);
    }
    FewerMissing(rows, other);
  }

  lemma {:induction false} FewerMissing(a: seq<Match>, b: seq<Match>)
    requires |a| == |b| && forall i :: 0 <= i < |a| && b[i].Paired? ==> a[i].Paired?
    ensures MissingIn(a) <= MissingIn(b)
  {
    if a != [] {
      FewerMissing(a[..|a| - 1], b[..|b| - 1]);
    }
  }

  /** Bursts detected in any recording are that far apart. */
  lemma DetectedIsSpaced(powers: seq<real>, c: Cadence)
    requires c.Valid()
    ensures Spaced(InMs(Detected(powers, c.ons, c.offs)), c.Period() * WINDOW_MS)
  {
    hide Peaks;
    if Detected(powers, c.ons, c.offs) != [] {
      var s := Scores(powers, c.ons, c.offs);
      PeaksSpaced(s, MaxOf(s) * 0.25, c.Period(), 0);
    }
    hide Detected;
    SpacedFromNeighbours(InMs(Detected(powers, c.ons, c.offs)), c.Period() * WINDOW_MS);
  }

  /** There is nothing to choose, no burst is used twice or out of order, and no other
      pairing leaves fewer missing. */
  ghost predicate BestPairing(tx: seq<int>, rx: seq<int>, delay: int, margin: int, rows: seq<Match>) {
    && |rows| == |tx|
    && (forall i, j: nat :: 0 <= i < |tx| ==> (rows[i] == Paired(j) <==> Within(rx, j, tx[i] + delay, margin)))
    && (forall i, i' :: 0 <= i < i' < |tx| && rows[i].Paired? && rows[i'].Paired? ==> rows[i].index < rows[i'].index)
    && (forall other :: WithinMargin(tx, rx, delay, margin, other) ==> MissingIn(rows) <= MissingIn(other))
  }

  lemma SpacedPairsBest(tx: seq<int>, rx: seq<int>, delay: int, spacing: int, margin: int, rows: seq<Match>)
    requires Spaced(tx, spacing) && Spaced(rx, spacing) && 2 * margin < spacing
    requires Greedy(tx, rx, delay, margin, rows)
    ensures BestPairing(tx, rx, delay, margin, rows)
  {
    hide Spaced, Greedy, Within, WithinMargin, MissingIn;
    assert |rows| == |tx| by { GreedyLength(tx, rx, delay, margin, rows); }
    forall i, j: nat | 0 <= i < |tx|
      ensures rows[i] == Paired(j) <==> Within(rx, j, tx[i] + delay, margin)
    {
      PairingForced(tx, rx, delay, spacing, margin, rows, i, j);
    }
    forall i, i' | 0 <= i < i' < |tx| && rows[i].Paired? && rows[i'].Paired?
      ensures rows[i].index < rows[i'].index
    {
      PairingInOrder(tx, rx, delay, spacing, margin, rows, i, i');
    }
    forall other | WithinMargin(tx, rx, delay, margin, other)
      ensures MissingIn(rows) <= MissingIn(other)
    {
      PairingMaximum(tx, rx, delay, spacing, margin, rows, other);
    }
  }

  lemma GreedyLength(tx: seq<int>, rx: seq<int>, delay: int, margin: int, rows: seq<Match>)
    requires Greedy(tx, rx, delay, margin, rows)
    ensures |rows| == |tx|
  {}

  lemma BestPairingUnrounds(tx: seq<int>, rx: seq<int>, delay: int, margin: nat, rows: seq<Match>)
    requires OnGrid(tx) && OnGrid(rx) && delay % WINDOW_MS == 0
    requires BestPairing(tx, rx, delay, Rounded(margin), rows)
    ensures BestPairing(tx, rx, delay, margin, rows)
  {
    hide Within, Rounded;
    forall i | 0 <= i < |tx|
      ensures SameWithin(rx, tx[i] + delay, margin, Rounded(margin))
    {
      WithinRounded(rx, tx[i] + delay, margin);
    }
    assert forall other ::
      WithinMargin(tx, rx, delay, margin, other) ==> WithinMargin(tx, rx, delay, Rounded(margin), other);
  }

  /** Whatever was recorded, the bursts detected are paired so, as long as the whole
      windows of the margin are less than half the spacing. */
  lemma RecordingPairs(txPowers: seq<real>, rxPowers: seq<real>, c: Cadence, delay: int, margin: nat, rows: seq<Match>)
    requires c.Valid() && delay % WINDOW_MS == 0 && 2 * Rounded(margin) < c.Period() * WINDOW_MS
    requires Greedy(InMs(Detected(txPowers, c.ons, c.offs)), InMs(Detected(rxPowers, c.ons, c.offs)),
                    delay, margin, rows)
    ensures BestPairing(InMs(Detected(txPowers, c.ons, c.offs)), InMs(Detected(rxPowers, c.ons, c.offs)),
                        delay, margin, rows)
  {
    hide Detected, Greedy, BestPairing, Spaced, Rounded, OnGrid;
    var tx, rx := InMs(Detected(txPowers, c.ons, c.offs)), InMs(Detected(rxPowers, c.ons, c.offs));
    DetectedIsSpaced(txPowers, c);
    DetectedIsSpaced(rxPowers, c);
    InMsOnGrid(Detected(txPowers, c.ons, c.offs));
    InMsOnGrid(Detected(rxPowers, c.ons, c.offs));
    GreedyRounded(tx, rx, delay, margin, rows);
    SpacedPairsBest(tx, rx, delay, c.Period() * WINDOW_MS, Rounded(margin), rows);
    BestPairingUnrounds(tx, rx, delay, margin, rows);
  }

  /** Detected onsets are whole windows. */
  lemma InMsOnGrid(windows: seq<nat>)
    ensures OnGrid(InMs(windows))
  {}

  // ---------------------------------------------------------- the ideal pair

  lemma OnsetsInMs(c: Cadence, lead: nat, m: nat)
    requires c.Valid()
    ensures var b := InMs(Onsets(c, lead, 0, m));
      && |b| == m && Spaced(b, c.Period() * WINDOW_MS)
      && forall k :: 0 <= k < m ==> b[k] == Onset(c, lead, k) * WINDOW_MS
  {
    var b := InMs(Onsets(c, lead, 0, m));
    forall i, j | 0 <= i < j < m
      ensures b[i] + c.Period() * WINDOW_MS <= b[j]
    {
      OnsetNext(c, lead, i);
      OnsetMonotone(c, lead, i + 1, j);
    }
  }

  /** The whole analysis, on an ideal pair: every burst detected on both sides, the
      delay estimated exactly, burst k paired with burst k, none missing. */
  lemma AnalysisExact(w: Pair, maxMs: nat, delay: int, rows: seq<Match>)
    requires w.Valid() && w.Length() - w.delay >= 50 && w.delay <= maxMs / WINDOW_MS
    requires delay % WINDOW_MS == 0 && FirstBest(w.Tx(), w.Rx(), maxMs / WINDOW_MS, delay / WINDOW_MS)
    requires Greedy(InMs(Detected(w.Tx(), w.c.ons, w.c.offs)), InMs(Detected(w.Rx(), w.c.ons, w.c.offs)), delay,
                    w.c.Period() * WINDOW_MS / 3, rows)
    ensures var tx, rx := InMs(Detected(w.Tx(), w.c.ons, w.c.offs)), InMs(Detected(w.Rx(), w.c.ons, w.c.offs));
      && delay == w.delay * WINDOW_MS && |tx| == |rx| == |rows| == w.m && MissingIn(rows) == 0
      && forall k :: 0 <= k < w.m ==> rows[k] == Paired(k) && rx[k] - tx[k] == delay
  {
    hide FirstBest, Detected, Recording, Greedy, Onsets, InMs, MissingIn;
    EstimateIsDelay(w, maxMs / WINDOW_MS, delay / WINDOW_MS);
    DetectsExactly(w.c, w.m, w.txPower, 0, 0);
    DetectsExactly(w.c, w.m, w.rxPower, w.delay, w.tail);
    OnsetsInMs(w.c, 0, w.m);
    OnsetsInMs(w.c, w.delay, w.m);
    var tx, rx := InMs(Onsets(w.c, 0, 0, w.m)), InMs(Onsets(w.c, w.delay, 0, w.m));
    GreedyLength(tx, rx, delay, w.c.Period() * WINDOW_MS / 3, rows);
    forall k | 0 <= k < w.m
      ensures rows[k] == Paired(k) && rx[k] - tx[k] == delay
    {
      PairingForced(tx, rx, delay, w.c.Period() * WINDOW_MS, w.c.Period() * WINDOW_MS / 3, rows, k, k);
    }
    NoneMissing(rows);
  }

  lemma {:induction false} NoneMissing(rows: seq<Match>)
    requires forall i :: 0 <= i < |rows| ==> rows[i].Paired?
    ensures MissingIn(rows) == 0
  {
    if rows != [] {
      NoneMissing(rows[..|rows| - 1]);
    }
  }
}
