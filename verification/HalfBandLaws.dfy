/** Laws of the mode-1 converters: capacity, and how an input may be cut into calls. */
module HalfBandLaws {
  import opened FixedPoint
  import opened Framing
  import opened HalfBand
  import opened HalfBandMeaning

  // ---------------------------------------------------------- capacity

  /** With room for its outputs a call uses the whole of its input. */
  lemma RoomForAll(d: Delays, xs: seq<int>, capacity: nat)
    requires d.Valid()
    ensures 4 * |xs| <= capacity ==> UpCall(d, xs, capacity) == (UpRun(d, xs).0, UpRun(d, xs).1, 4 * |xs|)
    ensures |xs| <= 4 * capacity ==> DownCall(d, xs, capacity) == (DownRun(d, xs).0, DownRun(d, xs).1, Groups(|xs|))
  {
    hide UpRun, DownRun;
    assert xs[..|xs|] == xs;
    assert 4 * |xs| <= capacity ==> |xs| <= (capacity + 3) / 4;
  }

  lemma {:induction false} DownRunGrows(d: Delays, xs: seq<int>, i: nat)
    requires d.Valid() && i <= |xs|
    ensures DownRun(d, xs[..i]).1 <= DownRun(d, xs).1
    decreases |xs|
  {
    hide DownStep, Second, Fourth, Groups;
    if i < |xs| {
      DownRunGrows(d, xs[..|xs| - 1], i);
      assert xs[..|xs| - 1][..i] == xs[..i];
    } else {
      assert xs[..i] == xs;
    }
  }

  lemma {:induction false} UpRunGrows(d: Delays, xs: seq<int>, i: nat)
    requires d.Valid() && i <= |xs|
    ensures UpRun(d, xs[..i]).1 <= UpRun(d, xs).1
    decreases |xs|
  {
    hide UpStep;
    if i < |xs| {
      UpRunGrows(d, xs[..|xs| - 1], i);
      assert xs[..|xs| - 1][..i] == xs[..i];
    } else {
      assert xs[..i] == xs;
    }
  }

  /** What a call returns is the start of what its input gives with room for all: all of
      it, or as much as the capacity. */
  lemma CallGivesStart(d: Delays, xs: seq<int>, capacity: nat)
    requires d.Valid()
    ensures DownCall(d, xs, capacity).1 <= DownRun(d, xs).1
    ensures |DownCall(d, xs, capacity).1| == if |xs| / 4 <= capacity then |xs| / 4 else capacity
    ensures UpCall(d, xs, capacity).1 <= UpRun(d, xs).1
    ensures |UpCall(d, xs, capacity).1| == if 4 * |xs| <= capacity then 4 * |xs| else capacity
  {
    hide DownRun, UpRun;
    DownRunGrows(d, xs, DownRead(|xs|, capacity));
    var groups := (capacity + 3) / 4;
    UpRunGrows(d, xs, if |xs| < groups then |xs| else groups);
    assert xs[..|xs|] == xs;
  }

  // ---------------------------------------------------------- cutting calls

  ghost function UpCalls(d: Delays, calls: seq<seq<int>>): (Delays, seq<int>)
    requires d.Valid()
    decreases |calls|
  {
    if calls == [] then (d, []) else
      var (e, out) := UpRun(d, calls[0]);
      var (f, rest) := UpCalls(e, calls[1..]);
      (f, out + rest)
  }

  ghost function DownCalls(d: Delays, calls: seq<seq<int>>): (Delays, seq<int>)
    requires d.Valid()
    decreases |calls|
  {
    if calls == [] then (d, []) else
      var (e, out) := DownRun(d, calls[0]);
      var (f, rest) := DownCalls(e, calls[1..]);
      (f, out + rest)
  }

  lemma {:induction false} UpRunSplits(d: Delays, xs: seq<int>, ys: seq<int>)
    requires d.Valid()
    ensures var e := UpRun(d, xs).0;
      UpRun(d, xs + ys) == (UpRun(e, ys).0, UpRun(d, xs).1 + UpRun(e, ys).1)
    decreases |ys|
  {
    hide UpStep, Fir;
    if ys == [] {
      var e := UpRun(d, xs).0;
      assert xs + ys == xs && UpRun(e, ys) == (e, []);
      assert UpRun(d, xs).1 + [] == UpRun(d, xs).1;
    } else {
      var n, e := |ys| - 1, UpRun(d, xs).0;
      UpRunSplits(d, xs, ys[..n]);
      assert (xs + ys)[..|xs| + n] == xs + ys[..n];
      assert ys[..n + 1] == ys && (xs + ys)[..|xs| + n + 1] == xs + ys;
      UpRunNext(d, xs + ys, |xs| + n);
      UpRunNext(e, ys, n);
      hide UpRun;
      var out, rest, y := UpRun(d, xs).1, UpRun(e, ys[..n]).1, UpStep(UpRun(e, ys[..n]).0, ys[n]).1;
      assert (out + rest) + y == out + (rest + y);
    }
  }

  lemma {:induction false} DownRunSplits(d: Delays, xs: seq<int>, ys: seq<int>)
    requires d.Valid() && |xs| % 4 == 0
    ensures var e := DownRun(d, xs).0;
      DownRun(d, xs + ys) == (DownRun(e, ys).0, DownRun(d, xs).1 + DownRun(e, ys).1)
    decreases |ys|
  {
    hide DownStep, Fir, Second, Fourth, Groups;
    if ys == [] {
      var e := DownRun(d, xs).0;
      assert xs + ys == xs && DownRun(e, ys) == (e, []);
      assert DownRun(d, xs).1 + [] == DownRun(d, xs).1;
    } else {
      var n, e := |ys| - 1, DownRun(d, xs).0;
      DownRunSplits(d, xs, ys[..n]);
      assert (xs + ys)[..|xs| + n] == xs + ys[..n];
      assert ys[..n + 1] == ys && (xs + ys)[..|xs| + n + 1] == xs + ys;
      DownRunNext(d, xs + ys, |xs| + n);
      DownRunNext(e, ys, n);
      DigitsRepeat(|xs|, n);
      hide DownRun;
      var out := DownRun(d, xs).1;
      var (f, rest) := DownRun(e, ys[..n]);
      var y := DownStep(f, Second(n), Fourth(n), ys[n]).1;
      assert (out + rest) + y == out + (rest + y);
    }
  }

  lemma DigitsRepeat(m: nat, n: nat)
    requires m % 4 == 0
    ensures Second(m + n) == Second(n) && Fourth(m + n) == Fourth(n)
  {
    var q := m / 4;
    assert m + n == 4 * q + n && (4 * q + n) / 2 == 2 * q + n / 2;
  }

  lemma {:induction false} UpCallsJoin(d: Delays, calls: seq<seq<int>>)
    requires d.Valid()
    ensures UpCalls(d, calls) == UpRun(d, Flatten(calls))
    decreases |calls|
  {
    if calls != [] {
      UpCallsJoin(UpRun(d, calls[0]).0, calls[1..]);
      UpRunSplits(d, calls[0], Flatten(calls[1..]));
    }
  }

  lemma {:induction false} DownCallsJoin(d: Delays, calls: seq<seq<int>>)
    requires d.Valid() && forall i :: 0 <= i < |calls| ==> |calls[i]| % 4 == 0
    ensures DownCalls(d, calls) == DownRun(d, Flatten(calls))
    decreases |calls|
  {
    if calls != [] {
      DownCallsJoin(DownRun(d, calls[0]).0, calls[1..]);
      DownRunSplits(d, calls[0], Flatten(calls[1..]));
    }
  }

  /** The upsampler is its composition of filters under every cutting into calls. */
  lemma UpsamplerRefines(calls: seq<seq<int>>)
    ensures UpCalls(Silent, calls) == (UpDelays(Flatten(calls)), Upsampled(Flatten(calls)))
  {
    UpCallsJoin(Silent, calls);
    UpRefines(Flatten(calls));
  }

  /** The downsampler is its composition of filters under every cutting into calls
      whose lengths are multiples of four. */
  lemma DownsamplerRefines(calls: seq<seq<int>>)
    requires forall i :: 0 <= i < |calls| ==> |calls[i]| % 4 == 0
    ensures DownCalls(Silent, calls) == (DownDelays(Flatten(calls)), Downsampled(Flatten(calls)))
  {
    DownCallsJoin(Silent, calls);
    DownRefines(Flatten(calls));
  }

  // ------------------------------------- which cuts the downsampler forgives

  ghost predicate CutHarmless(p: nat, q: nat) {
    forall xs: seq<int>, ys: seq<int> :: |xs| == p && |ys| == q ==> SameWhenCut(xs, ys)
  }

  ghost predicate SameWhenCut(xs: seq<int>, ys: seq<int>) {
    DownCalls(Silent, [xs, ys]) == DownRun(Silent, xs + ys)
  }

  lemma TwoCalls(d: Delays, xs: seq<int>, ys: seq<int>)
    requires d.Valid()
    ensures var (e, out) := DownRun(d, xs);
      var (f, rest) := DownRun(e, ys);
      DownCalls(d, [xs, ys]) == (f, out + rest)
  {
    var e := DownRun(d, xs).0;
    assert [xs, ys][1..] == [ys] && [ys][1..] == [];
    var (f, rest) := DownRun(e, ys);
    assert DownCalls(f, []) == (f, []);
    assert DownCalls(e, [ys]) == (f, rest + []);
    assert rest + [] == rest;
  }

  lemma SilentStep(second: bool, fourth: bool)
    ensures DownStep(Silent, second, fourth, 0).0 == Silent
  {
    MacSingle(B2, Zeros(15), 15, 15);
    MacSingle(B1, Zeros(87), 87, 87);
    assert Push(Zeros(15), 0) == Zeros(15) && Push(Zeros(87), 0) == Zeros(87) && Push(Zeros(3), 0) == Zeros(3);
  }

  lemma {:induction false} SilenceStays(n: nat)
    ensures DownRun(Silent, Zeros(n)).0 == Silent
  {
    if n > 0 {
      SilenceStays(n - 1);
      assert Zeros(n)[..n - 1] == Zeros(n - 1);
      SilentStep(Second(n - 1), Fourth(n - 1));
    }
  }

  /** The loudest negative sample after silence: how far it is felt at once. */
  lemma ClickAfterSilence(second: bool, fourth: bool)
    ensures var d := DownStep(Silent, second, fourth, -0x8000).0;
      && d.d2 == Push(Zeros(15), -0x4000)
      && d.d1 == (if second then Push(Zeros(87), 52) else Zeros(87))
      && d.h == if second && fourth then Push(Zeros(3), -1) else Zeros(3)
  {
    var w2, w1 := Push(Zeros(15), -0x4000), Push(Zeros(87), 52);
    MacSingle(B2, w2, 15, 0);
    MacSingle(B1, w1, 87, 0);
    assert B2_RISE[0] == -104 && B1_RISE[0] == -5;
    assert B2[0] == -104 && B1[0] == -5;
  }

  const CLICK := -0x8000

  function Clicked(n: nat): Delays {
    DownStep(Silent, Second(n), Fourth(n), CLICK).0
  }

  lemma ClickLast(n: nat)
    ensures DownRun(Silent, Zeros(n) + [CLICK]).0 == Clicked(n)
  {
    hide DownStep;
    var x := Zeros(n) + [CLICK];
    SilenceStays(n);
    assert x[..n] == Zeros(n) && x[..n + 1] == x;
    DownRunNext(Silent, x, n);
  }

  lemma ClickThenSilence(n: nat)
    requires Second(n)
    ensures DownRun(Silent, Zeros(n) + [CLICK] + [0]).0.h == Clicked(n).h
  {
    hide DownRun, Fir, Clicked;
    var x := Zeros(n) + [CLICK];
    var y := x + [0];
    ClickLast(n);
    assert y[..n + 1] == x && y[..n + 2] == y;
    Counters(n);
    DownRunNext(Silent, y, n + 1);
  }

  lemma ClicksDiffer(p: nat, n: nat)
    ensures p % 2 == 1 ==> Clicked(p + n).d1 != Clicked(n).d1
    ensures p % 4 == 2 && Second(n) ==> Clicked(p + n).h != Clicked(n).h
  {
    ClickAfterSilence(Second(n), Fourth(n));
    ClickAfterSilence(Second(p + n), Fourth(p + n));
    CutDigits(p, n);
    hide DownStep, Second, Fourth;
    assert Push(Zeros(87), 52)[0] == 52 && Push(Zeros(3), -1)[0] == -1;
  }

  /** A first call of p samples from silence that spoils what q more samples give. */
  lemma HarmfulCut(p: nat, q: nat) returns (xs: seq<int>, ys: seq<int>)
    requires (p % 2 == 1 && q > 0) || (p % 4 == 2 && q > 1)
    ensures |xs| == p && |ys| == q && !SameWhenCut(xs, ys)
  {
    hide DownRun, Clicked, Second, Fourth;
    xs := Zeros(p);
    SilenceStays(p);
    CutDigits(p, q - 1);
    if p % 2 == 1 || Second(q - 1) {
      ys := Zeros(q - 1) + [CLICK];
      assert xs + ys == Zeros(p + (q - 1)) + [CLICK];
      ClickLast(q - 1);
      ClickLast(p + (q - 1));
      ClicksDiffer(p, q - 1);
    } else {
      var n := q - 2;
      Counters(n);
      CutDigits(p, n);
      ys := Zeros(n) + [CLICK] + [0];
      assert xs + ys == Zeros(p + n) + [CLICK] + [0];
      ClickThenSilence(n);
      ClickThenSilence(p + n);
      ClicksDiffer(p, n);
    }
    TwoCalls(Silent, xs, ys);
  }

  lemma CutDigits(p: nat, n: nat)
    ensures p % 2 == 1 ==> Second(p + n) != Second(n)
    ensures p % 4 == 2 ==> Second(p + n) == Second(n) && Fourth(p + n) != Fourth(n)
  {
    var k := p / 2;
    if p % 4 == 2 {
      assert p + n == 2 * k + n && (p + n) / 2 == k + n / 2 && k % 2 == 1;
    }
  }

  /** Cutting q samples off after the first p changes nothing, whatever the samples,
      in exactly these cases. */
  lemma CutHarmlessIff(p: nat, q: nat)
    ensures CutHarmless(p, q) <==> p % 4 == 0 || q == 0 || (p % 4 == 2 && q == 1)
  {
    hide SameWhenCut;
    if p % 4 == 0 || q == 0 || (p % 4 == 2 && q == 1) {
      forall xs: seq<int>, ys: seq<int> | |xs| == p && |ys| == q
        ensures SameWhenCut(xs, ys)
      {
        HarmlessCut(xs, ys);
      }
    } else {
      var xs, ys := HarmfulCut(p, q);
    }
  }

  lemma HarmlessCut(xs: seq<int>, ys: seq<int>)
    requires |xs| % 4 == 0 || |ys| == 0 || (|xs| % 4 == 2 && |ys| == 1)
    ensures SameWhenCut(xs, ys)
  {
    TwoCalls(Silent, xs, ys);
    hide DownStep;
    if |xs| % 4 == 0 {
      DownRunSplits(Silent, xs, ys);
    } else if |ys| == 0 {
      assert xs + ys == xs;
      var (e, out) := DownRun(Silent, xs);
      assert ys == [] && DownRun(e, []) == (e, []) && out + [] == out;
    } else {
      var n := |xs|;
      assert (xs + ys)[..n] == xs && (xs + ys)[..n + 1] == xs + ys && ys[..0] == [] && ys[..1] == ys;
      assert DownRun(DownRun(Silent, xs).0, []) == (DownRun(Silent, xs).0, []);
      CutDigits(n, 0);
      DownRunNext(Silent, xs + ys, n);
      DownRunNext(DownRun(Silent, xs).0, ys, 0);
      FirstOfPair(DownRun(Silent, xs).0, Fourth(n), Fourth(0), ys[0]);
    }
  }

  lemma FirstOfPair(d: Delays, fourth: bool, fourth': bool, x: int)
    requires d.Valid()
    ensures DownStep(d, false, fourth, x) == DownStep(d, false, fourth', x)
  {}
}
