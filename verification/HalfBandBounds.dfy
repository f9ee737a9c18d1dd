/** What the half-band tables give: the odd phases of the upsampler, and room in 32
    bits for every accumulator and scaled product of both cascades. */
module HalfBandBounds {
  import opened FixedPoint
  import opened HalfBand
  import opened HalfBandMeaning

  // ---------------------------------------------------------- odd phases

  /** Between two stuffed samples only the centre tap meets a sample. */
  lemma OddPhase(rise: seq<int>, x: seq<int>, k: nat)
    requires |rise| > 0 && k < |x|
    ensures Fir(HalfBandTable(rise), Recent(ZeroStuffed(x)[..2 * k + 2], 4 * |rise| - 1))
      == 16384 * At(x, k - (|rise| - 1))
  {
    var c, z := HalfBandTable(rise), ZeroStuffed(x)[..2 * k + 2];
    var w, m := Recent(z, |c|), 2 * |rise| - 1;
    forall i | 0 <= i < |c| && i != m
      ensures c[i] == 0 || w[i] == 0
    {
      if i % 2 == 0 {
        assert w[i] == At(z, 2 * k + 1 - i);
      }
    }
    MacSingle(c, w, |c|, m);
    var j := k - (|rise| - 1);
    assert w[m] == At(z, 2 * j);
  }

  lemma CorrectedRange(input: seq<int>, k: int)
    ensures -0x8000 <= At(Drooped(input), k) < 0x8000
  {
    if 0 <= k < |input| {
      assert Drooped(input)[k] == Down15(Filtered(DROOP, Words(input))[k]);
    }
  }

  /** The odd samples of the doubled stream are the droop-corrected input of 21
      inputs before, its lowest bit cleared. */
  lemma OddDoubled(input: seq<int>, k: nat)
    requires k < |input|
    ensures var u := At(Drooped(input), k - 21); Doubled(input)[2 * k + 1] == u - u % 2
  {
    OddPhase(B1_RISE, Drooped(input), k);
    var u := At(Drooped(input), k - 21);
    assert Doubled(input)[2 * k + 1] == Packed(Fir(B1, Recent(ZeroStuffed(Drooped(input))[..2 * k + 1 + 1], 87)));
    CorrectedRange(input, k - 21);
    Quotient(16384 * u, 0x4000, u, 0);
  }

  /** The odd output samples are the doubled stream of three samples before, scaled. */
  lemma OddUpsampled(input: seq<int>, j: nat)
    requires j < 2 * |input|
    ensures Upsampled(input)[2 * j + 1] == ToInt16(31957 * (At(Doubled(input), j - 3) / 2) / 0x2000)
  {
    OddPhase(B2_RISE, Doubled(input), j);
    var z := At(Doubled(input), j - 3);
    assert Upsampled(input)[2 * j + 1] == UpGain(Fir(B2, Recent(ZeroStuffed(Doubled(input))[..2 * j + 1 + 1], 15)));
    Quotient(16384 * z, 0x8000, z / 2, 16384 * (z % 2));
  }

  // ---------------------------------------------------------- tap sums

  function Abs(x: int): nat { if x < 0 then -x else x }

  const SIZE: int -> int := x => Abs(x)

  const VALUE: int -> int := x => x

  /** The sum of f over the first n taps. */
  function SumOf(f: int -> int, c: seq<int>, n: nat): int
    requires n <= |c|
  {
    if n == 0 then 0 else SumOf(f, c, n - 1) + f(c[n - 1])
  }

  function AbsSum(c: seq<int>, n: nat): nat
    requires n <= |c|
  {
    if n == 0 then 0 else AbsSum(c, n - 1) + Abs(c[n - 1])
  }

  lemma {:induction false} AbsSumIs(c: seq<int>, n: nat)
    requires n <= |c|
    ensures AbsSum(c, n) == SumOf(SIZE, c, n)
  {
    if n > 0 {
      AbsSumIs(c, n - 1);
    }
  }

  lemma {:induction false} AbsSumGrows(c: seq<int>, n: nat, m: nat)
    requires n <= m <= |c|
    ensures AbsSum(c, n) <= AbsSum(c, m)
    decreases m
  {
    if n < m {
      AbsSumGrows(c, n, m - 1);
    }
  }

  lemma ProductBound(a: int, b: int, bound: nat)
    requires Abs(b) <= bound
    ensures Abs(a * b) <= Abs(a) * bound
  {
    assert Abs(a * b) == Abs(a) * Abs(b);
    MulMonotone(Abs(b), bound, Abs(a));
  }

  ghost predicate Within(w: seq<int>, bound: nat) {
    forall i :: 0 <= i < |w| ==> Abs(w[i]) <= bound
  }

  lemma {:induction false} MacBound(c: seq<int>, w: seq<int>, n: nat, bound: nat)
    requires n <= |c| == |w| && Within(w, bound)
    ensures Abs(Mac(c, 0, w, 0, n)) <= AbsSum(c, n) * bound
  {
    if n > 0 {
      MacBound(c, w, n - 1, bound);
      ProductBound(c[n - 1], w[n - 1], bound);
      Distribute(AbsSum(c, n - 1), Abs(c[n - 1]), bound);
    }
  }

  /** The first n taps of a half-band table hold its first k even offsets. */
  lemma {:induction false} TableSum(f: int -> int, rise: seq<int>, n: nat, k: nat)
    requires |rise| > 0 && n <= 4 * |rise| - 1 && 2 * k - 1 <= n <= 2 * k && f(0) == 0
    ensures k <= 2 * |rise|
    ensures SumOf(f, HalfBandTable(rise), n)
      == SumOf(f, rise + Mirrored(rise), k) + if n >= 2 * |rise| then f(16384) else 0
  {
    if n > 0 {
      TableSum(f, rise, n - 1, if n == 2 * k then k else k - 1);
    }
  }

  lemma {:induction false} MirroredSum(f: int -> int, s: seq<int>, n: nat)
    requires n <= |s|
    ensures SumOf(f, Mirrored(s), n) == SumOf(f, s, |s|) - SumOf(f, s, |s| - n)
    ensures n == |s| ==> SumOf(f, Mirrored(s), n) == SumOf(f, s, n)
  {
    if n > 0 {
      MirroredSum(f, s, n - 1);
    }
  }

  lemma {:induction false} ConcatSum(f: int -> int, a: seq<int>, b: seq<int>, n: nat)
    requires n <= |a| + |b|
    ensures SumOf(f, a + b, n) == if n <= |a| then SumOf(f, a, n) else SumOf(f, a, |a|) + SumOf(f, b, n - |a|)
  {
    if n > 0 {
      ConcatSum(f, a, b, n - 1);
    }
  }

  lemma SymmetricSum(f: int -> int, rise: seq<int>)
    requires |rise| > 0 && f(0) == 0
    ensures SumOf(f, HalfBandTable(rise), 4 * |rise| - 1) == 2 * SumOf(f, rise, |rise|) + f(16384)
  {
    hide SumOf, HalfBandTable, Mirrored;
    var r := |rise|;
    TableSum(f, rise, 4 * r - 1, 2 * r);
    ConcatSum(f, rise, Mirrored(rise), 2 * r);
    MirroredSum(f, rise, r);
  }

  lemma RiseSums()
    ensures AbsSum(B2_RISE, 4) == 13056
  {
    var b := B2_RISE;
    assert AbsSum(b, 0) == 0 && AbsSum(b, 1) == 104 && AbsSum(b, 2) == 744 && AbsSum(b, 3) == 3072;
  }

  lemma LongRiseSum()
    ensures AbsSum(B1_RISE, 22) == 21762
  {
    var c := B1_RISE;
    assert AbsSum(c, 0) == 0;
    assert AbsSum(c, 1) == 5 && AbsSum(c, 2) == 13 && AbsSum(c, 3) == 26 && AbsSum(c, 4) == 46;
    assert AbsSum(c, 5) == 76 && AbsSum(c, 6) == 120 && AbsSum(c, 7) == 181 && AbsSum(c, 8) == 264;
    assert AbsSum(c, 9) == 375 && AbsSum(c, 10) == 520 && AbsSum(c, 11) == 708 && AbsSum(c, 12) == 948;
    assert AbsSum(c, 13) == 1252 && AbsSum(c, 14) == 1636 && AbsSum(c, 15) == 2120 && AbsSum(c, 16) == 2733;
    assert AbsSum(c, 17) == 3515 && AbsSum(c, 18) == 4535 && AbsSum(c, 19) == 5914 && AbsSum(c, 20) == 7920;
    assert AbsSum(c, 21) == 11348 && AbsSum(c, 22) == 21762;
  }

  lemma TableAbsSum(rise: seq<int>)
    requires |rise| > 0
    ensures AbsSum(HalfBandTable(rise), 4 * |rise| - 1) == 2 * AbsSum(rise, |rise|) + 16384
  {
    hide AbsSum, SumOf, HalfBandTable;
    AbsSumIs(rise, |rise|);
    AbsSumIs(HalfBandTable(rise), 4 * |rise| - 1);
    SymmetricSum(SIZE, rise);
  }

  /** The absolute tap sums of the three tables. */
  lemma TapSums()
    ensures AbsSum(DROOP, 3) == 17696 && AbsSum(B2, 15) == 42496 && AbsSum(B1, 87) == 59908
  {
    assert AbsSum(DROOP, 0) == 0 && AbsSum(DROOP, 1) == 410 && AbsSum(DROOP, 2) == 17286;
    RiseSums();
    LongRiseSum();
    TableAbsSum(B2_RISE);
    TableAbsSum(B1_RISE);
  }

  // ---------------------------------------------------------- headroom

  predicate Fits32(v: int) { -0x8000_0000 <= v < 0x8000_0000 }

  /** Every value the accumulator takes while the loop runs. */
  ghost predicate AccumulatorFits(c: seq<int>, w: seq<int>)
    requires |w| == |c|
  {
    forall n :: 0 <= n <= |c| ==> Fits32(Mac(c, 0, w, 0, n))
  }

  lemma Accumulates(c: seq<int>, w: seq<int>, bound: nat)
    requires |w| == |c| && Within(w, bound) && AbsSum(c, |c|) * bound < 0x8000_0000
    ensures AccumulatorFits(c, w) && Abs(Fir(c, w)) <= AbsSum(c, |c|) * bound
  {
    forall n | 0 <= n <= |c|
      ensures Fits32(Mac(c, 0, w, 0, n))
    {
      MacBound(c, w, n, bound);
      AbsSumGrows(c, n, |c|);
      MulMonotone(AbsSum(c, n), AbsSum(c, |c|), bound);
    }
    MacBound(c, w, |c|, bound);
  }

  lemma ShiftBound(v: int, k: nat, bound: nat)
    requires k > 0 && Abs(v) <= k * bound
    ensures Abs(v / k) <= bound
  {
    var q := v / k;
    assert q * k <= v < (q + 1) * k;
    if q > bound { MulMonotone(bound + 1, q, k); }
    if q < 0 - bound { MulMonotone(q + 1, 0 - bound, k); }
  }

  lemma PushWithin(w: seq<int>, x: int, bound: nat)
    requires |w| > 0 && Within(w, bound) && Abs(x) <= bound
    ensures Within(Push(w, x), bound)
  {}

  ghost predicate DownBounded(d: Delays) {
    d.Valid() && Within(d.h, 0x8000) && Within(d.d1, 21248) && Within(d.d2, 0x4000)
  }

  /** One 16-bit sample through the downsampling cascade: every accumulator and the
      scaled product fit 32 bits, and the first filter's value fits 16. */
  lemma DownHeadroom(d: Delays, second: bool, fourth: bool, x: int)
    requires DownBounded(d) && -0x8000 <= x < 0x8000
    ensures var d2 := Push(d.d2, Half(x));
      var first := Fir(B2, d2) / 0x8000;
      var d1 := Push(d.d1, first);
      var h := Push(d.h, Down15(Fir(B1, d1)));
      && AccumulatorFits(B2, d2) && AccumulatorFits(B1, d1) && AccumulatorFits(DROOP, h)
      && ToInt16(first) == first && Fits32(32440 * (Fir(DROOP, h) / 0x8000))
    ensures DownBounded(DownStep(d, second, fourth, x).0)
  {
    TapSums();
    var d2 := Push(d.d2, Half(x));
    PushWithin(d.d2, Half(x), 0x4000);
    Accumulates(B2, d2, 0x4000);
    ShiftBound(Fir(B2, d2), 0x8000, 21248);
    var d1 := Push(d.d1, Fir(B2, d2) / 0x8000);
    PushWithin(d.d1, Fir(B2, d2) / 0x8000, 21248);
    Accumulates(B1, d1, 21248);
    var h := Push(d.h, Down15(Fir(B1, d1)));
    PushWithin(d.h, Down15(Fir(B1, d1)), 0x8000);
    Accumulates(DROOP, h, 0x8000);
    ShiftBound(Fir(DROOP, h), 0x8000, 17696);
  }

  /** Droop-corrected samples are bounded, and every second one is a stuffed zero. */
  ghost predicate UpBounded(d: Delays) {
    && d.Valid() && Within(d.h, 0x8000) && Within(d.d1, 17696) && Within(d.d2, 0x8000)
    && forall i :: 0 <= i < 87 && i % 2 == 0 ==> d.d1[i] == 0
  }

  ghost predicate UpFits(d: Delays, x: int)
    requires d.Valid()
  {
    var s := Stages(d, x);
    && AccumulatorFits(DROOP, s.h) && (forall i :: 0 <= i < 2 ==> AccumulatorFits(B1, s.d1[i]))
    && (forall i :: 0 <= i < 4 ==> AccumulatorFits(B2, s.d2[i]) && Fits32(31957 * (Fir(B2, s.d2[i]) / 0x8000)))
    && Fits32(4 * Fir(B1, s.d1[1]))
    && ToInt16(Fir(DROOP, s.h) / 0x8000) == Fir(DROOP, s.h) / 0x8000
  }

  /** One sample through the upsampling cascade: every accumulator, the packed word's
      quadrupled one and every scaled product fit 32 bits, and the droop corrector's
      value fits 16. */
  lemma UpHeadroom(d: Delays, x: int)
    requires UpBounded(d)
    ensures UpFits(d, x) && UpBounded(UpStep(d, x).0)
  {
    hide Fir, Push, AccumulatorFits, AbsSum;
    TapSums();
    var s := Stages(d, x);
    var u := Fir(DROOP, s.h) / 0x8000;
    PushWithin(d.h, ToInt16(x), 0x8000);
    Accumulates(DROOP, s.h, 0x8000);
    ShiftBound(Fir(DROOP, s.h), 0x8000, 17696);
    PushWithin(d.d1, u, 17696);
    PushWithin(s.d1[0], 0, 17696);
    Accumulates(B1, s.d1[0], 17696);
    Accumulates(B1, s.d1[1], 17696);
    StuffedZeros(d.d1, u);
    ProductBound(16384, s.d1[1][43], 17696);
    var p, q := Packed(Fir(B1, s.d1[0])), Packed(Fir(B1, s.d1[1]));
    PushWithin(d.d2, p, 0x8000);
    PushWithin(s.d2[0], 0, 0x8000);
    PushWithin(s.d2[1], q, 0x8000);
    PushWithin(s.d2[2], 0, 0x8000);
    forall i | 0 <= i < 4
      ensures AccumulatorFits(B2, s.d2[i]) && Fits32(31957 * (Fir(B2, s.d2[i]) / 0x8000))
    {
      Accumulates(B2, s.d2[i], 0x8000);
      ShiftBound(Fir(B2, s.d2[i]), 0x8000, 42496);
    }
  }

  lemma StuffedZeros(d1: seq<int>, u: int)
    requires |d1| == 87 && forall i :: 0 <= i < 87 && i % 2 == 0 ==> d1[i] == 0
    ensures var w := Push(Push(d1, u), 0);
      (forall i :: 0 <= i < 87 && i % 2 == 0 ==> w[i] == 0) && Fir(B1, w) == 16384 * w[43]
  {
    var w := Push(Push(d1, u), 0);
    assert forall i :: 0 <= i < 87 && i % 2 == 0 ==> w[i] == 0 by {
      forall i | 0 <= i < 87 && i % 2 == 0
        ensures w[i] == 0
      {
        if i >= 2 {
          assert w[i] == d1[i - 2] && (i - 2) % 2 == 0;
        }
      }
    }
    MacSingle(B1, w, 87, 43);
  }

  /** Every run of either cascade on 16-bit samples stays within those bounds. */
  lemma {:induction false} RunsStayBounded(xs: seq<int>)
    requires forall i :: 0 <= i < |xs| ==> -0x8000 <= xs[i] < 0x8000
    ensures DownBounded(DownRun(Silent, xs).0) && UpBounded(UpRun(Silent, xs).0)
  {
    if xs != [] {
      var n := |xs| - 1;
      RunsStayBounded(xs[..n]);
      DownHeadroom(DownRun(Silent, xs[..n]).0, Second(n), Fourth(n), xs[n]);
      UpHeadroom(UpRun(Silent, xs[..n]).0, xs[n]);
      hide DownStep, UpStep, DownBounded, UpBounded;
    }
  }
}
