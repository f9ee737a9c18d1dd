/** What the mode-1 converters answer to an impulse and to a steady input, with every
    tap and every factor written out. */
module HalfBandResponse {
  import opened FixedPoint
  import opened HalfBand
  import opened HalfBandMeaning
  import opened HalfBandBounds

  // ---------------------------------------------------------- impulses

  /** One, and silence after it. */
  function Impulse(n: nat): (x: seq<int>)
    ensures |x| == n
  {
    seq(n, i requires 0 <= i < n => if i == 0 then 1 else 0)
  }

  /** A filter answers an impulse with its taps. */
  lemma ImpulseResponse(c: seq<int>)
    ensures Filtered(c, Impulse(|c|)) == c
  {
    var x, y := Impulse(|c|), Filtered(c, Impulse(|c|));
    forall n | 0 <= n < |c|
      ensures y[n] == c[n]
    {
      var w := Recent(x[..n + 1], |c|);
      assert forall i :: 0 <= i < |c| ==> w[i] == At(x[..n + 1], n - i);
      MacSingle(c, w, |c|, n);
    }
  }

  lemma TableAt(rise: seq<int>, i: nat)
    requires |rise| > 0 && i < 4 * |rise| - 1
    ensures HalfBandTable(rise)[i] ==
      if i == 2 * |rise| - 1 then 16384 else if i % 2 == 1 then 0
      else if i < 2 * |rise| then rise[i / 2] else rise[2 * |rise| - 1 - i / 2]
  {}

  /** A half-band response: these taps at even offsets, rising to the centre and falling
      from it, 16384 in the centre and nothing at the other odd offsets. */
  ghost predicate IsHalfBand(response: seq<int>, rise: seq<int>) {
    && |response| == 4 * |rise| - 1
    && (forall i :: 0 <= i < |response| && i % 2 == 1 ==> response[i] == if i == 2 * |rise| - 1 then 16384 else 0)
    && (forall k :: 0 <= k < |rise| ==> response[2 * k] == rise[k] && response[4 * |rise| - 2 - 2 * k] == rise[k])
  }

  lemma TableIsHalfBand(rise: seq<int>)
    requires |rise| > 0
    ensures IsHalfBand(HalfBandTable(rise), rise)
  {
    forall i | 0 <= i < 4 * |rise| - 1 && i % 2 == 1
      ensures HalfBandTable(rise)[i] == if i == 2 * |rise| - 1 then 16384 else 0
    {
      TableAt(rise, i);
    }
    forall k | 0 <= k < |rise|
      ensures HalfBandTable(rise)[2 * k] == rise[k] && HalfBandTable(rise)[4 * |rise| - 2 - 2 * k] == rise[k]
    {
      TableAt(rise, 2 * k);
      TableAt(rise, 4 * |rise| - 2 - 2 * k);
    }
  }

  /** The three filter stages answer an impulse with the tables of the source. */
  lemma ImpulseResponses()
    ensures Filtered(DROOP, Impulse(3)) == [-410, 16876, -410]
    ensures IsHalfBand(Filtered(B2, Impulse(15)), [-104, 640, -2328, 9984])
    ensures IsHalfBand(Filtered(B1, Impulse(87)),
      [-5, 8, -13, 20, -30, 44, -61, 83, -111, 145, -188,
       240, -304, 384, -484, 613, -782, 1020, -1379, 2006, -3428, 10414])
  {
    hide HalfBandTable, Filtered, IsHalfBand;
    ImpulseResponse(DROOP);
    ImpulseResponse(B2);
    ImpulseResponse(B1);
    TableIsHalfBand(B2_RISE);
    TableIsHalfBand(B1_RISE);
  }

  // ---------------------------------------------------------- scaling

  predicate Is16(r: int, v: int) { -0x8000 <= r < 0x8000 && (r - v) % 0x1_0000 == 0 }

  /** What is stored between the stages: the 16-bit word congruent to the value shifted
      and scaled; of the packed words, with the lowest bit cleared. */
  lemma Scalings(v: int)
    ensures Is16(Half(v), v / 2) && Is16(Down15(v), v / 0x8000)
    ensures Is16(DownGain(v), 32440 * (v / 0x8000) / 0x2000)
    ensures Is16(UpGain(v), 31957 * (v / 0x8000) / 0x2000)
    ensures Is16(Packed(v), 2 * (v / 0x4000 / 2))
  {
    hide ToInt16;
    ToInt16Congruent(v / 2, Half(v));
    ToInt16Congruent(v / 0x8000, Down15(v));
    ToInt16Congruent(32440 * (v / 0x8000) / 0x2000, DownGain(v));
    ToInt16Congruent(31957 * (v / 0x8000) / 0x2000, UpGain(v));
    ToInt16Congruent(v / 0x4000 - v / 0x4000 % 2, Packed(v));
  }

  // ---------------------------------------------------------- a steady input

  ghost predicate Steady(x: seq<int>, from: nat, v: int) {
    forall i :: from <= i < |x| ==> x[i] == v
  }

  function Held(n: nat, v: int): (x: seq<int>)
    ensures |x| == n
  {
    seq(n, _ => v)
  }

  lemma {:induction false} MacSteady(c: seq<int>, w: seq<int>, n: nat, v: int)
    requires n <= |c| && n <= |w| && Steady(w, 0, v)
    ensures Mac(c, 0, w, 0, n) == SumOf(VALUE, c, n) * v
  {
    if n > 0 {
      MacSteady(c, w, n - 1, v);
      Distribute(SumOf(VALUE, c, n - 1), c[n - 1], v);
    }
  }

  lemma WindowSteady(x: seq<int>, from: nat, v: int, n: nat, k: nat)
    requires Steady(x, from, v) && from + k <= n + 1 <= |x|
    ensures Steady(Recent(x[..n + 1], k), 0, v)
  {
    var w := Recent(x[..n + 1], k);
    assert forall i :: 0 <= i < k ==> w[i] == At(x[..n + 1], n - i);
  }

  lemma FilteredAt(c: seq<int>, x: seq<int>, n: nat)
    requires n < |x|
    ensures Filtered(c, x)[n] == Fir(c, Recent(x[..n + 1], |c|))
  {}

  lemma FilteredSteady(c: seq<int>, x: seq<int>, from: nat, v: int)
    requires Steady(x, from, v) && |c| > 0
    ensures Steady(Filtered(c, x), from + |c| - 1, SumOf(VALUE, c, |c|) * v)
  {
    hide SumOf, Mac, Filtered, Recent;
    forall n | from + |c| - 1 <= n < |x|
      ensures Filtered(c, x)[n] == SumOf(VALUE, c, |c|) * v
    {
      FilteredAt(c, x, n);
      WindowSteady(x, from, v, n, |c|);
      MacSteady(c, Recent(x[..n + 1], |c|), |c|, v);
    }
  }

  lemma MappedSteady(f: int -> int, x: seq<int>, from: nat, v: int)
    requires Steady(x, from, v)
    ensures Steady(Mapped(f, x), from, f(v))
  {}

  lemma DecimatedSteady(x: seq<int>, from: nat, v: int, half: nat)
    requires Steady(x, from, v) && 2 * half + 1 >= from
    ensures Steady(Decimated(x), half, v)
  {}

  lemma ShortRise()
    ensures SumOf(VALUE, B2_RISE, 4) == 8192
  {
    var f, b := VALUE, B2_RISE;
    assert SumOf(f, b, 0) == 0 && SumOf(f, b, 1) == -104 && SumOf(f, b, 2) == 536 && SumOf(f, b, 3) == -1792;
  }

  lemma LongRise()
    ensures SumOf(VALUE, B1_RISE, 22) == 8192
  {
    var f, c := VALUE, B1_RISE;
    assert SumOf(f, c, 0) == 0;
    assert SumOf(f, c, 1) == -5 && SumOf(f, c, 2) == 3 && SumOf(f, c, 3) == -10 && SumOf(f, c, 4) == 10;
    assert SumOf(f, c, 5) == -20 && SumOf(f, c, 6) == 24 && SumOf(f, c, 7) == -37 && SumOf(f, c, 8) == 46;
    assert SumOf(f, c, 9) == -65 && SumOf(f, c, 10) == 80 && SumOf(f, c, 11) == -108 && SumOf(f, c, 12) == 132;
    assert SumOf(f, c, 13) == -172 && SumOf(f, c, 14) == 212 && SumOf(f, c, 15) == -272 && SumOf(f, c, 16) == 341;
    assert SumOf(f, c, 17) == -441 && SumOf(f, c, 18) == 579 && SumOf(f, c, 19) == -800 && SumOf(f, c, 20) == 1206;
    assert SumOf(f, c, 21) == -2222 && SumOf(f, c, 22) == 8192;
  }

  /** The taps of the droop corrector and of each half-band filter sum to their gain. */
  lemma Gains()
    ensures SumOf(VALUE, DROOP, 3) == 16056 && SumOf(VALUE, B2, 15) == 0x8000 && SumOf(VALUE, B1, 87) == 0x8000
  {
    assert SumOf(VALUE, DROOP, 0) == 0 && SumOf(VALUE, DROOP, 1) == -410 && SumOf(VALUE, DROOP, 2) == 16466;
    ShortRise();
    LongRise();
    SymmetricSum(VALUE, B2_RISE);
    SymmetricSum(VALUE, B1_RISE);
  }

  lemma WordOf(v: int)
    requires -0x8000 <= v < 0x8000
    ensures Half(v) == v / 2 && Down15(0x8000 * (v / 2)) == v / 2
  {
    Quotient(0x8000 * (v / 2), 0x8000, v / 2, 0);
  }

  /** A steady 16-bit input, once it fills the filters, is answered by half of it, through
      the droop corrector's gain and the output scale. */
  lemma DownsampledSteady(n: nat, v: int)
    requires -0x8000 <= v < 0x8000
    ensures |Downsampled(Held(n, v))| == n / 2 / 2
    ensures Steady(Downsampled(Held(n, v)), 48, ToInt16(32440 * (16056 * (v / 2) / 0x8000) / 0x2000))
  {
    hide SumOf, Filtered, Mapped, Decimated, ToInt16;
    var x, h := Held(n, v), v / 2;
    Gains();
    WordOf(v);
    MappedSteady(Half, x, 0, v);
    FilteredSteady(B2, Mapped(Half, x), 0, h);
    MappedSteady(Down15, Filtered(B2, Mapped(Half, x)), 14, 0x8000 * h);
    DecimatedSteady(Mapped(Down15, Filtered(B2, Mapped(Half, x))), 14, h, 7);
    FilteredSteady(B1, Halved(x), 7, h);
    MappedSteady(Down15, Filtered(B1, Halved(x)), 93, 0x8000 * h);
    DecimatedSteady(Mapped(Down15, Filtered(B1, Halved(x))), 93, h, 46);
    FilteredSteady(DROOP, Quartered(x), 46, h);
    MappedSteady(DownGain, Filtered(DROOP, Quartered(x)), 48, 16056 * h);
  }

  // ------------------------------------------------ a steady input, upsampled

  lemma {:induction false} MacAdds(c: seq<int>, a: seq<int>, b: seq<int>, w: seq<int>, n: nat)
    requires n <= |c| && n <= |a| && n <= |b| && n <= |w| && forall i :: 0 <= i < n ==> w[i] == a[i] + b[i]
    ensures Mac(c, 0, w, 0, n) == Mac(c, 0, a, 0, n) + Mac(c, 0, b, 0, n)
  {
    if n > 0 {
      MacAdds(c, a, b, w, n - 1);
      assert c[n - 1] * (a[n - 1] + b[n - 1]) == c[n - 1] * a[n - 1] + c[n - 1] * b[n - 1];
    }
  }

  /** v at the odd places and nothing at the even ones, or the other way round. */
  ghost predicate Alternates(w: seq<int>, v: int, odd: bool) {
    forall i :: 0 <= i < |w| ==> w[i] == if (i % 2 == 1) == odd then v else 0
  }

  lemma OddPlaces(rise: seq<int>, w: seq<int>, v: int)
    requires |rise| > 0 && |w| == 4 * |rise| - 1 && Alternates(w, v, true)
    ensures Fir(HalfBandTable(rise), w) == 0x4000 * v
  {
    hide HalfBandTable;
    TableIsHalfBand(rise);
    MacSingle(HalfBandTable(rise), w, |w|, 2 * |rise| - 1);
  }

  /** A steady value at odd places meets the centre tap alone, at even places the rest. */
  lemma EverySecond(rise: seq<int>, w: seq<int>, v: int, odd: bool)
    requires |rise| > 0 && |w| == 4 * |rise| - 1 && SumOf(VALUE, HalfBandTable(rise), 4 * |rise| - 1) == 0x8000
    requires Alternates(w, v, odd)
    ensures Fir(HalfBandTable(rise), w) == 0x4000 * v
  {
    hide SumOf, HalfBandTable;
    if odd {
      OddPlaces(rise, w, v);
    } else {
      var odds, all := seq(|w|, i requires 0 <= i < |w| => if i % 2 == 1 then v else 0), Held(|w|, v);
      OddPlaces(rise, odds, v);
      MacSteady(HalfBandTable(rise), all, |w|, v);
      MacAdds(HalfBandTable(rise), odds, w, all, |w|);
    }
  }

  lemma StuffedSteady(rise: seq<int>, x: seq<int>, from: nat, v: int)
    requires |rise| > 0 && SumOf(VALUE, HalfBandTable(rise), 4 * |rise| - 1) == 0x8000 && Steady(x, from, v)
    ensures Steady(Filtered(HalfBandTable(rise), ZeroStuffed(x)), 2 * from + 4 * |rise| - 2, 0x4000 * v)
  {
    hide SumOf, HalfBandTable, Fir, Filtered, Recent, ZeroStuffed, Alternates;
    var c, z := HalfBandTable(rise), ZeroStuffed(x);
    forall n | 2 * from + 4 * |rise| - 2 <= n < |z|
      ensures Filtered(c, z)[n] == 0x4000 * v
    {
      FilteredAt(c, z, n);
      StuffedWindow(x, from, v, n, |c|);
      EverySecond(rise, Recent(z[..n + 1], |c|), v, n % 2 == 1);
    }
  }

  lemma StuffedWindow(x: seq<int>, from: nat, v: int, n: nat, k: nat)
    requires Steady(x, from, v) && 2 * from + k <= n + 1 && n < 2 * |x|
    ensures Alternates(Recent(ZeroStuffed(x)[..n + 1], k), v, n % 2 == 1)
  {
    var w := Recent(ZeroStuffed(x)[..n + 1], k);
    forall i | 0 <= i < k
      ensures w[i] == if (i % 2 == 1) == (n % 2 == 1) then v else 0
    {
      assert w[i] == At(ZeroStuffed(x)[..n + 1], n - i) == ZeroStuffed(x)[n - i];
    }
  }

  lemma UpWords(d: int)
    requires -0x8000 <= d < 0x8000
    ensures Packed(0x4000 * d) == 2 * (d / 2) && 0x4000 * (2 * (d / 2)) / 0x8000 == d / 2
  {
    Quotient(0x4000 * d, 0x4000, d, 0);
    Quotient(0x4000 * (2 * (d / 2)), 0x8000, d / 2, 0);
  }

  /** A steady 16-bit input, upsampled, settles on one value in all four phases. */
  lemma UpsampledSteady(n: nat, v: int)
    requires -0x8000 <= v < 0x8000
    ensures |Upsampled(Held(n, v))| == 4 * n
    ensures Steady(Upsampled(Held(n, v)), 194, ToInt16(31957 * (16056 * v / 0x8000 / 2) / 0x2000))
  {
    hide SumOf, Filtered, Mapped, ZeroStuffed, HalfBandTable, Down15, Packed;
    var x, d := Held(n, v), 16056 * v / 0x8000;
    Gains();
    Scalings(16056 * v);
    assert Words(x) == x;
    FilteredSteady(DROOP, x, 0, v);
    MappedSteady(Down15, Filtered(DROOP, x), 2, 16056 * v);
    assert Down15(16056 * v) == d;
    StuffedSteady(B1_RISE, Drooped(x), 2, d);
    MappedSteady(Packed, Filtered(B1, ZeroStuffed(Drooped(x))), 90, 0x4000 * d);
    UpWords(d);
    var e := 2 * (d / 2);
    StuffedSteady(B2_RISE, Doubled(x), 90, e);
    MappedSteady(UpGain, Filtered(B2, ZeroStuffed(Doubled(x))), 194, 0x4000 * e);
  }
}
