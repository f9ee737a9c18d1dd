/** Mode 1 of the RcFixed converter: a fourfold rate change through two half-band
    filters and a droop corrector.

    `Delays` is the abstract state, each delay line newest sample first; the class
    keeps them as circular buffers.  `UpStep` and `DownStep` say what one sample
    does to them. */
module HalfBand {
  import opened FixedPoint

  const DROOP: seq<int> := [-410, 16876, -410]

  /** The tables of the two half-band filters are symmetric; these are their even
      offsets up to the centre. */
  const B2_RISE: seq<int> := [-104, 640, -2328, 9984]

  const B1_RISE: seq<int> := [
    -5, 8, -13, 20, -30, 44, -61, 83, -111, 145, -188, 240, -304, 384, -484, 613, -782, 1020, -1379, 2006, -3428, 10414]

  function Mirrored(s: seq<int>): (r: seq<int>)
    ensures |r| == |s|
  {
    seq(|s|, i requires 0 <= i < |s| => s[|s| - 1 - i])
  }

  /** A half-band table: at odd offsets it is zero, but for 16384 in the centre. */
  function HalfBandTable(rise: seq<int>): (c: seq<int>)
    requires |rise| > 0
    ensures |c| == 4 * |rise| - 1
  {
    var even := rise + Mirrored(rise);
    seq(4 * |rise| - 1, i requires 0 <= i < 4 * |rise| - 1 =>
      if i == 2 * |rise| - 1 then 16384 else if i % 2 == 1 then 0 else even[i / 2])
  }

  const B2: seq<int> := HalfBandTable(B2_RISE)

  const B1: seq<int> := HalfBandTable(B1_RISE)

  /** The filter output for a delay line, newest sample first. */
  function Fir(c: seq<int>, w: seq<int>): int
    requires |w| == |c|
  {
    Mac(c, 0, w, 0, |c|)
  }

  function Push(w: seq<int>, x: int): (r: seq<int>)
    requires |w| > 0
    ensures |r| == |w|
  {
    [x] + w[..|w| - 1]
  }

  datatype Delays = Delays(h: seq<int>, d1: seq<int>, d2: seq<int>) {
    predicate Valid() {
      |h| == 3 && |d1| == 87 && |d2| == 15
    }
  }

  const Silent := Delays(Zeros(3), Zeros(87), Zeros(15))

  // ---------------------------------------------------------- scaling

  function Half(x: int): int { ToInt16(x / 2) }

  function Down15(v: int): int { ToInt16(v / 0x8000) }

  function DownGain(v: int): int { ToInt16(32440 * (v / 0x8000) / 0x2000) }

  function UpGain(v: int): int { ToInt16(31957 * (v / 0x8000) / 0x2000) }

  /** The 16-bit halves of the packed word: bits 14 up, lowest of them cleared. */
  function Packed(v: int): int { ToInt16(v / 0x4000 - v / 0x4000 % 2) }

  // ---------------------------------------------------------- one sample

  /** One input sample of the downsampler: every second one reaches the second
      filter, every second of those the third. */
  function DownStep(d: Delays, second: bool, fourth: bool, x: int): (r: (Delays, seq<int>))
    requires d.Valid()
    ensures r.0.Valid() && |r.1| == if second && fourth then 1 else 0
  {
    var d2 := Push(d.d2, Half(x));
    if !second then (d.(d2 := d2), []) else
    var d1 := Push(d.d1, Down15(Fir(B2, d2)));
    if !fourth then (d.(d1 := d1, d2 := d2), []) else
    var h := Push(d.h, Down15(Fir(B1, d1)));
    (Delays(h, d1, d2), [DownGain(Fir(DROOP, h))])
  }

  /** One input sample of the upsampler: the delay lines it fills, then the outputs. */
  datatype UpStages = UpStages(h: seq<int>, d1: seq<seq<int>>, d2: seq<seq<int>>)

  function Stages(d: Delays, x: int): (s: UpStages)
    requires d.Valid()
    ensures |s.h| == 3 && |s.d1| == 2 && |s.d2| == 4
    ensures (forall i :: 0 <= i < 2 ==> |s.d1[i]| == 87) && (forall i :: 0 <= i < 4 ==> |s.d2[i]| == 15)
  {
    var h := Push(d.h, ToInt16(x));
    var e0 := Push(d.d1, Down15(Fir(DROOP, h)));
    var e1 := Push(e0, 0);
    var f0 := Push(d.d2, Packed(Fir(B1, e0)));
    var f1 := Push(f0, 0);
    var f2 := Push(f1, Packed(Fir(B1, e1)));
    UpStages(h, [e0, e1], [f0, f1, f2, Push(f2, 0)])
  }

  function UpStep(d: Delays, x: int): (r: (Delays, seq<int>))
    requires d.Valid()
    ensures r.0.Valid() && |r.1| == 4
  {
    var s := Stages(d, x);
    (Delays(s.h, s.d1[1], s.d2[3]),
     [UpGain(Fir(B2, s.d2[0])), UpGain(Fir(B2, s.d2[1])), UpGain(Fir(B2, s.d2[2])), UpGain(Fir(B2, s.d2[3]))])
  }

  /** Sample i of a call is the second of a pair; its pair is the second of two. */
  predicate Second(i: nat) { i % 2 == 1 }

  predicate Fourth(i: nat) { i / 2 % 2 == 1 }

  function Groups(i: nat): nat { i / 4 }

  function DownRun(d: Delays, xs: seq<int>): (r: (Delays, seq<int>))
    requires d.Valid()
    ensures r.0.Valid() && |r.1| == Groups(|xs|)
  {
    if xs == [] then (d, []) else
      var n := |xs| - 1;
      var (e, out) := DownRun(d, xs[..n]);
      var (f, y) := DownStep(e, Second(n), Fourth(n), xs[n]);
      Counters(n);
      (f, out + y)
  }

  function UpRun(d: Delays, xs: seq<int>): (r: (Delays, seq<int>))
    requires d.Valid()
    ensures r.0.Valid() && |r.1| == 4 * |xs|
  {
    if xs == [] then (d, []) else
      var n := |xs| - 1;
      var (e, out) := UpRun(d, xs[..n]);
      var (f, y) := UpStep(e, xs[n]);
      (f, out + y)
  }

  /** The two counters of the downsampler step as the digits of the sample count. */
  lemma Counters(i: nat)
    ensures Second(i + 1) == !Second(i)
    ensures Fourth(i + 1) == (Fourth(i) != Second(i))
    ensures Groups(i + 1) == if Second(i) && Fourth(i) then Groups(i) + 1 else Groups(i)
    ensures Second(i) && Fourth(i) ==> i + 1 == 4 * Groups(i + 1)
    ensures 4 * Groups(i) <= i
  {
    var q, r := i / 4, i % 4;
    assert i / 2 == 2 * q + r / 2 && (i + 1) / 2 == 2 * q + (r + 1) / 2;
    assert i / 2 % 2 == r / 2 && (i + 1) / 2 % 2 == (r + 1) / 2 % 2;
  }

  /** Samples a downsampling call reads before its output is full. */
  function DownRead(n: nat, capacity: nat): (r: nat)
    ensures r <= n
  {
    if n < 4 * capacity then n else 4 * capacity
  }

  function DownCall(d: Delays, xs: seq<int>, capacity: nat): (r: (Delays, seq<int>, nat))
    requires d.Valid()
    ensures r.2 == |r.1|
  {
    var (e, out) := DownRun(d, xs[..DownRead(|xs|, capacity)]);
    (e, out, |out|)
  }

  /** A capacity that is no multiple of four cuts the last group short, but the
      reported count still includes all of it. */
  function UpCall(d: Delays, xs: seq<int>, capacity: nat): (r: (Delays, seq<int>, nat))
    requires d.Valid()
    ensures |r.1| <= capacity && |r.1| <= r.2 < |r.1| + 4
    ensures r.2 == |r.1| <==> capacity % 4 == 0 || 4 * |xs| <= capacity
  {
    var groups := (capacity + 3) / 4;
    var n := if |xs| < groups then |xs| else groups;
    var (e, all) := UpRun(d, xs[..n]);
    (e, if 4 * n <= capacity then all else all[..capacity], 4 * n)
  }

  lemma DownRunNext(d: Delays, xs: seq<int>, i: nat)
    requires d.Valid() && i < |xs|
    ensures var (e, out) := DownRun(d, xs[..i]);
      var (f, y) := DownStep(e, Second(i), Fourth(i), xs[i]);
      DownRun(d, xs[..i + 1]) == (f, out + y)
  {
    assert xs[..i + 1][..i] == xs[..i];
  }

  lemma UpRunNext(d: Delays, xs: seq<int>, i: nat)
    requires d.Valid() && i < |xs|
    ensures var (e, out) := UpRun(d, xs[..i]);
      var (f, y) := UpStep(e, xs[i]);
      UpRun(d, xs[..i + 1]) == (f, out + y)
  {
    assert xs[..i + 1][..i] == xs[..i];
  }

  // ---------------------------------------------------------- circular buffers

  function Slot(idx: int, i: int, n: int): int {
    if i <= idx then idx - i else idx - i + n
  }

  lemma SlotIsModulo(idx: int, i: int, n: int)
    requires 0 <= idx < n && 0 <= i < n
    ensures (idx - i) % n == Slot(idx, i, n)
  {
    Quotient(idx - i, n, if i <= idx then 0 else -1, Slot(idx, i, n));
  }

  /** A circular buffer read backwards from its newest sample. */
  ghost function Newest(buf: seq<int>, idx: int): (w: seq<int>)
    requires 0 <= idx < |buf|
    ensures |w| == |buf|
  {
    seq(|buf|, i requires 0 <= i < |buf| => buf[Slot(idx, i, |buf|)])
  }

  lemma NewestPush(buf: seq<int>, idx: int, x: int, next: int)
    requires 0 <= idx < |buf| && next == (idx + 1) % |buf|
    ensures 0 <= next < |buf| && Newest(buf[next := x], next) == Push(Newest(buf, idx), x)
  {
    var n := |buf|;
    if idx + 1 < n { Quotient(idx + 1, n, 0, idx + 1); } else { Quotient(n, n, 1, 0); }
    var w, v := Newest(buf[next := x], next), Push(Newest(buf, idx), x);
    forall i | 0 <= i < n
      ensures w[i] == v[i]
    {
      if i > 0 {
        assert Slot(next, i, n) == Slot(idx, i - 1, n) != next;
      }
    }
  }

  /** The bits of v from the one worth `low` up to the one worth `high`, in place:
      v & (high - low) for powers of two, whatever the sign of v. */
  function Masked(v: int, low: int, high: int): int
    requires 0 < low && 0 < high
  {
    v % high - v % low
  }

  /** The word the upsampler packs two samples into; `carried` is its value for the
      sample before. */
  function PackedWord(v65: int, v73: int, carried: int): int {
    var v171 := Masked(v65 / 0x4000, 2, 0x1_0000) + Masked(carried, 0x1_0000, 0x1_0000_0000);
    (Masked(4 * v73, 0x2_0000, 0x1_0000_0000) + v171 % 0x1_0000) % 0x1_0000_0000
  }

  /** The packed halves, as 16-bit words without their lowest bit. */
  function Even16(a: int): int {
    a % 0x1_0000 - a % 2
  }

  lemma Even16Bits(a: int)
    ensures 0 <= Even16(a) < 0x1_0000 && ToInt16(Even16(a)) == ToInt16(a - a % 2)
  {
    var q, r := a / 0x1_0000, a % 0x1_0000;
    Quotient(a, 2, q * 0x8000 + r / 2, r % 2);
    Quotient(a - a % 2, 0x1_0000, q, r - r % 2);
    Quotient(r - r % 2, 0x1_0000, 0, r - r % 2);
  }

  lemma UpperHalf(v: int)
    ensures Masked(4 * v, 0x2_0000, 0x1_0000_0000) == 0x1_0000 * Even16(v / 0x4000)
  {
    var b, r := v / 0x4000, v % 0x4000;
    Quotient(4 * v, 0x1_0000_0000, b / 0x1_0000, 0x1_0000 * (b % 0x1_0000) + 4 * r);
    Quotient(4 * v, 0x2_0000, b / 2, 0x1_0000 * (b % 2) + 4 * r);
  }

  lemma LowerHalf(a: int, carried: int)
    ensures (Masked(a, 2, 0x1_0000) + Masked(carried, 0x1_0000, 0x1_0000_0000)) % 0x1_0000 == Even16(a)
  {
    Even16Bits(a);
    var c := carried / 0x1_0000 - carried / 0x1_0000_0000 * 0x1_0000;
    assert Masked(carried, 0x1_0000, 0x1_0000_0000) == c * 0x1_0000;
    Quotient(Masked(a, 2, 0x1_0000) + c * 0x1_0000, 0x1_0000, c, Even16(a));
  }

  /** Both halves are functions of the two filter outputs alone: what is carried
      from the sample before never reaches an output. */
  lemma CarryNeverMatters(v65: int, v73: int, carried: int)
    ensures ToInt16(PackedWord(v65, v73, carried)) == Packed(v65)
    ensures ToInt16(PackedWord(v65, v73, carried) / 0x1_0000 % 0x1_0000) == Packed(v73)
  {
    var a, b := v65 / 0x4000, v73 / 0x4000;
    UpperHalf(v73);
    LowerHalf(a, carried);
    Even16Bits(a);
    Even16Bits(b);
    var word := 0x1_0000 * Even16(b) + Even16(a);
    Quotient(word, 0x1_0000_0000, 0, word);
    Quotient(word, 0x1_0000, Even16(b), Even16(a));
    Quotient(Even16(b), 0x1_0000, 0, Even16(b));
  }

  // ---------------------------------------------------------- the context

  class HalfBandConverter {
    const rateDivider: int
    var b1History: array<int>
    var b1HistoryIdx: int
    var b1Delay: array<int>
    var b1Idx: int
    var b2Delay: array<int>
    var b2Idx: int

    ghost predicate Valid()
      reads this
    {
      && b1History.Length == 3 && b1Delay.Length == 87 && b2Delay.Length == 15
      && b1History != b1Delay && b1Delay != b2Delay && b1History != b2Delay
      && 0 <= b1HistoryIdx < 3 && 0 <= b1Idx < 87 && 0 <= b2Idx < 15
    }

    ghost function Contents(): (d: Delays)
      requires Valid()
      reads this, b1History, b1Delay, b2Delay
      ensures d.Valid()
    {
      Delays(Newest(b1History[..], b1HistoryIdx), Newest(b1Delay[..], b1Idx), Newest(b2Delay[..], b2Idx))
    }

    constructor (rateDivider: int)
      ensures Valid() && this.rateDivider == rateDivider && Contents() == Silent
      ensures fresh(b1History) && fresh(b1Delay) && fresh(b2Delay)
    {
      this.rateDivider := rateDivider;
      b1History, b1Delay, b2Delay := new int[3](_ => 0), new int[87](_ => 0), new int[15](_ => 0);
      b1HistoryIdx, b1Idx, b2Idx := 0, 0, 0;
    }

    method Reset() returns (ratio: int)
      requires Valid()
      modifies this
      ensures Valid() && Contents() == Silent && ratio == 0
      ensures fresh(b1History) && fresh(b1Delay) && fresh(b2Delay)
    {
      b1History, b1Delay, b2Delay := new int[3](_ => 0), new int[87](_ => 0), new int[15](_ => 0);
      b1HistoryIdx, b1Idx, b2Idx := 0, 0, 0;
      return 0;
    }

    method PushHistory(x: int)
      requires Valid()
      modifies b1History, `b1HistoryIdx
      ensures Valid() && Contents() == old(Contents()).(h := Push(old(Contents()).h, x))
    {
      NewestPush(b1History[..], b1HistoryIdx, x, (b1HistoryIdx + 1) % 3);
      b1HistoryIdx := (b1HistoryIdx + 1) % 3;
      b1History[b1HistoryIdx] := x;
    }

    method PushB1(x: int)
      requires Valid()
      modifies b1Delay, `b1Idx
      ensures Valid() && Contents() == old(Contents()).(d1 := Push(old(Contents()).d1, x))
    {
      NewestPush(b1Delay[..], b1Idx, x, (b1Idx + 1) % 87);
      b1Idx := (b1Idx + 1) % 87;
      b1Delay[b1Idx] := x;
    }

    method PushB2(x: int)
      requires Valid()
      modifies b2Delay, `b2Idx
      ensures Valid() && Contents() == old(Contents()).(d2 := Push(old(Contents()).d2, x))
    {
      NewestPush(b2Delay[..], b2Idx, x, (b2Idx + 1) % 15);
      b2Idx := (b2Idx + 1) % 15;
      b2Delay[b2Idx] := x;
    }

    /** The body of the downsampling loop; the two counters choose how far the
        sample goes. */
    method DownOne(sample: int, var34: int, v186: int) returns (next34: int, next186: int, y: seq<int>)
      requires Valid() && 0 <= var34 < 2 && 0 <= v186 < 2
      modifies b1History, `b1HistoryIdx, b1Delay, `b1Idx, b2Delay, `b2Idx
      ensures Valid() && 0 <= next34 < 2 && 0 <= next186 < 2
      ensures next34 == 1 <==> var34 != 1
      ensures next186 == 1 <==> (v186 == 1) != (var34 == 1)
      ensures (Contents(), y) == DownStep(old(Contents()), var34 == 1, v186 == 1, sample)
    {
      hide Fir, Newest;
      next34, next186, y := var34, v186, [];
      PushB2(Half(sample));
      var accB2 := Convolve(B2, b2Delay, b2Idx);
      assert accB2 == Fir(B2, Contents().d2);
      next34 := next34 + 1;
      if next34 == 2 {
        next34 := 0;
        PushB1(Down15(accB2));
        var accB1 := Convolve(B1, b1Delay, b1Idx);
        assert accB1 == Fir(B1, Contents().d1);
        next186 := next186 + 1;
        if next186 == 2 {
          next186 := 0;
          PushHistory(Down15(accB1));
          var accDroop := Convolve(DROOP, b1History, b1HistoryIdx);
          assert accDroop == Fir(DROOP, Contents().h);
          y := [DownGain(accDroop)];
        }
      }
    }

    /** The downsampling branch: its counters start over with every call. */
    method Downsample(inSamples: seq<int>, outCapacity: nat) returns (outSamples: seq<int>, outCount: nat)
      requires Valid() && 1 <= outCapacity
      modifies b1History, `b1HistoryIdx, b1Delay, `b1Idx, b2Delay, `b2Idx
      ensures Valid()
      ensures (Contents(), outSamples, outCount) == DownCall(old(Contents()), inSamples, outCapacity)
    {
      ghost var d := Contents();
      assert DownRun(d, inSamples[..0]) == (d, []);
      assert !Second(0) && !Fourth(0) && Groups(0) == 0;
      hide Fir, Newest, DownStep, Second, Fourth, Groups;
      outSamples, outCount := [], 0;
      var var34, v186, i: nat := 0, 0, 0;
      while i < |inSamples|
        invariant i <= |inSamples| && Valid()
        invariant (Contents(), outSamples) == DownRun(d, inSamples[..i])
        invariant 0 <= var34 < 2 && 0 <= v186 < 2
        invariant (var34 == 1 <==> Second(i)) && (v186 == 1 <==> Fourth(i))
        invariant outCount == |outSamples| == Groups(i) < outCapacity
      {
        DownRunNext(d, inSamples, i);
        Counters(i);
        var y;
        var34, v186, y := DownOne(inSamples[i], var34, v186);
        i := i + 1;
        outSamples := outSamples + y;
        if y != [] {
          outCount := outCount + 1;
          if outCount >= outCapacity {
            break;
          }
        }
      }
      assert i == DownRead(|inSamples|, outCapacity);
    }

    /** The body of the upsampling loop; `carried` is the packed word of the sample
        before, and the result does not depend on it. */
    method UpOne(sample: int, carried: int) returns (word: int, y: seq<int>)
      requires Valid()
      modifies b1History, `b1HistoryIdx, b1Delay, `b1Idx, b2Delay, `b2Idx
      ensures Valid()
      ensures (Contents(), y) == UpStep(old(Contents()), sample)
    {
      hide Fir, Newest, PackedWord, Packed;
      ghost var s := Stages(Contents(), sample);
      PushHistory(ToInt16(sample));
      var accDroop := Convolve(DROOP, b1History, b1HistoryIdx);
      PushB1(Down15(accDroop));
      assert Contents().d1 == s.d1[0];
      var v65 := Convolve(B1, b1Delay, b1Idx);
      PushB1(0);
      assert Contents().d1 == s.d1[1];
      var v73 := Convolve(B1, b1Delay, b1Idx);
      word := PackedWord(v65, v73, carried);
      CarryNeverMatters(v65, v73, carried);
      PushB2(ToInt16(word));
      assert Contents().d2 == s.d2[0];
      var v86 := Convolve(B2, b2Delay, b2Idx);
      PushB2(0);
      assert Contents().d2 == s.d2[1];
      var v99 := Convolve(B2, b2Delay, b2Idx);
      PushB2(ToInt16(word / 0x1_0000 % 0x1_0000));
      assert Contents().d2 == s.d2[2];
      var v112 := Convolve(B2, b2Delay, b2Idx);
      PushB2(0);
      assert Contents().d2 == s.d2[3];
      var v127 := Convolve(B2, b2Delay, b2Idx);
      y := [UpGain(v86), UpGain(v99), UpGain(v112), UpGain(v127)];
    }

    /** The upsampling branch. */
    method Upsample(inSamples: seq<int>, outCapacity: nat) returns (outSamples: seq<int>, outCount: nat)
      requires Valid() && 1 <= outCapacity
      modifies b1History, `b1HistoryIdx, b1Delay, `b1Idx, b2Delay, `b2Idx
      ensures Valid()
      ensures (Contents(), outSamples, outCount) == UpCall(old(Contents()), inSamples, outCapacity)
    {
      hide Fir, Newest, UpStep;
      ghost var d := Contents();
      ghost var all := [];
      outSamples, outCount := [], 0;
      var v187, i: nat := 0, 0;
      while i < |inSamples|
        invariant i <= |inSamples| && Valid()
        invariant (Contents(), all) == UpRun(d, inSamples[..i])
        invariant outCount == 4 * i < outCapacity && outSamples == all
      {
        UpRunNext(d, inSamples, i);
        var y;
        v187, y := UpOne(inSamples[i], v187);
        i := i + 1;
        all := all + y;
        outSamples := outSamples + if outCount + 4 <= outCapacity then y else y[..outCapacity - outCount];
        outCount := outCount + 4;
        if outCount >= outCapacity {
          break;
        }
      }
      assert outSamples == if 4 * i <= outCapacity then all else all[..outCapacity];
    }

    method Resample(inSamples: seq<int>, outCapacity: nat) returns (outSamples: seq<int>, outCount: nat)
      requires Valid() && 1 <= outCapacity
      modifies b1History, `b1HistoryIdx, b1Delay, `b1Idx, b2Delay, `b2Idx
      ensures Valid()
      ensures (Contents(), outSamples, outCount) ==
        if rateDivider == 1 then DownCall(old(Contents()), inSamples, outCapacity)
        else UpCall(old(Contents()), inSamples, outCapacity)
    {
      hide DownCall, UpCall, Newest;
      if rateDivider == 1 {
        outSamples, outCount := Downsample(inSamples, outCapacity);
      } else {
        outSamples, outCount := Upsample(inSamples, outCapacity);
      }
    }
  }

  /** The accumulating loop over one circular buffer. */
  method Convolve(coeffs: seq<int>, delay: array<int>, idx: int) returns (acc: int)
    requires |coeffs| == delay.Length && 0 <= idx < delay.Length
    ensures acc == Fir(coeffs, Newest(delay[..], idx))
  {
    acc := 0;
    ghost var w := Newest(delay[..], idx);
    for i := 0 to |coeffs|
      invariant acc == Mac(coeffs, 0, w, 0, i)
    {
      SlotIsModulo(idx, i, |coeffs|);
      acc := acc + coeffs[i] * delay[(idx - i) % |coeffs|];
    }
  }
}
