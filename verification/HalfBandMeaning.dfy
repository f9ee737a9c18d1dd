/** What the mode-1 converters compute over their life: compositions of filters,
    zero-stuffing and decimation on the whole input, whatever the calls. */
module HalfBandMeaning {
  import opened FixedPoint
  import opened HalfBand

  // ---------------------------------------------------------- signals

  function At(x: seq<int>, k: int): int {
    if 0 <= k < |x| then x[k] else 0
  }

  /** The last n samples of a signal, newest first, silence before its start. */
  function Recent(x: seq<int>, n: nat): (w: seq<int>)
    ensures |w| == n
  {
    seq(n, i requires 0 <= i < n => At(x, |x| - 1 - i))
  }

  /** The sum of c[i] * x[n - i] over the taps. */
  function Filtered(c: seq<int>, x: seq<int>): (y: seq<int>)
    ensures |y| == |x|
  {
    seq(|x|, n requires 0 <= n < |x| => Fir(c, Recent(x[..n + 1], |c|)))
  }

  function Mapped(f: int -> int, x: seq<int>): (y: seq<int>)
    ensures |y| == |x|
  {
    seq(|x|, n requires 0 <= n < |x| => f(x[n]))
  }

  function ZeroStuffed(x: seq<int>): (y: seq<int>)
    ensures |y| == 2 * |x|
  {
    seq(2 * |x|, n requires 0 <= n < 2 * |x| => if n % 2 == 0 then x[n / 2] else 0)
  }

  /** Every second sample. */
  function Decimated(x: seq<int>): (y: seq<int>)
    ensures |y| == |x| / 2
  {
    seq(|x| / 2, k requires 0 <= k < |x| / 2 => x[2 * k + 1])
  }

  // -------------------------------------------------- the two compositions

  function Drooped(input: seq<int>): seq<int> {
    Mapped(Down15, Filtered(DROOP, Words(input)))
  }

  function Doubled(input: seq<int>): seq<int> {
    Mapped(Packed, Filtered(B1, ZeroStuffed(Drooped(input))))
  }

  /** Correct the droop, double the rate twice. */
  function Upsampled(input: seq<int>): seq<int> {
    Mapped(UpGain, Filtered(B2, ZeroStuffed(Doubled(input))))
  }

  function Halved(input: seq<int>): seq<int> {
    Decimated(Mapped(Down15, Filtered(B2, Mapped(Half, input))))
  }

  function Quartered(input: seq<int>): seq<int> {
    Decimated(Mapped(Down15, Filtered(B1, Halved(input))))
  }

  /** Halve the rate twice, correct the droop. */
  function Downsampled(input: seq<int>): seq<int> {
    Mapped(DownGain, Filtered(DROOP, Quartered(input)))
  }

  // ---------------------------------------------------------- one more sample

  lemma RecentNext(x: seq<int>, y: int, n: nat)
    requires n > 0
    ensures Recent(x + [y], n) == Push(Recent(x, n), y)
  {
    var w, v := Recent(x + [y], n), Push(Recent(x, n), y);
    forall i | 0 <= i < n
      ensures w[i] == v[i]
    {
      assert w[i] == At(x + [y], |x| - i);
      assert i > 0 ==> v[i] == Recent(x, n)[i - 1] == At(x, |x| - i);
    }
  }

  lemma NothingYet(n: nat)
    ensures Recent([], n) == Zeros(n)
  {
    assert forall i :: 0 <= i < n ==> Recent([], n)[i] == At([], -1 - i);
  }

  lemma FilteredNext(c: seq<int>, x: seq<int>, y: int)
    ensures Filtered(c, x + [y]) == Filtered(c, x) + [Fir(c, Recent(x + [y], |c|))]
  {
    var z := x + [y];
    assert z[..|x| + 1] == z;
    forall n | 0 <= n < |x|
      ensures Filtered(c, z)[n] == Filtered(c, x)[n]
    {
      assert z[..n + 1] == x[..n + 1];
    }
  }

  lemma MappedNext(f: int -> int, x: seq<int>, y: int)
    ensures Mapped(f, x + [y]) == Mapped(f, x) + [f(y)]
  {}

  lemma StuffedNext(x: seq<int>, y: int)
    ensures ZeroStuffed(x + [y]) == ZeroStuffed(x) + [y] + [0]
  {}

  lemma DecimatedNext(x: seq<int>, y: int)
    ensures Decimated(x + [y]) == if |x| % 2 == 1 then Decimated(x) + [y] else Decimated(x)
  {}

  lemma StageNext(c: seq<int>, f: int -> int, x: seq<int>, y: int)
    requires |c| > 0
    ensures var w := Push(Recent(x, |c|), y);
      Recent(x + [y], |c|) == w && Mapped(f, Filtered(c, x + [y])) == Mapped(f, Filtered(c, x)) + [f(Fir(c, w))]
  {
    RecentNext(x, y, |c|);
    FilteredNext(c, x, y);
    MappedNext(f, Filtered(c, x), Fir(c, Recent(x + [y], |c|)));
  }

  // ---------------------------------------------------------- upsampling

  /** The delay lines after a whole input. */
  function UpDelays(input: seq<int>): Delays {
    Delays(Recent(Words(input), 3), Recent(ZeroStuffed(Drooped(input)), 87), Recent(ZeroStuffed(Doubled(input)), 15))
  }

  lemma UpNext(input: seq<int>, x: int)
    ensures var (d, y) := UpStep(UpDelays(input), x);
      UpDelays(input + [x]) == d && Upsampled(input + [x]) == Upsampled(input) + y
  {
    hide Fir, Filtered, Mapped, Recent, ZeroStuffed, Push;
    var d := UpDelays(input);
    var s := Stages(d, x);
    assert Words(input + [x]) == Words(input) + [ToInt16(x)];
    StageNext(DROOP, Down15, Words(input), ToInt16(x));
    var u := Down15(Fir(DROOP, s.h));
    assert Drooped(input + [x]) == Drooped(input) + [u];
    var e := ZeroStuffed(Drooped(input));
    StuffedNext(Drooped(input), u);
    StageNext(B1, Packed, e, u);
    StageNext(B1, Packed, e + [u], 0);
    var p, q := Packed(Fir(B1, s.d1[0])), Packed(Fir(B1, s.d1[1]));
    assert Doubled(input + [x]) == Doubled(input) + [p] + [q];
    var f := ZeroStuffed(Doubled(input));
    StuffedNext(Doubled(input), p);
    StuffedNext(Doubled(input) + [p], q);
    StageNext(B2, UpGain, f, p);
    StageNext(B2, UpGain, f + [p], 0);
    StageNext(B2, UpGain, f + [p] + [0], q);
    StageNext(B2, UpGain, f + [p] + [0] + [q], 0);
  }

  lemma UpOfNothing()
    ensures UpRun(Silent, []) == (UpDelays([]), Upsampled([]))
  {
    NothingYet(3);
    NothingYet(87);
    NothingYet(15);
    assert Upsampled([]) == [];
  }

  /** The upsampler, from silence, is its composition of filters. */
  lemma {:induction false} UpRefines(input: seq<int>)
    ensures UpRun(Silent, input) == (UpDelays(input), Upsampled(input))
  {
    hide UpStep, Fir, Filtered, Mapped, ZeroStuffed, Upsampled, UpDelays;
    if input == [] {
      UpOfNothing();
    } else {
      var n := |input| - 1;
      UpRefines(input[..n]);
      UpNext(input[..n], input[n]);
      assert input[..n] + [input[n]] == input;
    }
  }

  // ---------------------------------------------------------- downsampling

  function DownDelays(input: seq<int>): Delays {
    Delays(Recent(Quartered(input), 3), Recent(Halved(input), 87), Recent(Mapped(Half, input), 15))
  }

  lemma DownNext(input: seq<int>, x: int)
    ensures var (d, y) := DownStep(DownDelays(input), Second(|input|), Fourth(|input|), x);
      DownDelays(input + [x]) == d && Downsampled(input + [x]) == Downsampled(input) + y
  {
    hide Fir, Filtered, Mapped, Recent, Decimated, Push;
    var d := DownDelays(input);
    var a := Mapped(Half, input);
    MappedNext(Half, input, x);
    StageNext(B2, Down15, a, Half(x));
    var u := Down15(Fir(B2, Push(d.d2, Half(x))));
    DecimatedNext(Mapped(Down15, Filtered(B2, a)), u);
    if Second(|input|) {
      assert Halved(input + [x]) == Halved(input) + [u];
      StageNext(B1, Down15, Halved(input), u);
      var v := Down15(Fir(B1, Push(d.d1, u)));
      DecimatedNext(Mapped(Down15, Filtered(B1, Halved(input))), v);
      if Fourth(|input|) {
        StageNext(DROOP, DownGain, Quartered(input), v);
      }
    }
  }

  /** The downsampler, from silence, is its composition of filters. */
  lemma {:induction false} DownRefines(input: seq<int>)
    ensures DownRun(Silent, input) == (DownDelays(input), Downsampled(input))
  {
    if input == [] {
      NothingYet(3);
      NothingYet(87);
      NothingYet(15);
      assert Downsampled(input) == [];
    } else {
      hide DownStep, Fir, Filtered, Mapped, Decimated;
      var n := |input| - 1;
      DownRefines(input[..n]);
      DownNext(input[..n], input[n]);
      assert input[..n] + [input[n]] == input;
    }
  }
}
