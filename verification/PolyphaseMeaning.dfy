/** The reference definition of rational resampling, and the proof that mode 0 is
    it: put up - 1 zeros after every input sample, convolve with the prototype
    filter whose every up-th taps are one branch of the bank, and keep every
    down-th sample of the result. */
module PolyphaseMeaning {
  import opened FixedPoint
  import opened Polyphase
  import opened PolyphaseLaws

  lemma TapInBank(b: Bank, t: int)
    requires b.Valid() && 0 <= t < b.up * b.len
    ensures 0 <= t / b.up < b.len
    ensures 0 <= (t % b.up) * b.len + (b.len - 1 - t / b.up) < |b.coeffs|
  {
    assert (b.len - 1) * b.up + b.up == b.up * b.len;
    QuotientBelow(t, b.up, b.len - 1);
    PhaseInBank(b, t % b.up);
  }

  /** Tap t of the prototype filter, newest sample first. */
  function Prototype(b: Bank, t: int): int
    requires b.Valid() && 0 <= t < b.up * b.len
  {
    TapInBank(b, t);
    b.coeffs[(t % b.up) * b.len + (b.len - 1 - t / b.up)]
  }

  /** Sample t of the input with up - 1 zeros after each sample; silence before it. */
  function Stuffed(up: int, x: seq<int>, t: int): int
    requires up > 0
  {
    if t % up == 0 && 0 <= t / up < |x| then x[t / up] else 0
  }

  /** The first n terms of the convolution at time t. */
  function Convolve(b: Bank, x: seq<int>, t: int, n: nat): int
    requires b.Valid() && n <= b.up * b.len
  {
    if n == 0 then 0 else Convolve(b, x, t, n - 1) + Prototype(b, n - 1) * Stuffed(b.up, x, t - (n - 1))
  }

  /** Output n of a new context that has been fed `input`. */
  function Resampled(b: Bank, input: seq<int>, n: nat): int
    requires b.Valid()
  {
    ToInt16(Convolve(b, Words(input), n * b.down + b.FreshPosition() - b.up, b.up * b.len) / 0x4000)
  }

  lemma BlockInRange(b: Bank, t: int, k: nat)
    requires b.Valid() && k < b.len
    ensures 0 <= k * b.up && k * b.up + b.up <= b.up * b.len
    ensures 0 <= (t % b.up) * b.len + (b.len - 1 - k) < |b.coeffs|
  {
    MulMonotone(k + 1, b.len, b.up);
    Distribute(k, 1, b.up);
    PhaseInBank(b, t % b.up);
  }

  /** Tap i of block k meets a sample only when it is on the branch of time t. */
  lemma TapTerm(b: Bank, x: seq<int>, t: int, k: nat, i: nat)
    requires b.Valid() && k < b.len && i < b.up
    ensures 0 <= k * b.up + i < b.up * b.len && 0 <= (t % b.up) * b.len + (b.len - 1 - k) < |b.coeffs|
    ensures Prototype(b, k * b.up + i) * Stuffed(b.up, x, t - (k * b.up + i)) ==
      if i != t % b.up then 0
      else b.coeffs[(t % b.up) * b.len + (b.len - 1 - k)] * Stuffed(b.up, x, t - t % b.up - k * b.up)
  {
    hide Stuffed;
    BlockInRange(b, t, k);
    Quotient(k * b.up + i, b.up, k, i);
    if i != t % b.up {
      OffBranch(b.up, x, t, k, i);
    }
  }

  /** Of the `up` taps of block k, only the one on the branch of time t meets a
      sample. */
  lemma {:induction false} BlockOfTaps(b: Bank, x: seq<int>, t: int, k: nat, r: nat)
    requires b.Valid() && k < b.len && r <= b.up
    ensures 0 <= k * b.up && k * b.up + b.up <= b.up * b.len
    ensures 0 <= (t % b.up) * b.len + (b.len - 1 - k) < |b.coeffs|
    ensures Convolve(b, x, t, k * b.up + r) == Convolve(b, x, t, k * b.up) +
      if r <= t % b.up then 0
      else b.coeffs[(t % b.up) * b.len + (b.len - 1 - k)] * Stuffed(b.up, x, t - t % b.up - k * b.up)
  {
    hide Stuffed, Prototype;
    BlockInRange(b, t, k);
    if r > 0 {
      BlockOfTaps(b, x, t, k, r - 1);
      TapTerm(b, x, t, k, r - 1);
    }
  }

  lemma OffBranch(up: int, x: seq<int>, t: int, k: int, r: int)
    requires 0 < up && 0 <= r < up && r != t % up
    ensures Stuffed(up, x, t - (k * up + r)) == 0
  {
    var p, q, a := t % up, t / up, t - (k * up + r);
    Distribute(q, k, up);
    Distribute(q - k, 1, up);
    if p > r {
      Quotient(a, up, q - k, p - r);
    } else {
      Quotient(a, up, q - k - 1, up + p - r);
    }
  }

  lemma StuffedIsPadded(up: int, x: seq<int>, len: nat, j: int)
    requires 0 < up && 0 <= len + j && j < |x|
    ensures Stuffed(up, x, j * up) == (Zeros(len) + x)[len + j]
  {
    Quotient(j * up, up, j, 0);
  }

  lemma BranchTerm(b: Bank, x: seq<int>, q: nat, p: int, i: nat)
    requires b.Valid() && i < b.len && 0 <= p < b.up && q <= |x|
    ensures 0 <= i * b.up && i * b.up + b.up <= b.up * b.len
    ensures 0 <= p * b.len && p * b.len + b.len <= |b.coeffs|
    ensures var t := (q - 1) * b.up + p;
      Convolve(b, x, t, i * b.up + b.up) == Convolve(b, x, t, i * b.up)
        + b.coeffs[p * b.len + b.len - 1 - i] * (Zeros(b.len) + x)[q + b.len - 1 - i]
  {
    hide Convolve, Stuffed, Prototype, Zeros;
    PhaseInBank(b, p);
    var t := (q - 1) * b.up + p;
    Quotient(t, b.up, q - 1, p);
    BlockOfTaps(b, x, t, i, b.up);
    assert t - p - i * b.up == (q - 1 - i) * b.up;
    StuffedIsPadded(b.up, x, b.len, q - 1 - i);
  }

  /** k blocks of taps are the last k terms of the branch sum; `q` is the number of
      samples read, so the newest of them is x[q - 1]. */
  lemma {:induction false} BranchSum(b: Bank, x: seq<int>, q: nat, p: int, k: nat)
    requires b.Valid() && k <= b.len && 0 <= p < b.up && q <= |x|
    ensures 0 <= p * b.len && p * b.len + b.len <= |b.coeffs| && k * b.up <= b.up * b.len && 0 <= k * b.up
    ensures Convolve(b, x, (q - 1) * b.up + p, k * b.up)
      == Mac(b.coeffs, p * b.len + b.len - k, Zeros(b.len) + x, q + b.len - k, k)
  {
    PhaseInBank(b, p);
    MulMonotone(k, b.len, b.up);
    if k > 0 {
      hide Convolve, Mac, Prototype, Zeros;
      BranchSum(b, x, q, p, k - 1);
      BranchTerm(b, x, q, p, k - 1);
      Distribute(k - 1, 1, b.up);
      MacFromFront(b.coeffs, p * b.len + b.len - k, Zeros(b.len) + x, q + b.len - k, k);
    }
  }

  /** From a new context, every way of cutting an input into calls that lose
      nothing gives the zero-stuffed, filtered and decimated input. */
  lemma Refinement(b: Bank, calls: seq<Request>)
    requires b.Valid() && (FreshSettled(b, if b.up <= b.down then 1 else 0); NothingLost(b, Fresh(b), calls))
    ensures ValidState(b, Fresh(b))
    ensures var input := Joined(calls);
      && |Run(b, Fresh(b), calls).0| == OutputCount(b, b.FreshPosition(), |input|)
      && forall n :: 0 <= n < |Run(b, Fresh(b), calls).0| ==> Run(b, Fresh(b), calls).0[n] == Resampled(b, input, n)
  {
    hide Resampled, NothingLost, Run, Whole;
    FreshSettled(b, if b.up <= b.down then 1 else 0);
    RunIsWhole(b, Fresh(b), calls);
    WholeIsResampled(b, Joined(calls));
  }

  lemma WholeIsResampled(b: Bank, input: seq<int>)
    requires b.Valid()
    ensures ValidState(b, Fresh(b))
    ensures var out := Whole(b, Fresh(b), input).0;
      && |out| == OutputCount(b, b.FreshPosition(), |input|)
      && forall n :: 0 <= n < |out| ==> out[n] == Resampled(b, input, n)
  {
    hide OutputAt, Resampled;
    FreshSettled(b, if b.up <= b.down then 1 else 0);
    forall n | 0 <= n < OutputCount(b, b.FreshPosition(), |input|)
      ensures Whole(b, Fresh(b), input).0[n] == Resampled(b, input, n)
    {
      NeedWithin(b, b.FreshPosition(), |input|, n);
      OutputIsResampled(b, input, n);
    }
  }

  lemma OutputIsResampled(b: Bank, input: seq<int>, n: nat)
    requires b.Valid() && 0 <= Need(b, b.FreshPosition(), n) <= |input|
    ensures OutputAt(b, Zeros(b.len) + Words(input), b.FreshPosition(), n) == Resampled(b, input, n)
  {
    hide Convolve, Mac, ToInt16, Words, Zeros;
    var q, p := Need(b, b.FreshPosition(), n), Phase(b, b.FreshPosition(), n);
    Distribute(q, 1, b.up);
    assert n * b.down + b.FreshPosition() - b.up == (q - 1) * b.up + p;
    BranchSum(b, Words(input), q, p, b.len);
  }
}
