/** The V.90 training sequence: the scrambler with generator 1 + x^-18 + x^-23 of
    section 7 of ITU-T V.34, fed with ones. */
module Scrambler {

  type bit = x: int | 0 <= x < 2

  function Xor(a: bit, b: bit): bit {
    if a == b then 0 else 1
  }

  /** Bit k of an output, silence before its start. */
  function BitAt(bits: seq<bit>, k: int): bit {
    if 0 <= k < |bits| then bits[k] else 0
  }

  /** What the descrambler makes of bit k: the bit and the bits 18 and 23 before it. */
  function Descrambled(bits: seq<bit>, k: int): bit {
    Xor(Xor(BitAt(bits, k), BitAt(bits, k - 18)), BitAt(bits, k - 23))
  }

  ghost predicate DescramblesToOnes(bits: seq<bit>) {
    forall k :: 0 <= k < |bits| ==> Descrambled(bits, k) == 1
  }

  /** Antipodal symbols stand for bits: 2 * bit - 1. */
  function Bits(symbols: seq<int>): (bits: seq<bit>)
    ensures |bits| == |symbols|
  {
    seq(|symbols|, i requires 0 <= i < |symbols| => if symbols[i] == 1 then 1 else 0)
  }

  method Trn1d(length: nat) returns (symbols: seq<int>)
    ensures |symbols| == length && forall k :: 0 <= k < length ==> symbols[k] == 1 || symbols[k] == -1
    ensures DescramblesToOnes(Bits(symbols))
  {
    var output: seq<bit> := [];
    for index := 0 to length
      invariant |output| == index && DescramblesToOnes(output)
    {
      ghost var before := output;
      var delayed18: bit := if index >= 18 then output[index - 18] else 0;
      var delayed23: bit := if index >= 23 then output[index - 23] else 0;
      output := output + [Xor(Xor(1, delayed18), delayed23)];
      assert forall k :: 0 <= k < index ==> Descrambled(output, k) == Descrambled(before, k);
    }
    symbols := seq(length, i requires 0 <= i < length => 2 * output[i] as int - 1);
    assert Bits(symbols) == output;
  }

  /** There is one such output of each length, so the method's is it. */
  lemma {:induction false} OutputUnique(a: seq<bit>, b: seq<bit>)
    requires |a| == |b| && DescramblesToOnes(a) && DescramblesToOnes(b)
    ensures a == b
  {
    forall k | 0 <= k < |a|
      ensures a[k] == b[k]
    {
      AgreeAt(a, b, k);
    }
  }

  /** How every output begins, as symbols: 18 times +1, 5 times -1, 13 times +1 and 5
      times -1. */
  lemma {:induction false} FirstSymbols(symbols: seq<int>, k: nat)
    requires forall i :: 0 <= i < |symbols| ==> symbols[i] == 1 || symbols[i] == -1
    requires DescramblesToOnes(Bits(symbols)) && k < |symbols| && k < 41
    ensures symbols[k] == if k < 18 || 23 <= k < 36 then 1 else -1
  {
    assert Descrambled(Bits(symbols), k) == 1;
    if k >= 18 { FirstSymbols(symbols, k - 18); }
    if k >= 23 { FirstSymbols(symbols, k - 23); }
  }

  lemma {:induction false} AgreeAt(a: seq<bit>, b: seq<bit>, k: nat)
    requires |a| == |b| && DescramblesToOnes(a) && DescramblesToOnes(b) && k < |a|
    ensures a[k] == b[k]
  {
    if k >= 18 { AgreeAt(a, b, k - 18); }
    if k >= 23 { AgreeAt(a, b, k - 23); }
    assert Descrambled(a, k) == 1 && Descrambled(b, k) == 1;
  }

  /** A stretch of scrambler output, from any state. */
  ghost predicate Stretch(bits: seq<bit>) {
    forall k :: 23 <= k < |bits| ==> Descrambled(bits, k) == 1
  }

  lemma PartIsStretch(bits: seq<bit>, from: nat, to: nat)
    requires DescramblesToOnes(bits) && from <= to <= |bits|
    ensures Stretch(bits[from..to])
  {
    forall k | 23 <= k < to - from
      ensures Descrambled(bits[from..to], k) == 1
    {
      assert Descrambled(bits, from + k) == 1;
    }
  }

  /** Two runs that agree on 23 consecutive bits agree forever after: those bits are
      the whole state. */
  lemma {:induction false} AgreementLasts(a: seq<bit>, b: seq<bit>, k: nat)
    requires Stretch(a) && Stretch(b) && 23 <= |a| <= |b| && a[..23] == b[..23] && k < |a|
    ensures a[k] == b[k]
  {
    if k >= 23 {
      AgreementLasts(a, b, k - 18);
      AgreementLasts(a, b, k - 23);
      assert Descrambled(a, k) == 1 && Descrambled(b, k) == 1;
    } else {
      assert a[..23][k] == b[..23][k];
    }
  }

  /** Once 23 consecutive bits of an output come again, the output repeats from there. */
  lemma RepeatsFrom(bits: seq<bit>, from: nat, again: nat, k: nat)
    requires DescramblesToOnes(bits) && from <= again && again + 23 <= |bits|
    requires bits[from..from + 23] == bits[again..again + 23]
    requires again + k < |bits|
    ensures bits[again + k] == bits[from + k]
  {
    var a, b := bits[again..|bits|], bits[from..|bits|];
    PartIsStretch(bits, again, |bits|);
    PartIsStretch(bits, from, |bits|);
    assert a[..23] == bits[again..again + 23] && b[..23] == bits[from..from + 23];
    AgreementLasts(a, b, k);
  }

  ghost predicate AllOnes(bits: seq<bit>, from: int) {
    from + 23 <= |bits| && forall k :: from <= k < from + 23 ==> BitAt(bits, k) == 1
  }

  /** The lock-up state is reached only from itself ... */
  lemma LockUpBefore(bits: seq<bit>, from: nat)
    requires DescramblesToOnes(bits) && AllOnes(bits, from)
    ensures AllOnes(bits, from - 1)
  {
    assert Descrambled(bits, from + 22) == 1;
    assert BitAt(bits, from + 22) == 1 && BitAt(bits, from + 4) == 1;
    assert BitAt(bits, from - 1) == 1;
  }

  /** ... and so never from the silent start: no 23 consecutive symbols are all +1. */
  lemma {:induction false} NeverLocksUp(bits: seq<bit>, from: int)
    requires DescramblesToOnes(bits) && from >= -1
    ensures !AllOnes(bits, from)
    decreases from
  {
    if from == -1 {
      assert BitAt(bits, -1) == 0;
    } else if AllOnes(bits, from) {
      LockUpBefore(bits, from);
      NeverLocksUp(bits, from - 1);
    }
  }
}
