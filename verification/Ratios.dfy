/** The ratios the converter is built for, and the exact block arithmetic of the
    pair the slmodem bridge uses. */
module Ratios {
  import opened Polyphase
  import opened PolyphaseLaws

  const UP_FACTOR: seq<int> := [4, 1, 6, 5, 6, 1, 5, 1, 4, 1, 24, 5, 5, 4, 3, 2, 10, 3, 10, 9]
  const DOWN_FACTOR: seq<int> := [1, 4, 5, 6, 1, 6, 1, 5, 1, 4, 5, 24, 4, 5, 2, 3, 3, 10, 9, 10]
  const WINDOW_LEN: seq<int> := [0, 0, 36, 32, 36, 68, 32, 68, 46, 68, 40, 68, 28, 58, 42, 48, 38, 68, 38, 32]

  const NET_TO_MODEM := 2   // 8 kHz to 9.6 kHz
  const MODEM_TO_NET := 3   // 9.6 kHz to 8 kHz

  predicate IsRational(code: int) { 2 <= code < 20 }

  function BankOf(code: int, coeffs: seq<int>): Bank
    requires IsRational(code)
  {
    Bank(UP_FACTOR[code], DOWN_FACTOR[code], WINDOW_LEN[code], coeffs)
  }

  /** A combination that makes one: the factors of the code share no divisor. */
  function Combination(code: int): (int, int)
    requires IsRational(code)
  {
    var u, d := UP_FACTOR[code], DOWN_FACTOR[code];
    if u == d + 1 then (1, -1) else if d == u + 1 then (-1, 1) else if u == 1 then (1, 0) else if d == 1 then (0, 1)
    else if u == 24 then (-1, 5) else if d == 24 then (5, -1) else if u == 10 then (1, -3) else (-3, 1)
  }

  lemma CoprimeFrom(a: int, b: int, x: int, y: int)
    requires a * x + b * y == 1
    ensures Coprime(a, b)
  {
    forall d | 2 <= d && Divides(d, a)
      ensures !Divides(d, b)
    {
      if Divides(d, b) {
        var p, q := a / d, b / d;
        assert a * x == p * x * d && b * y == q * y * d;
        OneHasNoDivisor(p * x + q * y, d);
      }
    }
  }

  /** Every rational code has a valid bank, given a table of at least up * len taps,
      starts settled, and uses all its branches evenly. */
  lemma RatioTable(code: int, coeffs: seq<int>)
    requires IsRational(code) && UP_FACTOR[code] * WINDOW_LEN[code] <= |coeffs|
    ensures var b := BankOf(code, coeffs);
      b.Valid() && Settled(b, Fresh(b)) && Coprime(b.up, b.down)
  {
    var b := BankOf(code, coeffs);
    var (x, y) := Combination(code);
    assert b.up * x + b.down * y == 1;
    CoprimeFrom(b.up, b.down, x, y);
    FreshSettled(b, if b.up <= b.down then 1 else 0);
  }

  /** The two rates each code is named after, in Hz, and the length of its table of taps. */
  const FROM_HZ: seq<int> := [
    8000, 32000, 8000, 9600, 8000, 48000, 9600, 48000, 9600, 38400, 8000, 38400, 9600, 12000, 8000, 12000, 9600,
    32000, 7200, 8000]

  const TO_HZ: seq<int> := [
    32000, 8000, 9600, 8000, 48000, 8000, 48000, 9600, 38400, 9600, 38400, 8000, 12000, 9600, 12000, 8000, 32000,
    9600, 8000, 7200]

  const TAPS: seq<int> := [
    0, 0, 216, 160, 216, 68, 160, 68, 184, 68, 960, 340, 140, 232, 126, 96, 380, 204, 380, 288]

  /** The factors convert between the rates the code is named after (the two cascades
      between any pair in the ratio of 4), and the windows use up the table of taps. */
  lemma FactorsFitRates(code: nat)
    requires code < 20
    ensures FROM_HZ[code] * UP_FACTOR[code] == TO_HZ[code] * DOWN_FACTOR[code]
    ensures UP_FACTOR[code] * WINDOW_LEN[code] == TAPS[code]
  {}

  // ---------------------------------------------------------- the bridge's pair

  /** 80 network samples into a buffer of 96: always all read, always exactly 96. */
  lemma NetBlockExact(b: Bank, s: State, xs: seq<int>)
    requires Settled(b, s) && b.up == 6 && b.down == 5 && |xs| == 80
    ensures var (out, t) := Call(b, s, xs, 96);
      |out| == 96 && t.position == s.position && Consumed(b, s.position, 80, 96) == 80
  {
    LosslessIsWhole(b, s, xs, 96);
    LosslessIff(b, s, 80, 96);
    BlockExact(b, s, xs, 16);
  }

  /** 96 modem samples into a buffer of 80 give exactly 80 from every settled state,
      and lose a sample exactly from the mid-pair state (one pending, no remainder),
      which that loss puts right. */
  lemma ModemBlockExact(b: Bank, s: State, xs: seq<int>)
    requires Settled(b, s) && b.up == 5 && b.down == 6 && |xs| == 96
    ensures var (out, t) := Call(b, s, xs, 80);
      && |out| == 80 && Settled(b, t)
      && 96 - Consumed(b, s.position, 96, 80) == (if s.position == 5 then 1 else 0)
      && t.position == if s.position == 5 then 10 else s.position
  {
    LosslessIff(b, s, 96, 80);
    BlockExact(b, s, xs, 16);
    assert OutputCount(b, s.position, 96) == 80;
  }

  /** Any input to the modem-to-network converter that is shorter than what is
      pending gives nothing; any other gives something. */
  lemma ModemGivesNothingIff(b: Bank, s: State, xs: seq<int>)
    requires Settled(b, s) && b.up == 5 && b.down == 6
    ensures Call(b, s, xs, 80).0 == [] <==> |xs| < s.position / 5
    ensures s.position / 5 <= 2
  {
    hide OutputAt;
    CountSettles(b, s.position, |xs|);
  }

  ghost predicate Blocks96(calls: seq<Request>) {
    forall i :: 0 <= i < |calls| ==> |calls[i].samples| == 96 && calls[i].capacity == 80
  }

  /** From a new converter no run of 96-to-80 blocks ever loses anything. */
  lemma {:induction false} AlignedBlocksLoseNothing(b: Bank, s: State, calls: seq<Request>)
    requires Settled(b, s) && b.up == 5 && b.down == 6 && s.position == b.FreshPosition()
    requires Blocks96(calls)
    ensures NothingLost(b, s, calls) && |Run(b, s, calls).0| == 80 * |calls|
    decreases |calls|
  {
    if calls != [] {
      ModemBlockExact(b, s, calls[0].samples);
      LosslessIff(b, s, 96, 80);
      AlignedBlocksLoseNothing(b, Call(b, s, calls[0].samples, 80).1, calls[1..]);
    }
  }

  // ---------------------------------------------------------- the odd states happen

  /** Where the modem-to-network converter goes from its first position by an input a
      little short of a block. */
  lemma AfterShortInput(b: Bank, s: State, xs: seq<int>)
    requires ValidState(b, s) && b.up == 5 && b.down == 6 && s.position == 6 && (|xs| == 94 || |xs| == 95)
    ensures Consumed(b, 6, |xs|, 80) == |xs|
    ensures Call(b, s, xs, 80).1.position == (if |xs| == 94 then 10 else 5)
  {
    hide OutputAt;
    LosslessIff(b, s, |xs|, 80);
    LosslessProducesAll(b, s, |xs|, 80);
    assert OutputCount(b, 6, |xs|) == 79;
  }

  /** One sample short of a block, and the next whole block loses its last sample. */
  lemma ShortBlockThenLoss(b: Bank, xs: seq<int>, ys: seq<int>)
    requires b.Valid() && b.up == 5 && b.down == 6 && |xs| == 95 && |ys| == 96
    ensures ValidState(b, Fresh(b))
    ensures var t := Call(b, Fresh(b), xs, 80).1;
      ValidState(b, t) && Consumed(b, t.position, 96, 80) == 95
  {
    FreshSettled(b, 1);
    AfterShortInput(b, Fresh(b), xs);
    CallKeepsValid(b, Fresh(b), xs, 80);
    var t := Call(b, Fresh(b), xs, 80).1;
    assert Settled(b, t);
    hide Call;
    ModemBlockExact(b, t, ys);
  }

  /** One sample into a new network-to-modem converter with room for one output leaves
      an unsettled state. */
  lemma FullCallUnsettles(b: Bank, xs: seq<int>)
    requires b.Valid() && b.up == 6 && b.down == 5 && |xs| == 1
    ensures ValidState(b, Fresh(b))
    ensures var t := Call(b, Fresh(b), xs, 1).1;
      ValidState(b, t) && t.position == 10 && !Settled(b, t)
  {
    hide OutputAt;
    FreshSettled(b, 0);
    CallKeepsValid(b, Fresh(b), xs, 1);
    CallSettlesIff(b, Fresh(b), xs, 1);
  }
}
