/** Mode 0 of the RcFixed converter: a polyphase rational resampler.

    `State` is the abstract state of a context: the last `len` samples and the
    phase `position`, which is pending_count * up + remainder.  Reading a sample
    lowers the position by `up`, producing one raises it by `down`; all the
    counting below is arithmetic on that one number.  `Call` says in closed form
    what one call computes; the class proves that the 200-slot wrapping window,
    the incremental phase and the pending counter compute exactly that. */
module Polyphase {
  import opened FixedPoint

  datatype Bank = Bank(up: int, down: int, len: int, coeffs: seq<int>) {
    predicate Valid() {
      && 1 <= up <= 0x8000 && 1 <= down && 1 <= len <= 199
      && up * len <= |coeffs|
    }

    /** The position a call leaves behind is at least this. */
    function Floor(): int {
      if up <= down then up else down
    }

    function FreshPosition(): int
      requires up > 0
    {
      down % up + (if up <= down then up else 0)
    }
  }

  datatype State = State(window: seq<int>, position: int)

  ghost predicate ValidState(b: Bank, s: State) {
    b.Valid() && |s.window| == b.len && b.Floor() <= s.position < b.up + b.down
  }

  /** The position is less than one output step above the floor, where a call leaves it
      that produces all its input owes.  With up <= down every valid state is so. */
  ghost predicate Settled(b: Bank, s: State) {
    ValidState(b, s) && s.position < b.Floor() + b.down
  }

  function Fresh(b: Bank): State
    requires b.Valid()
  {
    State(Zeros(b.len), b.FreshPosition())
  }

  /** Inputs that must be read before output j of a call can be produced, and the
      filter branch that output uses. */
  function Need(b: Bank, position: int, j: int): int
    requires b.up > 0
  {
    (position + j * b.down) / b.up
  }

  function Phase(b: Bank, position: int, j: int): int
    requires b.up > 0
  {
    (position + j * b.down) % b.up
  }

  /** Output j, by its meaning: branch `Phase` of the bank applied to the `len`
      samples that precede input `Need`; `x` holds the old window and then the
      call's inputs. */
  function OutputAt(b: Bank, x: seq<int>, position: int, j: nat): int
    requires b.Valid() && 0 <= position && Need(b, position, j) + b.len <= |x|
  {
    NeedNat(b, position, j);
    PhaseInBank(b, Phase(b, position, j));
    ToInt16(Mac(b.coeffs, Phase(b, position, j) * b.len, x, Need(b, position, j), b.len) / 0x4000)
  }

  /** How many outputs n inputs give when capacity is no obstacle. */
  function OutputCount(b: Bank, position: int, n: nat): (r: nat)
    requires b.down > 0
  {
    var deficit := b.Floor() + n * b.up - position;
    if deficit <= 0 then 0 else ((deficit - 1) / b.down) + 1
  }

  function Produced(b: Bank, position: int, n: nat, capacity: nat): nat
    requires b.down > 0
  {
    var m := OutputCount(b, position, n);
    if m < capacity then m else capacity
  }

  /** Inputs read before the call returns. */
  function Consumed(b: Bank, position: int, n: nat, capacity: nat): int
    requires b.Valid() && 1 <= capacity
  {
    if OutputCount(b, position, n) < capacity then n else Need(b, position, capacity - 1)
  }

  function Call(b: Bank, s: State, xs: seq<int>, capacity: nat): (r: (seq<int>, State))
    requires b.Valid() && |s.window| == b.len && b.Floor() <= s.position < b.up + b.down && 1 <= capacity
    ensures |r.1.window| == b.len
  {
    CallInRange(b, s, |xs|, capacity);
    var x := s.window + Words(xs);
    var m := Produced(b, s.position, |xs|, capacity);
    var c := Consumed(b, s.position, |xs|, capacity);
    (seq(m, j requires 0 <= j < m => OutputAt(b, x, s.position, j)),
     State(x[c..c + b.len], s.position - c * b.up + m * b.down))
  }

  // ---------------------------------------------------------------- counting

  lemma NeedNat(b: Bank, position: int, j: nat)
    requires b.Valid() && 0 <= position
    ensures 0 <= Need(b, position, j)
  {
    MulMonotone(0, j, b.down);
  }

  lemma PhaseInBank(b: Bank, p: int)
    requires b.Valid() && 0 <= p < b.up
    ensures 0 <= p * b.len && p * b.len + b.len <= |b.coeffs|
  {
    MulMonotone(p + 1, b.up, b.len);
  }

  /** `OutputCount` is the only count that leaves a position in the settled range. */
  lemma CountUnique(b: Bank, position: int, n: nat, m: nat)
    requires b.Valid()
    requires b.Floor() <= position - n * b.up + m * b.down
    requires m == 0 || position - n * b.up + m * b.down < b.Floor() + b.down
    ensures OutputCount(b, position, n) == m
  {
    var deficit := b.Floor() + n * b.up - position;
    if m > 0 {
      assert deficit - 1 == (m - 1) * b.down + (deficit - 1 - (m - 1) * b.down);
      Quotient(deficit - 1, b.down, m - 1, deficit - 1 - (m - 1) * b.down);
    }
  }

  lemma CountSettles(b: Bank, position: int, n: nat)
    requires b.Valid()
    ensures var m := OutputCount(b, position, n);
      && b.Floor() <= position - n * b.up + m * b.down
      && (m > 0 ==> position - n * b.up + m * b.down < b.Floor() + b.down)
  {}

  /** An output is due within the call exactly when `Need` says so. */
  lemma NeedWithin(b: Bank, position: int, n: nat, j: nat)
    requires b.Valid() && b.Floor() <= position < b.up + b.down
    requires j < OutputCount(b, position, n)
    ensures 0 <= Need(b, position, j) <= n
  {
    CountSettles(b, position, n);
    NeedNat(b, position, j);
    var m := OutputCount(b, position, n);
    MulMonotone(j + 1, m, b.down);
    Distribute(j, 1, b.down);
    QuotientBelow(position + j * b.down, b.up, n);
  }

  lemma CallInRange(b: Bank, s: State, n: nat, capacity: nat)
    requires b.Valid() && |s.window| == b.len && b.Floor() <= s.position < b.up + b.down && 1 <= capacity
    ensures 0 <= Consumed(b, s.position, n, capacity) <= n
    ensures forall j :: 0 <= j < Produced(b, s.position, n, capacity) ==> 0 <= Need(b, s.position, j) <= n
  {
    forall j | 0 <= j < OutputCount(b, s.position, n)
      ensures 0 <= Need(b, s.position, j) <= n
    {
      NeedWithin(b, s.position, n, j);
    }
  }

  /** Output j falls due after exactly i inputs, on branch v. */
  lemma DueNow(b: Bank, position: int, n: nat, i: nat, j: nat, v: int)
    requires b.Valid() && position + j * b.down == v + i * b.up && 0 <= v < b.up
    requires i <= n && (i < n || v < b.Floor())
    ensures Need(b, position, j) == i && Phase(b, position, j) == v
    ensures j < OutputCount(b, position, n)
  {
    hide OutputCount;
    Quotient(position + j * b.down, b.up, i, v);
    CountSettles(b, position, n);
    var m := OutputCount(b, position, n);
    if m <= j {
      MulMonotone(m, j, b.down);
      assert b.Floor() + n * b.up <= v + i * b.up;
      if i < n {
        MulMonotone(i + 1, n, b.up);
      }
    }
  }

  lemma FreshSettled(b: Bank, pending: int)
    requires b.Valid() && pending == if b.up <= b.down then 1 else 0
    ensures pending * b.up + b.down % b.up == b.FreshPosition()
    ensures Settled(b, Fresh(b)) && ValidState(b, Fresh(b)) && 0 <= b.down % b.up < b.up
  {
    if b.down < b.up {
      Quotient(b.down, b.up, 0, b.down);
    }
  }

  // ------------------------------------------------------------- the context

  class RatioConverter {
    const coeffs: seq<int>
    const downFactor: int
    const upFactor: int
    const windowLen: int
    var windowBuf: array<int>
    var remainder: int
    var indexCopy: int
    var pendingCount: int

    ghost function Filter(): Bank {
      Bank(upFactor, downFactor, windowLen, coeffs)
    }

    ghost predicate Indexed()
      reads this, windowBuf
    {
      && Filter().Valid() && windowBuf.Length == 200
      && windowLen <= indexCopy <= 199 && 0 <= remainder < upFactor
    }

    ghost function Window(): (w: seq<int>)
      requires Indexed()
      reads this, windowBuf
    {
      windowBuf[indexCopy - windowLen..indexCopy]
    }

    ghost function Contents(): State
      requires Indexed()
      reads this, windowBuf
    {
      State(Window(), pendingCount * upFactor + remainder)
    }

    ghost predicate Valid()
      reads this, windowBuf
    {
      Indexed() && 0 <= pendingCount && ValidState(Filter(), Contents())
    }

    constructor (bank: Bank)
      requires bank.Valid()
      ensures Filter() == bank && Valid() && fresh(windowBuf)
      ensures Contents() == Fresh(bank)
      ensures windowBuf[..] == Zeros(200) && indexCopy == bank.len
      ensures remainder == bank.down % bank.up && pendingCount == if bank.up <= bank.down then 1 else 0
    {
      coeffs, downFactor, upFactor, windowLen := bank.coeffs, bank.down, bank.up, bank.len;
      windowBuf := new int[200](_ => 0);
      remainder := bank.down % bank.up;
      indexCopy := bank.len;
      pendingCount := if bank.up <= bank.down then 1 else 0;
      new;
      hide ValidState, Settled, Bank.Floor, Bank.FreshPosition;
      FreshSettled(bank, pendingCount);
      assert windowBuf[..] == Zeros(200);
      assert Window() == Zeros(windowLen);
    }

    /** Puts the context back in the state of a new one; returns the whole part of
        the rate ratio. */
    method Reset() returns (ratio: int)
      requires Valid()
      modifies this
      ensures Valid() && fresh(windowBuf) && ratio == downFactor / upFactor
      ensures Contents() == Fresh(Filter())
      ensures windowBuf[..] == Zeros(200) && indexCopy == windowLen
      ensures remainder == downFactor % upFactor && pendingCount == if upFactor <= downFactor then 1 else 0
    {
      windowBuf := new int[200](_ => 0);
      indexCopy := windowLen;
      pendingCount := if upFactor <= downFactor then 1 else 0;
      remainder := downFactor % upFactor;
      assert remainder < 0x8000;  // so the source's correction for a set bit 15 never applies
      hide ValidState, Settled, Bank.Floor, Bank.FreshPosition;
      FreshSettled(Filter(), pendingCount);
      assert windowBuf[..] == Zeros(200);
      assert Window() == Zeros(windowLen);
      return downFactor / upFactor;
    }

    /** Copies the tail of the full buffer to its front. */
    method Wrap()
      requires Filter().Valid() && windowBuf.Length == 200
      modifies windowBuf
      ensures windowBuf[..windowLen] == old(windowBuf[200 - windowLen..])
    {
      var start := 200 - windowLen;
      for i := 0 to windowLen
        invariant forall k :: 0 <= k < i ==> windowBuf[k] == old(windowBuf[start + k])
        invariant forall k :: i <= k < 200 ==> windowBuf[k] == old(windowBuf[k])
      {
        windowBuf[i] := windowBuf[start + i];
      }
    }

    method Push(sample: int)
      requires Indexed()
      modifies windowBuf, `indexCopy
      ensures Indexed()
      ensures Window() == old(Window())[1..] + [sample]
    {
      windowBuf[indexCopy] := sample;
      assert windowBuf[indexCopy + 1 - windowLen..indexCopy] == old(Window())[1..];
      if indexCopy == 199 {
        Wrap();
        assert windowBuf[..windowLen] == old(Window())[1..] + [sample];
        indexCopy := windowLen;
      } else {
        indexCopy := indexCopy + 1;
      }
    }

    /** Appends `count` of the samples to the window. */
    method Store(xs: seq<int>, from: nat, count: nat, ghost x: seq<int>)
      requires Indexed() && from + count <= |xs|
      requires |x| == windowLen + |xs| && x[windowLen..] == Words(xs) && Window() == x[from..from + windowLen]
      modifies windowBuf, `indexCopy
      ensures Indexed()
      ensures Window() == x[from + count..from + count + windowLen]
    {
      for i := from to from + count
        invariant Indexed()
        invariant Window() == x[i..i + windowLen]
      {
        assert x[i + windowLen] == x[windowLen..][i] == ToInt16(xs[i]);
        assert x[i + 1..i + 1 + windowLen] == x[i..i + windowLen][1..] + [x[i + windowLen]];
        Push(ToInt16(xs[i]));
      }
    }

    /** Produces one sample from the current branch and steps the phase. */
    method Emit() returns (y: int)
      requires Indexed()
      modifies `remainder, `pendingCount
      ensures Indexed() && 0 <= pendingCount
      ensures pendingCount * upFactor + remainder == old(remainder) + downFactor
      ensures old(remainder * windowLen >= 0 && remainder * windowLen + windowLen <= |coeffs|)
      ensures y == old(ToInt16(Mac(coeffs, remainder * windowLen, Window(), 0, windowLen) / 0x4000))
    {
      PhaseInBank(Filter(), remainder);
      var base := remainder * windowLen;
      var acc := 0;
      var start := indexCopy - windowLen;
      for i := 0 to windowLen
        invariant acc == Mac(coeffs, base, Window(), 0, i)
      {
        acc := acc + coeffs[base + i] * windowBuf[start + i];
      }
      y := ToInt16(acc / 0x4000);

      var v := remainder + downFactor;
      pendingCount := 0;
      while v >= upFactor
        invariant 0 <= v && 0 <= pendingCount
        invariant pendingCount * upFactor + v == old(remainder) + downFactor
      {
        pendingCount := pendingCount + 1;
        v := v - upFactor;
      }
      remainder := v;
    }

    /** One turn of the loop: reads the pending samples and produces one, or reads
        all that is left and pauses. */
    method Turn(inSamples: seq<int>, from: nat, ghost x: seq<int>) returns (taken: nat, y: int, produced: bool)
      requires Indexed() && 0 <= pendingCount && from < |inSamples|
      requires |x| == windowLen + |inSamples| && x[windowLen..] == Words(inSamples)
      requires Window() == x[from..from + windowLen]
      modifies windowBuf, `indexCopy, `remainder, `pendingCount
      ensures Indexed() && 0 <= pendingCount && from + taken <= |inSamples|
      ensures Window() == x[from + taken..from + taken + windowLen]
      ensures produced == (old(pendingCount) <= |inSamples| - from)
      ensures taken == if produced then old(pendingCount) else |inSamples| - from
      ensures !produced ==> pendingCount == old(pendingCount) - taken && remainder == old(remainder)
      ensures produced ==> pendingCount * upFactor + remainder == old(remainder) + downFactor
      ensures produced ==> BranchOutput(Filter(), x, from + taken, old(remainder), y)
    {
      hide Mac, ToInt16, Words, BranchOutput;
      var pending, remaining := pendingCount, |inSamples| - from;
      taken := if pending < remaining then pending else remaining;
      y := 0;
      if taken > 0 {
        Store(inSamples, from, taken, x);
      }
      if pending > remaining {
        pendingCount := pending - remaining;
        produced := false;
      } else {
        ghost var v, w := remainder, Window();
        y := Emit();
        BranchOfWindow(Filter(), v, w, x, from + taken, y);
        produced := true;
      }
    }

    lemma Begins(xs: seq<int>)
      requires Valid()
      ensures var x := Contents().window + Words(xs);
        && Indexed() && 0 <= pendingCount
        && |x| == windowLen + |xs| && x[windowLen..] == Words(xs) && Window() == x[0..windowLen]
        && Progress(Filter(), Contents(), xs, 0, [], pendingCount, remainder)
    {}

    lemma Ends(b: Bank, s: State, xs: seq<int>, i: int, out: seq<int>, capacity: nat)
      requires Indexed() && 0 <= pendingCount && b == Filter() && 1 <= capacity
      requires Progress(b, s, xs, i, out, pendingCount, remainder)
      requires (i == |xs| && |out| < capacity) || (|out| == capacity && Need(b, s.position, capacity - 1) == i)
      requires Window() == (s.window + Words(xs))[i..i + b.len]
      ensures Valid() && (out, Contents()) == Call(b, s, xs, capacity)
    {
      hide Call;
      Finishes(b, s, xs, i, out, pendingCount, remainder, Window(), capacity);
    }

    /** One call.  The buffers, the phase and the pending counter compute `Call`. */
    method Resample(inSamples: seq<int>, outCapacity: nat) returns (outSamples: seq<int>, outCount: nat)
      requires Valid() && 1 <= outCapacity
      modifies windowBuf, `indexCopy, `remainder, `pendingCount
      ensures Valid()
      ensures (outSamples, Contents()) == Call(Filter(), old(Contents()), inSamples, outCapacity)
      ensures outCount == |outSamples|
    {
      hide Progress, OutputsDue, BranchOutput, Call, ValidState, Valid, Contents, Window, Need, Mac, OutputCount;
      Begins(inSamples);
      ghost var b, s := Filter(), Contents();
      ghost var x := s.window + Words(inSamples);
      outSamples, outCount := [], 0;
      var inIndex: nat, remaining: nat := 0, |inSamples|;
      while remaining > 0
        invariant Indexed() && 0 <= pendingCount && inIndex + remaining == |inSamples|
        invariant outCount == |outSamples| < outCapacity
        invariant Window() == x[inIndex..inIndex + windowLen]
        invariant Progress(b, s, inSamples, inIndex, outSamples, pendingCount, remainder)
        decreases remaining, if pendingCount == 0 then upFactor - remainder else 0
      {
        ghost var p, v := pendingCount, remainder;
        var taken, y, produced := Turn(inSamples, inIndex, x);
        inIndex := inIndex + taken;
        remaining := remaining - taken;
        if !produced {
          Pauses(b, s, inSamples, inIndex - taken, outSamples, p, v);
          break;
        }
        Produces(b, s, inSamples, inIndex - taken, outSamples, p, v, y, pendingCount, remainder);
        outSamples := outSamples + [y];
        outCount := outCount + 1;
        if outCount == outCapacity {
          break;
        }
      }
      Ends(b, s, inSamples, inIndex, outSamples, outCapacity);
    }
  }

  // -------------------------------------------- where a call stands in its loop

  ghost predicate BranchOutput(b: Bank, x: seq<int>, off: nat, v: int, y: int) {
    && 0 <= v * b.len && v * b.len + b.len <= |b.coeffs| && 0 <= b.len && off + b.len <= |x|
    && y == ToInt16(Mac(b.coeffs, v * b.len, x, off, b.len) / 0x4000)
  }

  lemma BranchOfWindow(b: Bank, v: int, w: seq<int>, x: seq<int>, off: nat, y: int)
    requires 0 <= v * b.len && v * b.len + b.len <= |b.coeffs| && 0 <= b.len == |w| && off + b.len <= |x|
    requires w == x[off..off + b.len] && y == ToInt16(Mac(b.coeffs, v * b.len, w, 0, b.len) / 0x4000)
    ensures BranchOutput(b, x, off, v, y)
  {
    hide ToInt16;
    MacEqual(b.coeffs, v * b.len, w, 0, x, off, b.len);
  }

  /** `out` holds the first |out| outputs of the call, each of them due, and i of
      its inputs have been read. */
  ghost predicate Progress(b: Bank, s: State, xs: seq<int>, i: int, out: seq<int>, pending: int, v: int) {
    var position := pending * b.up + v;
    && ValidState(b, s) && 0 <= i <= |xs| && |out| <= OutputCount(b, s.position, |xs|)
    && b.Floor() <= position < b.up + b.down
    && position == s.position - i * b.up + |out| * b.down
    && (i == |xs| && i + |out| > 0 ==> position < b.Floor() + b.down)
    && OutputsDue(b, s, xs, out)
  }

  ghost predicate OutputsDue(b: Bank, s: State, xs: seq<int>, out: seq<int>)
    requires ValidState(b, s)
  {
    forall j :: 0 <= j < |out| ==>
      Need(b, s.position, j) <= |xs| && out[j] == OutputAt(b, s.window + Words(xs), s.position, j)
  }

  lemma Produces(b: Bank, s: State, xs: seq<int>, i: int, out: seq<int>, p: int, v: int, y: int, p': int, v': int)
    requires Progress(b, s, xs, i, out, p, v) && i < |xs|
    requires 0 <= v < b.up && 0 <= p <= |xs| - i && p' * b.up + v' == v + b.down
    requires BranchOutput(b, s.window + Words(xs), i + p, v, y)
    ensures Progress(b, s, xs, i + p, out + [y], p', v')
    ensures Need(b, s.position, |out|) == i + p
    ensures p == 0 && p' == 0 ==> v < v'
  {
    Distribute(i, p, b.up);
    Distribute(|out|, 1, b.down);
    if p > 1 { MulMonotone(2, p, b.up); }
    DueNow(b, s.position, |xs|, i + p, |out|, v);
  }

  lemma Pauses(b: Bank, s: State, xs: seq<int>, i: int, out: seq<int>, p: int, v: int)
    requires Progress(b, s, xs, i, out, p, v) && i < |xs|
    requires p > |xs| - i && 0 <= v < b.up
    ensures Progress(b, s, xs, |xs|, out, p - (|xs| - i), v)
  {
    hide OutputsDue, OutputCount;
    var n := |xs| - i;
    MulMonotone(1, p - n, b.up);
    MulMonotone(1, n, b.up);
    Distribute(p, n, b.up);
    Distribute(i, n, b.up);
  }

  lemma Finishes(b: Bank, s: State, xs: seq<int>, i: int, out: seq<int>, p: int, v: int, window: seq<int>,
                 capacity: nat)
    requires Progress(b, s, xs, i, out, p, v) && 1 <= capacity
    requires (i == |xs| && |out| < capacity) || (|out| == capacity && Need(b, s.position, capacity - 1) == i)
    requires window == (s.window + Words(xs))[i..i + b.len]
    ensures (out, State(window, p * b.up + v)) == Call(b, s, xs, capacity)
    ensures ValidState(b, State(window, p * b.up + v))
  {
    if i == |xs| && |out| < capacity {
      CountUnique(b, s.position, |xs|, |out|);
    }
    assert Produced(b, s.position, |xs|, capacity) == |out|;
    assert Consumed(b, s.position, |xs|, capacity) == i;
    assert Call(b, s, xs, capacity).0 == out;
  }
}
