/** What a mode-0 context computes over its life: runs of calls, capacity, exact
    blocks, and the textbook meaning (zero-stuff, convolve, decimate). */
module PolyphaseLaws {
  import opened FixedPoint
  import opened Polyphase

  // ---------------------------------------------------------- capacity

  /** A call loses input exactly when its last allowed output is due before its
      last input. */
  lemma LosslessIff(b: Bank, s: State, n: nat, capacity: nat)
    requires ValidState(b, s) && 1 <= capacity
    ensures Consumed(b, s.position, n, capacity) == n <==> n <= Need(b, s.position, capacity - 1)
    ensures var need := Need(b, s.position, capacity - 1);
      n - Consumed(b, s.position, n, capacity) == if need < n then n - need else 0
  {
    hide Phase;
    var count, j := OutputCount(b, s.position, n), capacity - 1;
    if j < count {
      NeedWithin(b, s.position, n, j);
    } else {
      CountSettles(b, s.position, n);
      MulMonotone(count, j, b.down);
      QuotientAtLeast(s.position + j * b.down, b.up, n);
    }
  }

  lemma QuotientAtLeast(a: int, d: int, n: int)
    requires d > 0 && a >= n * d
    ensures a / d >= n
  {
    Distribute(a / d, 1, d);
    if a / d < n {
      MulMonotone(a / d + 1, n, d);
    }
  }

  /** Only the last output of a call can be due as late as its last input. */
  lemma EarlierOutputs(b: Bank, s: State, n: nat, j: nat)
    requires ValidState(b, s) && j + 1 < OutputCount(b, s.position, n)
    ensures Need(b, s.position, j) < n
  {
    hide OutputCount, Phase, OutputAt;
    CountSettles(b, s.position, n);
    var m := OutputCount(b, s.position, n);
    MulMonotone(j + 2, m, b.down);
    Distribute(j, 2, b.down);
    QuotientBelow(s.position + j * b.down, b.up, n - 1);
  }

  /** A call that reads all its input produces everything that input owes. */
  lemma LosslessProducesAll(b: Bank, s: State, n: nat, capacity: nat)
    requires ValidState(b, s) && 1 <= capacity && n <= Need(b, s.position, capacity - 1)
    ensures Produced(b, s.position, n, capacity) == OutputCount(b, s.position, n)
    ensures Consumed(b, s.position, n, capacity) == n
  {
    hide Need, OutputCount;
    LosslessIff(b, s, n, capacity);
    if capacity < OutputCount(b, s.position, n) {
      EarlierOutputs(b, s, n, capacity - 1);
    }
  }

  /** Whatever the capacity, a call leaves the position in range. */
  lemma CallKeepsValid(b: Bank, s: State, xs: seq<int>, capacity: nat)
    requires ValidState(b, s) && 1 <= capacity
    ensures ValidState(b, Call(b, s, xs, capacity).1)
  {
    hide Call, Phase, OutputCount;
    if OutputCount(b, s.position, |xs|) >= capacity {
      FullCallPosition(b, s, xs, capacity);
    } else {
      RoomyCallPosition(b, s, xs, capacity);
      CountSettles(b, s.position, |xs|);
      MulMonotone(0, |xs|, b.up);
    }
  }

  lemma RoomyCallPosition(b: Bank, s: State, xs: seq<int>, capacity: nat)
    requires ValidState(b, s) && OutputCount(b, s.position, |xs|) < capacity
    ensures Call(b, s, xs, capacity).1.position
      == s.position - |xs| * b.up + OutputCount(b, s.position, |xs|) * b.down
  {
    hide OutputAt, OutputCount;
  }

  /** What a call does not read leaves no trace: with the same samples up to there, and
      something after them, another input gives the same outputs and state. */
  lemma UnreadLeavesNoTrace(b: Bank, s: State, xs: seq<int>, ys: seq<int>, capacity: nat)
    requires ValidState(b, s) && 1 <= capacity
    requires 0 <= Consumed(b, s.position, |xs|, capacity) < |xs| && Consumed(b, s.position, |xs|, capacity) < |ys|
    requires xs[..Consumed(b, s.position, |xs|, capacity)] == ys[..Consumed(b, s.position, |xs|, capacity)]
    ensures Call(b, s, xs, capacity) == Call(b, s, ys, capacity)
  {
    hide Need, OutputAt, OutputCount, Phase;
    FullWhenShort(b, s, |xs|, capacity);
    LosslessIff(b, s, |ys|, capacity);
    FullWhenShort(b, s, |ys|, capacity);
    SameStart(b, s, xs, ys, Consumed(b, s.position, |xs|, capacity), capacity);
  }

  lemma FullCall(b: Bank, s: State, xs: seq<int>, capacity: nat, c: int)
    requires ValidState(b, s) && 1 <= capacity && Produced(b, s.position, |xs|, capacity) == capacity
    requires c == Consumed(b, s.position, |xs|, capacity)
    ensures 0 <= c <= |xs|
    ensures var x, r := s.window + Words(xs), Call(b, s, xs, capacity);
      && |r.0| == capacity && r.1 == State(x[c..c + b.len], s.position - c * b.up + capacity * b.down)
      && forall j :: 0 <= j < capacity ==>
        0 <= Need(b, s.position, j) <= |xs| && r.0[j] == OutputAt(b, x, s.position, j)
  {
    hide Need, OutputAt, OutputCount, Phase;
    CallInRange(b, s, |xs|, capacity);
  }

  /** Two calls that fill their capacity from the same samples. */
  lemma SameStart(b: Bank, s: State, xs: seq<int>, ys: seq<int>, c: int, capacity: nat)
    requires ValidState(b, s) && 1 <= capacity && 0 <= c <= |xs| && c <= |ys| && xs[..c] == ys[..c]
    requires c == Consumed(b, s.position, |xs|, capacity) == Consumed(b, s.position, |ys|, capacity)
    requires c == Need(b, s.position, capacity - 1)
    requires Produced(b, s.position, |xs|, capacity) == Produced(b, s.position, |ys|, capacity) == capacity
    ensures Call(b, s, xs, capacity) == Call(b, s, ys, capacity)
  {
    hide Call, Need, OutputAt, OutputCount, Phase;
    var x, y := s.window + Words(xs), s.window + Words(ys);
    assert forall i :: 0 <= i < c ==> xs[i] == xs[..c][i] == ys[i];
    assert x[..b.len + c] == y[..b.len + c];
    assert x[c..c + b.len] == x[..b.len + c][c..] == y[c..c + b.len];
    FullCall(b, s, xs, capacity, c);
    FullCall(b, s, ys, capacity, c);
    var out, kept := Call(b, s, xs, capacity).0, Call(b, s, ys, capacity).0;
    forall j | 0 <= j < capacity
      ensures out[j] == kept[j]
    {
      NeedByLast(b, s.position, j, capacity - 1);
      SameOutput(b, x, y, b.len + c, s.position, j);
    }
    assert out == kept;
  }

  /** A call that reads all, or leaves a settled state, is the call on just the samples it
      has read; any other one is not. */
  lemma CallReadsIff(b: Bank, s: State, xs: seq<int>, capacity: nat)
    requires ValidState(b, s) && 1 <= capacity
    ensures var c := Consumed(b, s.position, |xs|, capacity);
      && 0 <= c <= |xs|
      && (Call(b, s, xs, capacity) == Call(b, s, xs[..c], capacity)
        <==> c == |xs| || Phase(b, s.position, capacity - 1) < b.Floor())
  {
    hide Need, OutputAt, OutputCount, Phase;
    CallInRange(b, s, |xs|, capacity);
    var c := Consumed(b, s.position, |xs|, capacity);
    if c == |xs| {
      assert xs[..c] == xs;
    } else {
      FullWhenShort(b, s, |xs|, capacity);
      LosslessIff(b, s, c, capacity);
      LastIsMadeIff(b, s, c, capacity);
      if Phase(b, s.position, capacity - 1) < b.Floor() {
        SameStart(b, s, xs, xs[..c], c, capacity);
      }
    }
  }

  lemma FullWhenShort(b: Bank, s: State, n: nat, capacity: nat)
    requires ValidState(b, s) && 1 <= capacity && Consumed(b, s.position, n, capacity) < n
    ensures Produced(b, s.position, n, capacity) == capacity
    ensures Consumed(b, s.position, n, capacity) == Need(b, s.position, capacity - 1)
  {}

  /** With no more than the inputs it needs, the last output is made if its branch is
      below the floor; else the call waits for another input. */
  lemma LastIsMadeIff(b: Bank, s: State, c: nat, capacity: nat)
    requires ValidState(b, s) && 1 <= capacity && c == Need(b, s.position, capacity - 1)
    ensures Produced(b, s.position, c, capacity) == capacity <==> Phase(b, s.position, capacity - 1) < b.Floor()
  {
    hide OutputCount;
    var j, v := capacity - 1, Phase(b, s.position, capacity - 1);
    assert s.position + j * b.down == c * b.up + v;
    if v < b.Floor() {
      DueNow(b, s.position, c, c, j, v);
    } else {
      CountSettles(b, s.position, c);
      var m := OutputCount(b, s.position, c);
      if m > j {
        Distribute(m, 1, b.down);
        MulMonotone(j, m - 1, b.down);
      }
    }
  }

  lemma NeedByLast(b: Bank, position: int, j: nat, last: nat)
    requires b.Valid() && 0 <= position && j <= last
    ensures 0 <= Need(b, position, j) <= Need(b, position, last)
  {
    NeedNat(b, position, j);
    MulMonotone(j, last, b.down);
    QuotientAtLeast(position + last * b.down, b.up, Need(b, position, j));
  }

  lemma SameOutput(b: Bank, x: seq<int>, y: seq<int>, n: int, position: int, j: nat)
    requires b.Valid() && 0 <= position && 0 <= Need(b, position, j)
    requires 0 <= n <= |x| && n <= |y| && x[..n] == y[..n] && Need(b, position, j) + b.len <= n
    ensures OutputAt(b, x, position, j) == OutputAt(b, y, position, j)
  {
    hide ToInt16;
    var q, r := Need(b, position, j), Phase(b, position, j);
    assert x[q..q + b.len] == x[..n][q..q + b.len] == y[q..q + b.len];
    PhaseInBank(b, r);
    MacEqual(b.coeffs, r * b.len, x, q, y, q, b.len);
  }

  /** Which calls leave a settled state: of those that fill their capacity, the ones
      whose last output is on a branch below `down`, and with up <= down all of them. */
  lemma CallSettlesIff(b: Bank, s: State, xs: seq<int>, capacity: nat)
    requires ValidState(b, s) && 1 <= capacity
    ensures var t, branch := Call(b, s, xs, capacity).1, Phase(b, s.position, capacity - 1);
      if OutputCount(b, s.position, |xs|) >= capacity then
        t.position == branch + b.down && (Settled(b, t) <==> b.up <= b.down || branch < b.down)
      else
        Settled(b, t) <==> Settled(b, s) || xs != []
  {
    hide Call, Phase, OutputCount;
    CallKeepsValid(b, s, xs, capacity);
    if OutputCount(b, s.position, |xs|) >= capacity {
      FullCallPosition(b, s, xs, capacity);
    } else {
      RoomyCallSettles(b, s, xs, capacity);
    }
  }

  lemma FullCallPosition(b: Bank, s: State, xs: seq<int>, capacity: nat)
    requires ValidState(b, s) && 1 <= capacity <= OutputCount(b, s.position, |xs|)
    ensures 0 <= Phase(b, s.position, capacity - 1) < b.up
    ensures Call(b, s, xs, capacity).1.position == Phase(b, s.position, capacity - 1) + b.down
  {
    hide OutputAt, OutputCount;
    Distribute(capacity - 1, 1, b.down);
  }

  lemma RoomyCallSettles(b: Bank, s: State, xs: seq<int>, capacity: nat)
    requires ValidState(b, s) && OutputCount(b, s.position, |xs|) < capacity
    ensures ValidState(b, Call(b, s, xs, capacity).1)
    ensures Settled(b, Call(b, s, xs, capacity).1) <==> Settled(b, s) || xs != []
  {
    hide OutputAt, OutputCount;
    CallKeepsValid(b, s, xs, capacity);
    CountSettles(b, s.position, |xs|);
    NothingOwed(b, s);
    if xs != [] {
      MulMonotone(1, |xs|, b.up);
    }
  }

  lemma NothingOwed(b: Bank, s: State)
    requires ValidState(b, s)
    ensures OutputCount(b, s.position, 0) == 0
  {}

  // ---------------------------------------------------------- runs of calls

  datatype Request = Request(samples: seq<int>, capacity: nat)

  function Joined(calls: seq<Request>): seq<int> {
    if calls == [] then [] else calls[0].samples + Joined(calls[1..])
  }

  /** No call of the run forgets input: each has room for what its input owes. */
  ghost predicate NothingLost(b: Bank, s: State, calls: seq<Request>)
    requires ValidState(b, s)
    decreases |calls|
  {
    calls == [] ||
    (&& 1 <= calls[0].capacity
     && |calls[0].samples| <= Need(b, s.position, calls[0].capacity - 1)
     && (CallKeepsValid(b, s, calls[0].samples, calls[0].capacity);
         NothingLost(b, Call(b, s, calls[0].samples, calls[0].capacity).1, calls[1..])))
  }

  ghost function Run(b: Bank, s: State, calls: seq<Request>): (seq<int>, State)
    requires ValidState(b, s) && NothingLost(b, s, calls)
    decreases |calls|
  {
    if calls == [] then ([], s) else
      CallKeepsValid(b, s, calls[0].samples, calls[0].capacity);
      var (out, t) := Call(b, s, calls[0].samples, calls[0].capacity);
      var (rest, u) := Run(b, t, calls[1..]);
      (out + rest, u)
  }

  /** One call with room for everything. */
  ghost function Whole(b: Bank, s: State, xs: seq<int>): (seq<int>, State)
    requires ValidState(b, s)
  {
    Call(b, s, xs, OutputCount(b, s.position, |xs|) + 1)
  }

  lemma WholeSettles(b: Bank, s: State, xs: seq<int>)
    requires ValidState(b, s) && (Settled(b, s) || |xs| > 0)
    ensures Settled(b, Whole(b, s, xs).1)
  {
    hide Phase, OutputAt;
    CountSettles(b, s.position, |xs|);
    if |xs| > 0 {
      MulMonotone(1, |xs|, b.up);
    }
  }

  lemma LosslessIsWhole(b: Bank, s: State, xs: seq<int>, capacity: nat)
    requires ValidState(b, s) && 1 <= capacity && |xs| <= Need(b, s.position, capacity - 1)
    ensures Call(b, s, xs, capacity) == Whole(b, s, xs)
  {
    hide OutputAt, Need, OutputCount;
    LosslessProducesAll(b, s, |xs|, capacity);
  }

  lemma CountSplits(b: Bank, s: State, n: nat, k: nat)
    requires ValidState(b, s)
    ensures var m := OutputCount(b, s.position, n);
      OutputCount(b, s.position, n + k) == m + OutputCount(b, s.position - n * b.up + m * b.down, k)
  {
    var m := OutputCount(b, s.position, n);
    var t := s.position - n * b.up + m * b.down;
    var l := OutputCount(b, t, k);
    CountSettles(b, s.position, n);
    CountSettles(b, t, k);
    hide OutputCount;
    Distribute(m, l, b.down);
    Distribute(n, k, b.up);
    MulMonotone(0, k, b.up);
    CountUnique(b, s.position, n + k, m + l);
  }

  /** Output m + j of a call is output j of the call that starts after its first
      n inputs and m outputs. */
  lemma OutputShifts(b: Bank, s: State, xs: seq<int>, ys: seq<int>, m: nat, j: nat)
    requires ValidState(b, s) && m == OutputCount(b, s.position, |xs|)
    requires var t := s.position - |xs| * b.up + m * b.down;
      0 <= t && 0 <= Need(b, t, j) <= |ys|
    ensures var t := s.position - |xs| * b.up + m * b.down;
      && Need(b, s.position, m + j) == |xs| + Need(b, t, j)
      && OutputAt(b, s.window + Words(xs + ys), s.position, m + j)
         == OutputAt(b, (s.window + Words(xs))[|xs|..] + Words(ys), t, j)
  {
    hide OutputCount, ToInt16, Mac;
    var t := s.position - |xs| * b.up + m * b.down;
    var q, r := Need(b, t, j), Phase(b, t, j);
    Distribute(m, j, b.down);
    Distribute(|xs|, q, b.up);
    Quotient(s.position + (m + j) * b.down, b.up, |xs| + q, r);
    var x, y := s.window + Words(xs + ys), (s.window + Words(xs))[|xs|..] + Words(ys);
    assert x[|xs|..] == y;
    assert x[|xs| + q..|xs| + q + b.len] == y[q..q + b.len];
    PhaseInBank(b, r);
    MacEqual(b.coeffs, r * b.len, x, |xs| + q, y, q, b.len);
  }

  /** Cutting the input of a call in two changes nothing. */
  lemma WholeSplits(b: Bank, s: State, xs: seq<int>, ys: seq<int>)
    requires ValidState(b, s)
    ensures var (out, t) := Whole(b, s, xs);
      && ValidState(b, t)
      && var (rest, u) := Whole(b, t, ys);
      Whole(b, s, xs + ys) == (out + rest, u)
  {
    var t := Whole(b, s, xs).1;
    CallKeepsValid(b, s, xs, OutputCount(b, s.position, |xs|) + 1);
    StatesSplit(b, s, xs, ys, t);
    OutputsSplit(b, s, xs, ys, t);
  }

  lemma StatesSplit(b: Bank, s: State, xs: seq<int>, ys: seq<int>, t: State)
    requires ValidState(b, s) && ValidState(b, t) && t == Whole(b, s, xs).1
    ensures Whole(b, s, xs + ys).1 == Whole(b, t, ys).1
  {
    hide OutputCount, OutputAt, Need;
    CountSplits(b, s, |xs|, |ys|);
    WindowSplits(b, s, xs, ys);
    var m, k := OutputCount(b, s.position, |xs|), OutputCount(b, t.position, |ys|);
    Distribute(|xs|, |ys|, b.up);
    Distribute(m, k, b.down);
  }

  lemma OutputsSplit(b: Bank, s: State, xs: seq<int>, ys: seq<int>, t: State)
    requires ValidState(b, s) && ValidState(b, t) && t == Whole(b, s, xs).1
    ensures Whole(b, s, xs + ys).0 == Whole(b, s, xs).0 + Whole(b, t, ys).0
  {
    hide OutputCount, OutputAt, Need;
    CountSplits(b, s, |xs|, |ys|);
    WindowSplits(b, s, xs, []);
    assert xs + [] == xs;
    var all, out, rest := Whole(b, s, xs + ys).0, Whole(b, s, xs).0, Whole(b, t, ys).0;
    var m := OutputCount(b, s.position, |xs|);
    forall j | 0 <= j < |all|
      ensures all[j] == (out + rest)[j]
    {
      if j < m {
        FirstOutputs(b, s, xs, ys, j);
      } else {
        NeedWithin(b, t.position, |ys|, j - m);
        OutputShifts(b, s, xs, ys, m, j - m);
      }
    }
  }

  lemma FirstOutputs(b: Bank, s: State, xs: seq<int>, ys: seq<int>, j: nat)
    requires ValidState(b, s) && j < OutputCount(b, s.position, |xs|)
    ensures 0 <= Need(b, s.position, j) <= |xs|
    ensures OutputAt(b, s.window + Words(xs + ys), s.position, j) == OutputAt(b, s.window + Words(xs), s.position, j)
  {
    NeedWithin(b, s.position, |xs|, j);
    hide OutputCount, ToInt16;
    var q, r := Need(b, s.position, j), Phase(b, s.position, j);
    var x, y := s.window + Words(xs + ys), s.window + Words(xs);
    assert x[q..q + b.len] == y[q..q + b.len];
    PhaseInBank(b, r);
    MacEqual(b.coeffs, r * b.len, x, q, y, q, b.len);
  }

  lemma WindowSplits(b: Bank, s: State, xs: seq<int>, ys: seq<int>)
    requires ValidState(b, s)
    ensures Whole(b, s, xs).1.window == (s.window + Words(xs))[|xs|..]
    ensures Whole(b, s, xs + ys).1.window == ((s.window + Words(xs))[|xs|..] + Words(ys))[|ys|..]
  {
    hide OutputAt, Need;
    var x, y := s.window + Words(xs + ys), (s.window + Words(xs))[|xs|..] + Words(ys);
    assert x[|xs|..] == y;
  }

  lemma WholeOfNothing(b: Bank, s: State)
    requires ValidState(b, s)
    ensures Whole(b, s, []) == ([], s)
  {
    assert (s.window + Words([]))[0..b.len] == s.window;
    assert OutputCount(b, s.position, 0) == 0;
    assert Whole(b, s, []).0 == [];
  }

  /** Every way of cutting an input into calls that lose nothing gives what one
      call on the joined input gives. */
  lemma {:induction false} RunIsWhole(b: Bank, s: State, calls: seq<Request>)
    requires ValidState(b, s) && NothingLost(b, s, calls)
    ensures Run(b, s, calls) == Whole(b, s, Joined(calls))
    decreases |calls|
  {
    if calls == [] {
      WholeOfNothing(b, s);
    } else {
      var xs, rest := calls[0].samples, calls[1..];
      CallKeepsValid(b, s, xs, calls[0].capacity);
      LosslessIsWhole(b, s, xs, calls[0].capacity);
      RunIsWhole(b, Whole(b, s, xs).1, rest);
      WholeSplits(b, s, xs, Joined(rest));
    }
  }

  // ---------------------------------------------------------- exact blocks

  /** k * down inputs owe k * up outputs, and bring the phase and the pending count
      back, exactly when the state is settled. */
  lemma BlockExact(b: Bank, s: State, xs: seq<int>, k: nat)
    requires ValidState(b, s) && |xs| == k * b.down && 1 <= k
    ensures Settled(b, s) <==> |Whole(b, s, xs).0| == k * b.up
    ensures Settled(b, s) <==> Whole(b, s, xs).1.position == s.position
  {
    hide OutputAt, Need;
    var n := k * b.down;
    MulMonotone(1, k, b.down);
    CountSettles(b, s.position, n);
    WholeSettles(b, s, xs);
    var m := OutputCount(b, s.position, n);
    Commutes(k, b.down, b.up);
    if Settled(b, s) {
      CountUnique(b, s.position, n, k * b.up);
    } else {
      hide OutputCount;
      assert Whole(b, s, xs).1.position < s.position;
    }
  }

  lemma Commutes(k: int, d: int, u: int)
    ensures k * d * u == k * u * d
  {}

  /** The position is the pending count and the remainder. */
  lemma PositionSplits(b: Bank, p: int, v: int, p': int, v': int)
    requires b.Valid() && 0 <= v < b.up && 0 <= v' < b.up
    ensures p * b.up + v == p' * b.up + v' <==> p == p' && v == v'
  {
    Quotient(p * b.up + v, b.up, p, v);
    Quotient(p' * b.up + v', b.up, p', v');
  }

  // ---------------------------------------------------------- filter branches

  predicate Divides(d: int, a: int)
    requires d > 0
  {
    a % d == 0
  }

  ghost predicate Coprime(a: int, b: int) {
    forall d :: 2 <= d && Divides(d, a) ==> !Divides(d, b)
  }

  lemma Multiple(d: int, a: int, k: int)
    requires d > 0 && a == k * d
    ensures Divides(d, a)
  {
    Quotient(a, d, k, 0);
  }

  lemma BackSubstitute(a: int, b: int, q: int, u: int, v: int)
    ensures b * u + (a - q * b) * v == a * v + b * (u - q * v)
  {}

  lemma {:induction false} Bezout(a: nat, b: nat) returns (x: int, y: int)
    requires Coprime(a, b)
    ensures a * x + b * y == 1
    decreases b
  {
    if b == 0 {
      assert a >= 2 ==> Divides(a, a) && Divides(a, b);
      assert Divides(2, 0);
      assert a == 1;
      return 1, 0;
    }
    var q, r := a / b, a % b;
    forall d | 2 <= d && Divides(d, b)
      ensures !Divides(d, r)
    {
      if Divides(d, r) {
        Multiple(d, a, q * (b / d) + r / d);
      }
    }
    var u, v := Bezout(b, r);
    BackSubstitute(a, b, q, u, v);
    return v, u - q * v;
  }

  ghost predicate UsesOnce(b: Bank, position: int, n: int, p: int)
    requires b.up > 0
  {
    exists j :: n <= j < n + b.up && Phase(b, position, j) == p
      && forall i :: n <= i < n + b.up && Phase(b, position, i) == p ==> i == j
  }

  /** Any `up` consecutive outputs use every branch of the bank exactly once if
      and only if the two factors share no divisor. */
  lemma BranchesOnceIff(b: Bank, position: int, n: int)
    requires b.Valid()
    ensures (forall p :: 0 <= p < b.up ==> UsesOnce(b, position, n, p)) <==> Coprime(b.up, b.down)
  {
    if Coprime(b.up, b.down) {
      var y, inverse := Bezout(b.up, b.down);
      forall p | 0 <= p < b.up
        ensures UsesOnce(b, position, n, p)
      {
        BranchUsedOnce(b, position, n, p, y, inverse);
      }
    } else {
      var d :| 2 <= d && Divides(d, b.up) && Divides(d, b.down);
      BranchMissed(b, position, n, d);
    }
  }

  lemma BranchUsedOnce(b: Bank, position: int, n: int, p: int, y: int, inverse: int)
    requires b.Valid() && 0 <= p < b.up && b.up * y + b.down * inverse == 1
    ensures UsesOnce(b, position, n, p)
  {
    var j := n + ((p - position) * inverse - n) % b.up;
    var t := ((p - position) * inverse - n) / b.up;
    assert j == (p - position) * inverse - t * b.up;
    PhaseOfInverse(b, position, p, y, inverse, t);
    forall i | n <= i < n + b.up && Phase(b, position, i) == p
      ensures i == j
    {
      SamePhase(b, position, i, j, y, inverse);
    }
  }

  lemma PhaseOfInverse(b: Bank, position: int, p: int, y: int, inverse: int, t: int)
    requires b.Valid() && 0 <= p < b.up && b.up * y + b.down * inverse == 1
    ensures Phase(b, position, (p - position) * inverse - t * b.up) == p
  {
    var e := p - position;
    var j := e * inverse - t * b.up;
    InverseMultiple(e, inverse, t, b.up, b.down, y);
    Quotient(position + j * b.down, b.up, -(e * y + t * b.down), p);
  }

  lemma InverseMultiple(e: int, inverse: int, t: int, up: int, down: int, y: int)
    requires up * y + down * inverse == 1
    ensures (e * inverse - t * up) * down == e + -(e * y + t * down) * up
  {
    calc {
      (e * inverse - t * up) * down;
      e * (down * inverse) - (t * down) * up;
      e * (1 - up * y) - (t * down) * up;
      e - (e * y) * up - (t * down) * up;
      e + -(e * y + t * down) * up;
    }
  }

  lemma SamePhase(b: Bank, position: int, i: int, j: int, y: int, inverse: int)
    requires b.Valid() && b.up * y + b.down * inverse == 1
    requires Phase(b, position, i) == Phase(b, position, j) && -b.up < i - j < b.up
    ensures i == j
  {
    var e := i - j;
    var k := Need(b, position, i) - Need(b, position, j);
    assert e * b.down == k * b.up;
    assert e * (b.up * y + b.down * inverse) == e;
    assert (e * b.down) * inverse == (k * b.up) * inverse;
    assert e == (e * y + k * inverse) * b.up;
    var z := e * y + k * inverse;
    if z > 0 { MulMonotone(1, z, b.up); }
    if z < 0 { MulMonotone(z, -1, b.up); }
  }

  lemma BranchMissed(b: Bank, position: int, n: int, d: int)
    requires b.Valid() && 2 <= d && Divides(d, b.up) && Divides(d, b.down)
    ensures !UsesOnce(b, position, n, (position + 1) % b.up)
  {
    var p := (position + 1) % b.up;
    forall j | n <= j < n + b.up
      ensures Phase(b, position, j) != p
    {
      if Phase(b, position, j) == p {
        var u, w := b.up / d, b.down / d;
        assert b.up == u * d && b.down == w * d;
        var k := Need(b, position, j) - (position + 1) / b.up;
        assert j * b.down - 1 == k * b.up;
        assert (j * w - k * u) * d == 1;
        OneHasNoDivisor(j * w - k * u, d);
      }
    }
  }

  lemma OneHasNoDivisor(z: int, d: int)
    requires 2 <= d
    ensures z * d != 1
  {
    if z >= 1 { MulMonotone(1, z, d); }
    if z <= 0 { MulMonotone(z, 0, d); }
  }
}
