/** The required data rate: exactly when raise_for_status can return although a
    mismatching rate has been listed. */
module ProbeRates {
  import opened Framing
  import opened Responses
  import opened Probe

  /** Some rate of the list is not the required one. */
  ghost predicate Lists(c: Config, rates: seq<(nat, nat)>) {
    exists i :: 0 <= i < |rates| && Mismatch(c, rates[i].0, rates[i].1)
  }

  /** The observer is still handling a line with a mismatching rate. */
  predicate BeingJudged(c: Config, s: State) {
    match s.observer
    case Listening => false
    case Judging(tx, rx) => Mismatch(c, tx, rx)
  }

  /** The rates whose lines have been handled to the end. */
  function Handled(s: State): seq<(nat, nat)> {
    if s.observer.Judging? && s.ratesSeen != [] then s.ratesSeen[..|s.ratesSeen| - 1] else s.ratesSeen
  }

  /** The failure is noted exactly when a handled rate is a mismatch. */
  ghost predicate RatesGood(c: Config, s: State) {
    && (s.rateFailure <==> Lists(c, Handled(s)))
    && (s.observer.Judging? ==> s.ratesSeen != [] && s.ratesSeen[|s.ratesSeen| - 1] == (s.observer.tx, s.observer.rx))
  }

  lemma ListsOneMore(c: Config, rates: seq<(nat, nat)>, rate: (nat, nat))
    ensures Lists(c, rates + [rate]) <==> Lists(c, rates) || Mismatch(c, rate.0, rate.1)
  {
    var more := rates + [rate];
    assert more[|rates|] == rate;
    assert forall i :: 0 <= i < |rates| ==> more[i] == rates[i];
  }

  lemma ListsJoined(c: Config, a: seq<(nat, nat)>, b: seq<(nat, nat)>)
    ensures Lists(c, a + b) <==> Lists(c, a) || Lists(c, b)
  {
    var both := a + b;
    assert forall i :: 0 <= i < |b| ==> both[|a| + i] == b[i];
    assert forall i :: 0 <= i < |a| ==> both[i] == a[i];
  }

  // ---------------------------------------------------------- who changes what

  ghost predicate SameRates(s: State, t: State) {
    t.ratesSeen == s.ratesSeen && t.rateFailure == s.rateFailure && t.observer == s.observer
  }

  lemma {:induction false} TakingKeepsRates(c: Config, s: State, index: nat)
    requires index <= |s.pending|
    ensures SameRates(s, TakeResponse(c, s, index)) && TakeResponse(c, s, index).caller == s.caller
  {}

  lemma {:induction false} ReadingKeepsRates(c: Config, s: State, a: Action)
    requires s.at.Reading?
    ensures SameRates(s, RunProbe(c, s, a)) && RunProbe(c, s, a).caller == s.caller
  {
    hide FindComplete, TakeResponse;
    if FindComplete(c.pattern, s.pending).At? {
      TakingKeepsRates(c, s, FindComplete(c.pattern, s.pending).index);
    }
  }

  lemma {:induction false} WaitingKeepsRates(c: Config, s: State, a: Action)
    requires s.at.AwaitPty? || s.at.AwaitConnect? || s.at.Settling? || s.at.Pausing? || s.at.Ended?
    ensures SameRates(s, RunProbe(c, s, a)) && RunProbe(c, s, a).caller == s.caller
  {
    hide FindComplete, ReadStep;
  }

  lemma {:induction false} SendingKeepsRates(c: Config, s: State, a: Action)
    requires s.at.Sending?
    ensures SameRates(s, RunProbe(c, s, a)) && RunProbe(c, s, a).caller == s.caller
  {
    hide FindComplete, ReadStep;
  }

  lemma {:induction false} ActingKeepsRates(c: Config, s: State, a: Action)
    requires s.at.Sending? || s.at.JudgeSeen? || s.at.JudgeFailure?
    ensures SameRates(s, RunProbe(c, s, a)) && RunProbe(c, s, a).caller == s.caller
  {
    hide FindComplete, ReadStep;
    if s.at.Sending? {
      SendingKeepsRates(c, s, a);
    }
  }

  lemma {:induction false} ProbeKeepsRates(c: Config, s: State, a: Action)
    ensures SameRates(s, RunProbe(c, s, a)) && RunProbe(c, s, a).caller == s.caller
  {
    hide RunProbe, SameRates;
    if s.at.Reading? {
      ReadingKeepsRates(c, s, a);
    } else if s.at.Sending? || s.at.JudgeSeen? || s.at.JudgeFailure? {
      ActingKeepsRates(c, s, a);
    } else {
      WaitingKeepsRates(c, s, a);
    }
  }

  lemma {:induction false} SameRatesGood(c: Config, s: State, t: State)
    requires RatesGood(c, s) && SameRates(s, t)
    ensures RatesGood(c, t)
  {
    hide Lists;
  }

  lemma {:induction false} RateListed(c: Config, s: State, tx: nat, rx: nat)
    requires RatesGood(c, s) && s.observer.Listening?
    ensures RatesGood(c, s.(ratesSeen := s.ratesSeen + [(tx, rx)], observer := Judging(tx, rx)))
  {
    hide Lists;
    assert (s.ratesSeen + [(tx, rx)])[..|s.ratesSeen|] == s.ratesSeen;
  }

  lemma {:induction false} RateHandled(c: Config, s: State, t: State)
    requires RatesGood(c, s) && s.observer.Judging? && t.observer.Listening? && t.ratesSeen == s.ratesSeen
    requires t.rateFailure == (s.rateFailure || Mismatch(c, s.observer.tx, s.observer.rx))
    ensures RatesGood(c, t)
  {
    hide Lists, Mismatch;
    assert s.ratesSeen == Handled(s) + [(s.observer.tx, s.observer.rx)];
    ListsOneMore(c, Handled(s), (s.observer.tx, s.observer.rx));
  }

  lemma {:induction false} ObserverMovesRates(c: Config, s: State, a: Action)
    requires RatesGood(c, s)
    ensures RatesGood(c, Observe(c, s, a))
    ensures s.ratesSeen <= Observe(c, s, a).ratesSeen
  {
    hide RatesGood, Mismatch;
    match (a, s.observer)
    case (RateLine(tx, rx), Listening) =>
      RateListed(c, s, tx, rx);
      SameRatesGood(c, s.(ratesSeen := s.ratesSeen + [(tx, rx)], observer := Judging(tx, rx)), Observe(c, s, a));
    case (FinishRateLine, Judging(_, _)) =>
      RateHandled(c, s, Observe(c, s, a));
    case _ =>
      SameRatesGood(c, s, Observe(c, s, a));
  }

  lemma {:induction false} ObserverKeepsCaller(c: Config, s: State, a: Action)
    ensures Observe(c, s, a).caller == s.caller
  {}

  lemma {:induction false} CallerKeepsRates(s: State, a: Action)
    ensures SameRates(s, Call(s, a))
  {}

  /** One step keeps the account of the rates, and the list of them only grows. */
  lemma {:induction false} StepMovesRates(c: Config, s: State, a: Action)
    requires RatesGood(c, s)
    ensures RatesGood(c, Next(c, s, a)) && s.ratesSeen <= Next(c, s, a).ratesSeen
  {
    hide RunProbe, Observe, Call, RatesGood;
    ProbeKeepsRates(c, s, a);
    ObserverMovesRates(c, s, a);
    CallerKeepsRates(s, a);
    SameRatesGood(c, s, RunProbe(c, s, a));
    SameRatesGood(c, s, Call(s, a));
  }

  ghost predicate CallerMoves(s: State, t: State, a: Action) {
    && (t.caller.RateOk? && !s.caller.RateOk? ==> a.CheckRate? && s.caller.Away? && !s.rateFailure)
    && (t.caller.RateOk? && s.caller.RateOk? ==> !a.CheckSuccess?)
    && (t.caller.Returned? && !s.caller.Returned? ==> a.CheckSuccess? && s.caller.RateOk? && s.success)
  }

  lemma {:induction false} CallMovesCaller(s: State, a: Action)
    ensures CallerMoves(s, Call(s, a), a)
  {}

  /** The caller moves by its own two reads alone. */
  lemma {:induction false} StepMovesCaller(c: Config, s: State, a: Action)
    ensures CallerMoves(s, Next(c, s, a), a)
  {
    hide RunProbe, Observe, Call;
    ProbeKeepsRates(c, s, a);
    ObserverKeepsCaller(c, s, a);
    CallMovesCaller(s, a);
  }

  /** In every reachable state the failure is noted if and only if some listed rate,
      other than one still being judged, is a mismatch. */
  lemma {:induction false} FailureNotedIff(c: Config, actions: seq<Action>)
    ensures RatesGood(c, Run(c, Initial, actions))
  {
    hide RatesGood, Next;
    if actions == [] {
      NothingListed(c);
    } else {
      var n := |actions| - 1;
      FailureNotedIff(c, actions[..n]);
      StepMovesRates(c, Run(c, Initial, actions[..n]), actions[n]);
    }
  }

  lemma NothingListed(c: Config)
    ensures RatesGood(c, Initial)
  {}

  /** So when the caller finds no failure, the list holds a mismatch if and only if the
      observer is judging one. */
  lemma UnnotedIff(c: Config, actions: seq<Action>)
    requires !Run(c, Initial, actions).rateFailure
    ensures var s := Run(c, Initial, actions); Lists(c, s.ratesSeen) <==> BeingJudged(c, s)
  {
    hide Run, Lists;
    var s := Run(c, Initial, actions);
    FailureNotedIff(c, actions);
    if s.observer.Judging? {
      assert s.ratesSeen == Handled(s) + [(s.observer.tx, s.observer.rx)];
      ListsOneMore(c, Handled(s), (s.observer.tx, s.observer.rx));
    }
  }

  // ---------------------------------------------------------- the two reads

  /** The state before action n of a run. */
  function Before(c: Config, actions: seq<Action>, n: nat): State
    requires n <= |actions|
  {
    Run(c, Initial, actions[..n])
  }

  lemma BeforeNext(c: Config, actions: seq<Action>, n: nat)
    requires n < |actions|
    ensures Before(c, actions, n + 1) == Next(c, Before(c, actions, n), actions[n])
  {
    hide Next;
    assert actions[..n + 1][..n] == actions[..n];
  }

  /** Actions i and k are the two reads of one call: the first finds no failure. */
  ghost predicate Reads(c: Config, actions: seq<Action>, i: nat, k: nat) {
    && i < k < |actions| && actions[i].CheckRate? && actions[k].CheckSuccess?
    && Before(c, actions, i).caller.Away? && !Before(c, actions, i).rateFailure
    && forall m :: i < m < k ==> !actions[m].CheckSuccess?
  }

  lemma {:induction false} RatesGrow(c: Config, actions: seq<Action>, i: nat, k: nat)
    requires i <= k <= |actions|
    ensures Before(c, actions, i).ratesSeen <= Before(c, actions, k).ratesSeen
    decreases k
  {
    if i < k {
      hide Next, RatesGood, Run;
      RatesGrow(c, actions, i, k - 1);
      BeforeNext(c, actions, k - 1);
      FailureNotedIff(c, actions[..k - 1]);
      StepMovesRates(c, Before(c, actions, k - 1), actions[k - 1]);
    }
  }

  /** When a call returns, the list holds a mismatching rate if and only if one was
      being judged at the first read or was listed between the reads. */
  lemma ListedAtReturnIff(c: Config, actions: seq<Action>, i: nat, k: nat)
    requires Reads(c, actions, i, k)
    ensures var s, t := Before(c, actions, i), Before(c, actions, k);
      && s.ratesSeen <= t.ratesSeen
      && (Lists(c, t.ratesSeen) <==> BeingJudged(c, s) || Lists(c, t.ratesSeen[|s.ratesSeen|..]))
  {
    hide Lists, Run, BeingJudged;
    var s, t := Before(c, actions, i), Before(c, actions, k);
    RatesGrow(c, actions, i, k);
    UnnotedIff(c, actions[..i]);
    ListsJoined(c, s.ratesSeen, t.ratesSeen[|s.ratesSeen|..]);
    assert s.ratesSeen + t.ratesSeen[|s.ratesSeen|..] == t.ratesSeen;
  }

  /** A caller past its first read has made it, and not yet the second. */
  lemma {:induction false} FirstRead(c: Config, actions: seq<Action>) returns (i: nat)
    requires Run(c, Initial, actions).caller.RateOk?
    ensures i < |actions| && actions[i].CheckRate?
    ensures Before(c, actions, i).caller.Away? && !Before(c, actions, i).rateFailure
    ensures forall m :: i < m < |actions| ==> !actions[m].CheckSuccess?
  {
    hide Next;
    var n := |actions| - 1;
    var s := Run(c, Initial, actions[..n]);
    StepMovesCaller(c, s, actions[n]);
    if s.caller.RateOk? {
      i := FirstRead(c, actions[..n]);
      assert actions[..n][..i] == actions[..i];
      assert forall m :: i < m < n ==> actions[m] == actions[..n][m];
    } else {
      i := n;
    }
  }

  /** Every normal return has its two reads, the second of which finds success. */
  lemma {:induction false} ReadsOfReturn(c: Config, actions: seq<Action>) returns (i: nat, k: nat)
    requires Run(c, Initial, actions).caller.Returned?
    ensures Reads(c, actions, i, k) && Before(c, actions, k).success
    ensures forall m :: k < m <= |actions| ==> Before(c, actions, m).caller.Returned?
  {
    hide Next;
    var n := |actions| - 1;
    var s := Run(c, Initial, actions[..n]);
    StepMovesCaller(c, s, actions[n]);
    assert actions[..|actions|] == actions;
    if s.caller.Returned? {
      i, k := ReadsOfReturn(c, actions[..n]);
      assert actions[..n][..i] == actions[..i] && actions[..n][..k] == actions[..k];
      assert forall m :: i < m < n ==> actions[m] == actions[..n][m];
      forall m | k < m <= |actions|
        ensures Before(c, actions, m).caller.Returned?
      {
        if m <= n {
          assert Before(c, actions[..n], m).caller.Returned? && actions[..n][..m] == actions[..m];
        }
      }
    } else {
      i := FirstRead(c, actions[..n]);
      k := n;
      assert actions[..n][..i] == actions[..i];
      assert forall m :: i < m < n ==> actions[m] == actions[..n][m];
    }
  }

  /** In every run whose caller has returned normally and not called again: the list held
      a mismatching rate at that return if and only if one was being judged when the
      caller looked for a failure, or was listed before it looked for success. */
  lemma ReturnedDespiteMismatchIff(c: Config, actions: seq<Action>) returns (i: nat, k: nat)
    requires Run(c, Initial, actions).caller.Returned?
    ensures Reads(c, actions, i, k) && Before(c, actions, k).success
    ensures forall m :: k < m <= |actions| ==> Before(c, actions, m).caller.Returned?
    ensures var s, t := Before(c, actions, i), Before(c, actions, k);
      && s.ratesSeen <= t.ratesSeen
      && (Lists(c, t.ratesSeen) <==> BeingJudged(c, s) || Lists(c, t.ratesSeen[|s.ratesSeen|..]))
  {
    i, k := ReadsOfReturn(c, actions);
    ListedAtReturnIff(c, actions, i, k);
  }

  // ---------------------------------------------------------- both escapes happen

  lemma {:induction false} RunJoined(c: Config, s: State, a: seq<Action>, b: seq<Action>)
    ensures Run(c, s, a + b) == Run(c, Run(c, s, a), b)
    decreases |b|
  {
    hide Next;
    if b == [] {
      assert a + b == a;
    } else {
      var n := |b| - 1;
      RunJoined(c, s, a, b[..n]);
      assert (a + b)[..|a| + n] == a + b[..n];
    }
  }

  lemma {:induction false} RunFirst(c: Config, s: State, a: Action, rest: seq<Action>)
    ensures Run(c, s, [a] + rest) == Run(c, Next(c, s, a), rest)
  {
    hide Next;
    RunJoined(c, s, [a], rest);
    assert [a][..0] == [] && Run(c, s, []) == s;
  }

  lemma {:induction false} RunTwo(c: Config, s: State, a: Action, b: Action)
    ensures Run(c, s, [a, b]) == Next(c, Next(c, s, a), b)
  {
    hide Next;
    RunFirst(c, s, a, [b]);
    assert [a] + [b] == [a, b] && [b][..0] == [] && Run(c, Next(c, s, a), []) == Next(c, s, a);
  }

  lemma {:induction false} RunThree(c: Config, s: State, a: Action, b: Action, d: Action)
    ensures Run(c, s, [a, b, d]) == Next(c, Next(c, Next(c, s, a), b), d)
  {
    hide Next;
    RunFirst(c, s, a, [b, d]);
    RunTwo(c, Next(c, s, a), b, d);
    assert [a] + [b, d] == [a, b, d];
  }

  lemma {:induction false} RunFour(c: Config, s: State, a: Action, b: Action, d: Action, e: Action)
    ensures Run(c, s, [a, b, d, e]) == Next(c, Next(c, Next(c, Next(c, s, a), b), d), e)
  {
    hide Next;
    RunFirst(c, s, a, [b, d, e]);
    RunThree(c, Next(c, s, a), b, d, e);
    assert [a] + [b, d, e] == [a, b, d, e];
  }

  /** Everything well so far: n responses in a attempts, and enough attempts left. */
  ghost predicate GoingWell(c: Config, s: State, a: nat, n: nat) {
    && s.at.Sending? && s.attempt == a && s.successes == n < c.count && c.count - n <= c.maxAttempts - a
    && !s.stop && !s.success && s.ratesSeen != [] && !s.rateFailure && s.observer.Listening? && s.caller.Away?
  }

  ghost predicate Succeeded(s: State) {
    s.success && s.at.Ended? && s.ratesSeen != [] && !s.rateFailure && s.observer.Listening? && s.caller.Away?
  }

  function Response(p: Pattern): seq<byte> { p.command + p.expected + p.prompt }

  /** The three texts in a row complete whatever is pending. */
  lemma ResponseCompletes(p: Pattern, pending: seq<byte>)
    ensures FindComplete(p, pending + Response(p)).At?
  {
    var t, n := pending + Response(p), |pending|;
    var f, a, b := Folded(t), |p.command|, |p.command| + |p.expected|;
    assert f[n..n + a] == Folded(p.command) && f[n + a..n + b] == Folded(p.expected);
    assert f[n + b..n + b + |p.prompt|] == Folded(p.prompt);
    assert CompleteAt(p, t, n, n + a, n + b);
    FirstToEnd(p, t, n, n + a, n + b);
  }

  /** A rate line no configuration of this requirement objects to. */
  function GoodRate(c: Config): nat { if c.required.Required? then c.required.rate else 0 }

  function Opening(c: Config): seq<Action> {
    [PtyLine, ConnectLine, RateLine(GoodRate(c), GoodRate(c)), FinishRateLine] + [Proceed, Proceed, Proceed]
  }

  lemma {:induction false} Connects(c: Config)
    requires 1 <= c.count <= c.maxAttempts
    ensures var s := Run(c, Initial, Opening(c)); GoingWell(c, s, 0, 0) && s.pending == []
  {
    var a, b := Opening(c)[..4], [Proceed, Proceed, Proceed];
    assert Opening(c) == a + b;
    RunJoined(c, Initial, a, b);
    RunFour(c, Initial, PtyLine, ConnectLine, RateLine(GoodRate(c), GoodRate(c)), FinishRateLine);
    RunThree(c, Run(c, Initial, a), Proceed, Proceed, Proceed);
    hide Run;
  }

  /** Where the probe goes after response n + 1. */
  function AfterTaking(c: Config, n: nat): ProbeAt {
    if n + 1 < c.count then Pausing else if c.required.Required? then JudgeSeen else Ended
  }

  /** A response is sent for, arrives and is taken. */
  lemma {:induction false} ResponseComes(c: Config, s: State, a: nat, n: nat)
    requires GoingWell(c, s, a, n)
    ensures var t := Next(c, Next(c, Next(c, s, Proceed), Arrive(Response(c.pattern))), Proceed);
      && t.attempt == a + 1 && t.successes == n + 1 && t.stop == s.stop && t.at == AfterTaking(c, n)
      && t.success == t.at.Ended? && SameRates(s, t) && t.caller == s.caller
  {
    hide FindComplete, Response, TakeResponse;
    ResponseCompletes(c.pattern, s.pending);
    var t := Next(c, Next(c, s, Proceed), Arrive(Response(c.pattern)));
    TakingMoves(c, t, FindComplete(c.pattern, t.pending).index, a, n);
  }

  lemma {:induction false} TakingMoves(c: Config, s: State, index: nat, a: nat, n: nat)
    requires index <= |s.pending| && s.successes == n && s.attempt == a + 1 && n < c.count && !s.success
    ensures var t := TakeResponse(c, s, index);
      && t.attempt == a + 1 && t.successes == n + 1 && t.stop == s.stop && t.at == AfterTaking(c, n)
      && t.success == t.at.Ended? && SameRates(s, t) && t.caller == s.caller
  {}

  function Round(c: Config): seq<Action> { [Proceed, Arrive(Response(c.pattern)), Proceed, Proceed] }

  lemma {:induction false} OneRound(c: Config, s: State, a: nat, n: nat)
    requires GoingWell(c, s, a, n)
    ensures var t := Run(c, s, Round(c));
      if n + 1 < c.count then GoingWell(c, t, a + 1, n + 1) else
        Succeeded(Next(c, t, Proceed)) && Next(c, t, Proceed).attempt == a + 1
  {
    hide Run, FindComplete, Response;
    RunFour(c, s, Proceed, Arrive(Response(c.pattern)), Proceed, Proceed);
    ResponseComes(c, s, a, n);
    var t := Next(c, Next(c, Next(c, s, Proceed), Arrive(Response(c.pattern))), Proceed);
    AfterResponse(c, t, a, n);
  }

  lemma {:induction false} AfterResponse(c: Config, t: State, a: nat, n: nat)
    requires n < c.count && c.count - n <= c.maxAttempts - a && t.attempt == a + 1 && t.successes == n + 1 && !t.stop
    requires t.at == AfterTaking(c, n) && t.success == t.at.Ended?
    requires t.ratesSeen != [] && !t.rateFailure && t.observer.Listening? && t.caller.Away?
    ensures if n + 1 < c.count then GoingWell(c, Next(c, t, Proceed), a + 1, n + 1)
      else var u := Next(c, Next(c, t, Proceed), Proceed); Succeeded(u) && u.attempt == a + 1
  {
    hide FindComplete;
  }

  lemma {:induction false} Completes(c: Config, s: State, a: nat, n: nat) returns (actions: seq<Action>)
    requires GoingWell(c, s, a, n)
    ensures Succeeded(Run(c, s, actions)) && Run(c, s, actions).attempt == a + c.count - n
    decreases c.count - n
  {
    hide Next, Succeeded, Round;
    var t := Run(c, s, Round(c));
    OneRound(c, s, a, n);
    var rest := [Proceed];
    if n + 1 < c.count {
      rest := Completes(c, t, a + 1, n + 1);
    } else {
      assert [Proceed][..0] == [] && Run(c, t, []) == t;
    }
    RunJoined(c, s, Round(c), rest);
    actions := Round(c) + rest;
  }

  /** Every configuration that can succeed does so in some run. */
  lemma {:induction false} SomeRunSucceeds(c: Config) returns (actions: seq<Action>)
    requires 1 <= c.count <= c.maxAttempts
    ensures Succeeded(Run(c, Initial, actions))
  {
    hide GoingWell, Succeeded, Opening;
    Connects(c);
    var rest := Completes(c, Run(c, Initial, Opening(c)), 0, 0);
    RunJoined(c, Initial, Opening(c), rest);
    actions := Opening(c) + rest;
  }

  lemma {:induction false} JudgedSteps(c: Config, s: State, tx: nat, rx: nat)
    requires Succeeded(s) && Mismatch(c, tx, rx)
    ensures var t := Next(c, Next(c, Next(c, s, RateLine(tx, rx)), CheckRate), CheckSuccess);
      t.caller.Returned? && (tx, rx) in t.ratesSeen
  {
    hide RunProbe;
  }

  lemma {:induction false} HandledSteps(c: Config, s: State, tx: nat, rx: nat)
    requires Succeeded(s) && Mismatch(c, tx, rx)
    ensures Next(c, Next(c, Next(c, s, RateLine(tx, rx)), FinishRateLine), CheckRate).caller.Raised?
  {
    hide RunProbe;
  }

  lemma {:induction false} BetweenSteps(c: Config, s: State, tx: nat, rx: nat)
    requires Succeeded(s) && Mismatch(c, tx, rx)
    ensures var t := Next(c, Next(c, Next(c, Next(c, s, CheckRate), RateLine(tx, rx)), FinishRateLine), CheckSuccess);
      t.caller.Returned? && t.rateFailure && t.observer.Listening? && (tx, rx) in t.ratesSeen
  {
    hide RunProbe;
  }

  /** First escape: the rate is listed, but its line still being handled, when the
      caller looks for a failure.  Handled in time it is caught. */
  lemma {:induction false} EscapesWhileJudged(c: Config, tx: nat, rx: nat) returns (actions: seq<Action>)
    requires 1 <= c.count <= c.maxAttempts && Mismatch(c, tx, rx)
    ensures var t := Run(c, Initial, actions + [RateLine(tx, rx), CheckRate, CheckSuccess]);
      t.caller.Returned? && (tx, rx) in t.ratesSeen
    ensures Run(c, Initial, actions + [RateLine(tx, rx), FinishRateLine, CheckRate]).caller.Raised?
  {
    hide Run, Next, Succeeded;
    actions := SomeRunSucceeds(c);
    var s := Run(c, Initial, actions);
    RunJoined(c, Initial, actions, [RateLine(tx, rx), CheckRate, CheckSuccess]);
    RunJoined(c, Initial, actions, [RateLine(tx, rx), FinishRateLine, CheckRate]);
    RunThree(c, s, RateLine(tx, rx), CheckRate, CheckSuccess);
    RunThree(c, s, RateLine(tx, rx), FinishRateLine, CheckRate);
    JudgedSteps(c, s, tx, rx);
    HandledSteps(c, s, tx, rx);
  }

  /** Second escape: the rate comes, and is handled to the end, between the caller's two
      reads. */
  lemma {:induction false} EscapesBetweenReads(c: Config, tx: nat, rx: nat) returns (actions: seq<Action>)
    requires 1 <= c.count <= c.maxAttempts && Mismatch(c, tx, rx)
    ensures var t := Run(c, Initial, actions + [CheckRate, RateLine(tx, rx), FinishRateLine, CheckSuccess]);
      t.caller.Returned? && t.rateFailure && t.observer.Listening? && (tx, rx) in t.ratesSeen
  {
    hide Run, Next, Succeeded;
    actions := SomeRunSucceeds(c);
    var s := Run(c, Initial, actions);
    RunJoined(c, Initial, actions, [CheckRate, RateLine(tx, rx), FinishRateLine, CheckSuccess]);
    RunFour(c, s, CheckRate, RateLine(tx, rx), FinishRateLine, CheckSuccess);
    BetweenSteps(c, s, tx, rx);
  }
}
