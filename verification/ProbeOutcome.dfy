/** When the probe succeeds, that it can, and how it ends. */
module ProbeOutcome {
  import opened Responses
  import opened Probe
  import opened ProbeRates

  /** How far a probe has come, and its verdict. */
  ghost predicate Verdict(c: Config, s: State) {
    && s.successes <= c.count
    && (s.success ==> s.at.Ended? && !s.failed && s.successes == c.count)
    && (s.failed ==> s.at.Ended?)
    && (s.at.Ended? ==> s.success || s.failed || (s.stop && s.successes < c.count))
    && (s.at.JudgeSeen? || s.at.JudgeFailure? ==> s.successes == c.count)
    && (s.successes == c.count ==> s.at.Ended? || s.at.JudgeSeen? || s.at.JudgeFailure?)
    && (s.successes == c.count && c.required.NoRate? ==> s.success)
    && (s.at.AwaitPty? ==> s.attempt == 0) && (s.at.AwaitConnect? || s.attempt > 0 ==> s.ptyReady)
    && (s.at.Settling? || s.at.Sending? || s.at.Reading? || s.at.Pausing? ==> s.ptyReady)
  }

  lemma {:induction false} TakingKeepsVerdict(c: Config, s: State, index: nat)
    requires Verdict(c, s) && s.at.Reading? && index <= |s.pending|
    ensures Verdict(c, TakeResponse(c, s, index))
  {}

  lemma {:induction false} ReadingKeepsVerdict(c: Config, s: State, a: Action)
    requires Verdict(c, s) && s.at.Reading?
    ensures Verdict(c, RunProbe(c, s, a))
  {
    hide FindComplete, TakeResponse;
    if FindComplete(c.pattern, s.pending).At? {
      TakingKeepsVerdict(c, s, FindComplete(c.pattern, s.pending).index);
    }
  }

  lemma {:induction false} ProbeKeepsVerdict(c: Config, s: State, a: Action)
    requires Verdict(c, s)
    ensures Verdict(c, RunProbe(c, s, a))
  {
    hide FindComplete, ReadStep;
    if s.at.Reading? {
      ReadingKeepsVerdict(c, s, a);
    }
  }

  lemma {:induction false} OthersKeepVerdict(c: Config, s: State, a: Action)
    requires Verdict(c, s)
    ensures Verdict(c, Observe(c, s, a)) && Verdict(c, Call(s, a))
  {}

  lemma {:induction false} AlwaysVerdict(c: Config, actions: seq<Action>)
    requires 1 <= c.count
    ensures Verdict(c, Run(c, Initial, actions))
  {
    if actions != [] {
      hide Verdict, Observe, RunProbe, Call;
      var n := |actions| - 1;
      AlwaysVerdict(c, actions[..n]);
      ProbeKeepsVerdict(c, Run(c, Initial, actions[..n]), actions[n]);
      OthersKeepVerdict(c, Run(c, Initial, actions[..n]), actions[n]);
    }
  }

  /** Under every interleaving: the probe has succeeded if and only if it has ended with
      all its responses and has not failed.  With no required rate the responses alone
      decide. */
  lemma SucceedsIff(c: Config, actions: seq<Action>)
    requires 1 <= c.count
    ensures var s := Run(c, Initial, actions);
      && (s.success <==> s.at.Ended? && s.successes == c.count && !s.failed)
      && (c.required.NoRate? ==> (s.success <==> s.successes == c.count))
  {
    hide Run;
    AlwaysVerdict(c, actions);
  }

  /** A probe that ends has succeeded, failed or been stopped; and it transmits only once
      the modem's terminal is known. */
  lemma EndsForAReason(c: Config, actions: seq<Action>)
    requires 1 <= c.count
    ensures var s := Run(c, Initial, actions);
      && (s.at.Ended? ==> s.success || s.failed || s.stop)
      && (s.attempt > 0 ==> s.ptyReady)
  {
    hide Run;
    AlwaysVerdict(c, actions);
  }

  // ---------------------------------------------------------- it can succeed

  /** A call with nothing between its two reads returns normally if and only if the probe
      has succeeded and no mismatching rate has been noted; and it can be made again. */
  lemma {:induction false} CallDecides(c: Config, s: State)
    requires s.caller.Away?
    ensures var t := Next(c, Next(c, s, CheckRate), CheckSuccess);
      && (t.caller.Returned? <==> s.success && !s.rateFailure) && (t.caller.Raised? <==> !t.caller.Returned?)
      && Next(c, t, LeaveCall).caller.Away?
  {}

  lemma {:induction false} CallReturns(c: Config, s: State)
    requires Succeeded(s)
    ensures var t := Next(c, Next(c, s, CheckRate), CheckSuccess); t.caller.Returned? && t.attempt == s.attempt
  {}

  /** An attempt that gets nothing is followed by another. */
  lemma {:induction false} AttemptFails(c: Config, s: State, a: nat)
    requires GoingWell(c, s, a, 0) && s.pending == [] && Lengthy(c.pattern) && c.count < c.maxAttempts - a
    ensures var t := Next(c, Next(c, Next(c, s, Proceed), GiveUp), Proceed);
      GoingWell(c, t, a + 1, 0) && t.pending == []
  {
    NothingInNothing(c.pattern);
    hide FindComplete;
  }

  lemma NothingInNothing(p: Pattern)
    requires Lengthy(p)
    ensures FindComplete(p, []).NotFound?
  {
    if FindComplete(p, []).At? {
      FoundTakesBytes(p, []);
    }
  }

  lemma {:induction false} AttemptsFail(c: Config, s: State, a: nat, k: nat) returns (actions: seq<Action>)
    requires GoingWell(c, s, a, 0) && s.pending == [] && Lengthy(c.pattern) && c.count <= c.maxAttempts - a - k
    ensures var t := Run(c, s, actions); GoingWell(c, t, a + k, 0)
    decreases k
  {
    hide Next;
    if k == 0 {
      return [];
    }
    AttemptFails(c, s, a);
    RunThree(c, s, Proceed, GiveUp, Proceed);
    var rest := AttemptsFail(c, Run(c, s, [Proceed, GiveUp, Proceed]), a + 1, k - 1);
    RunJoined(c, s, [Proceed, GiveUp, Proceed], rest);
    actions := [Proceed, GiveUp, Proceed] + rest;
  }

  /** Every configuration with attempts enough has a run whose call returns normally,
      with as many attempts failing first as are to spare. */
  lemma {:induction false} ReturnsAfterFailures(c: Config, k: nat) returns (actions: seq<Action>)
    requires 1 <= c.count <= c.maxAttempts - k && (k > 0 ==> Lengthy(c.pattern))
    ensures Run(c, Initial, actions).caller.Returned? && Run(c, Initial, actions).attempt == k + c.count
  {
    hide GoingWell, Succeeded, Opening, Next;
    Connects(c);
    var first := Opening(c);
    if k > 0 {
      var more := AttemptsFail(c, Run(c, Initial, first), 0, k);
      RunJoined(c, Initial, first, more);
      first := first + more;
    }
    var rest := Completes(c, Run(c, Initial, first), k, 0);
    RunJoined(c, Initial, first, rest);
    var s := Run(c, Initial, first + rest);
    CallReturns(c, s);
    RunTwo(c, s, CheckRate, CheckSuccess);
    RunJoined(c, Initial, first + rest, [CheckRate, CheckSuccess]);
    actions := first + rest + [CheckRate, CheckSuccess];
  }

  // ---------------------------------------------------------- failures and stops

  /** A rate is a mismatch when one direction differs from the rate required; without a
      required rate none is. */
  lemma MismatchIff(c: Config, tx: nat, rx: nat)
    ensures Mismatch(c, tx, rx) <==> exists r: nat :: c.required == Required(r) && !(tx == r == rx)
  {}

  /** A required rate's failure noted before success is the end of it. */
  ghost predicate Doomed(c: Config, s: State) {
    c.required.Required? && s.rateFailure && !s.success
  }

  lemma {:induction false} ReadingStaysDoomed(c: Config, s: State, a: Action)
    requires Doomed(c, s) && s.at.Reading?
    ensures Doomed(c, RunProbe(c, s, a))
  {
    hide FindComplete;
  }

  lemma {:induction false} StaysDoomed(c: Config, s: State, a: Action)
    requires Doomed(c, s)
    ensures Doomed(c, Next(c, s, a))
  {
    hide FindComplete, ReadStep;
    if s.at.Reading? {
      ReadingStaysDoomed(c, s, a);
    }
  }

  /** However a run goes on after a mismatching rate has been noted, the probe never
      succeeds. */
  lemma {:induction false} NotedFailureIsFinal(c: Config, s: State, actions: seq<Action>)
    requires Doomed(c, s)
    ensures Doomed(c, Run(c, s, actions))
  {
    hide Next, Doomed;
    if actions != [] {
      NotedFailureIsFinal(c, s, actions[..|actions| - 1]);
      StaysDoomed(c, Run(c, s, actions[..|actions| - 1]), actions[|actions| - 1]);
    }
  }

  /** What makes the probe fail: an exception, a wait for the terminal or for CONNECT that
      runs out, no attempts left, no rate reported, or a mismatch noted. */
  predicate Fatal(c: Config, s: State, a: Action) {
    !s.at.Ended? &&
    match a
    case Crash => true
    case GiveUp => s.at.AwaitPty? || s.at.AwaitConnect?
    case Proceed => (s.at.Sending? && s.attempt >= c.maxAttempts) || (s.at.JudgeSeen? && s.ratesSeen == [])
      || (s.at.JudgeFailure? && s.rateFailure)
    case _ => false
  }

  lemma {:induction false} FatalFails(c: Config, s: State, a: Action)
    requires Fatal(c, s, a)
    ensures Next(c, s, a).failed && Next(c, s, a).at.Ended?
  {
    hide FindComplete, ReadStep;
  }

  lemma {:induction false} FailedProbe(c: Config, s: State, a: Action)
    requires s.failed && s.at.Ended?
    ensures RunProbe(c, s, a) == s
  {}

  lemma {:induction false} FailedStep(c: Config, s: State, a: Action)
    requires s.failed && s.at.Ended?
    ensures Next(c, s, a).failed && Next(c, s, a).at.Ended?
  {
    hide RunProbe;
    FailedProbe(c, s, a);
  }

  lemma {:induction false} StaysFailed(c: Config, s: State, actions: seq<Action>)
    requires s.failed && s.at.Ended?
    ensures Run(c, s, actions).failed && Run(c, s, actions).at.Ended?
  {
    hide Next;
    if actions != [] {
      StaysFailed(c, s, actions[..|actions| - 1]);
      FailedStep(c, Run(c, s, actions[..|actions| - 1]), actions[|actions| - 1]);
    }
  }

  /** And then it has failed for good: no call ever returns normally. */
  lemma FailureIsFinal(c: Config, before: seq<Action>, a: Action, rest: seq<Action>)
    requires 1 <= c.count && Fatal(c, Run(c, Initial, before), a)
    ensures var s := Run(c, Initial, before + [a] + rest); s.failed && !s.success && !s.caller.Returned?
  {
    hide Run, Next, Fatal, LogGood, DataGood;
    FatalFails(c, Run(c, Initial, before), a);
    RunTo(c, before, a);
    RunJoined(c, Initial, before + [a], rest);
    StaysFailed(c, Run(c, Initial, before + [a]), rest);
    AlwaysVerdict(c, before + [a] + rest);
    AlwaysInvariant(c, before + [a] + rest);
  }

  lemma {:induction false} RunTo(c: Config, before: seq<Action>, a: Action)
    ensures Run(c, Initial, before + [a]) == Next(c, Run(c, Initial, before), a)
  {
    hide Next;
    assert (before + [a])[..|before|] == before;
  }

  /** Transmissions made, and the one a probe about to send can still make. */
  function Possible(c: Config, s: State): nat {
    s.attempt + if s.at.Sending? && s.attempt < c.maxAttempts then 1 else 0
  }

  lemma {:induction false} ReadingSendsNothing(c: Config, s: State, a: Action)
    requires s.at.Reading?
    ensures Possible(c, RunProbe(c, s, a)) == Possible(c, s) && RunProbe(c, s, a).stop == s.stop
  {
    hide FindComplete;
  }

  lemma {:induction false} StoppedWaiting(c: Config, s: State, a: Action)
    requires s.stop && (s.at.AwaitPty? || s.at.AwaitConnect? || s.at.Settling? || s.at.Pausing? || s.at.Ended?)
    ensures RunProbe(c, s, a).stop && Possible(c, RunProbe(c, s, a)) <= Possible(c, s)
  {
    hide FindComplete, ReadStep;
  }

  lemma {:induction false} StoppedActing(c: Config, s: State, a: Action)
    requires s.stop && (s.at.Sending? || s.at.JudgeSeen? || s.at.JudgeFailure?)
    ensures RunProbe(c, s, a).stop && Possible(c, RunProbe(c, s, a)) <= Possible(c, s)
  {
    hide FindComplete, ReadStep;
  }

  lemma {:induction false} StoppedProbe(c: Config, s: State, a: Action)
    requires s.stop
    ensures RunProbe(c, s, a).stop && Possible(c, RunProbe(c, s, a)) <= Possible(c, s)
  {
    hide RunProbe, Possible;
    if s.at.Reading? {
      ReadingSendsNothing(c, s, a);
    } else if s.at.Sending? || s.at.JudgeSeen? || s.at.JudgeFailure? {
      StoppedActing(c, s, a);
    } else {
      StoppedWaiting(c, s, a);
    }
  }

  lemma {:induction false} ObserverSendsNothing(c: Config, s: State, a: Action)
    requires s.stop
    ensures Observe(c, s, a).stop && Possible(c, Observe(c, s, a)) == Possible(c, s)
  {}

  lemma {:induction false} OthersSendNothing(c: Config, s: State, a: Action)
    requires s.stop
    ensures var t, u := Observe(c, s, a), Call(s, a);
      t.stop && u.stop && Possible(c, t) == Possible(c, u) == Possible(c, s)
  {
    hide Observe;
    ObserverSendsNothing(c, s, a);
  }

  lemma {:induction false} StoppedStep(c: Config, s: State, a: Action)
    requires s.stop
    ensures Next(c, s, a).stop && Possible(c, Next(c, s, a)) <= Possible(c, s)
  {
    hide RunProbe, Observe, Call;
    StoppedProbe(c, s, a);
    OthersSendNothing(c, s, a);
  }

  /** Once stop is set a probe transmits no more, but for the transmission it was about
      to make. */
  lemma StopHalts(c: Config, s: State, actions: seq<Action>)
    ensures Run(c, Next(c, s, SetStop), actions).attempt <= s.attempt + if s.at.Sending? then 1 else 0
  {
    hide Run;
    StoppedRun(c, Next(c, s, SetStop), actions);
  }

  lemma {:induction false} StoppedRun(c: Config, s: State, actions: seq<Action>)
    requires s.stop
    ensures var t := Run(c, s, actions); t.stop && t.attempt <= Possible(c, t) <= Possible(c, s)
  {
    hide Next;
    if actions != [] {
      StoppedRun(c, s, actions[..|actions| - 1]);
      StoppedStep(c, Run(c, s, actions[..|actions| - 1]), actions[|actions| - 1]);
    }
  }
}
