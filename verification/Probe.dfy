/** The end-to-end data probe as three concurrent threads: the observer of the modem's
    stderr, the probe itself, and the caller of raise_for_status.  A run is any list
    of actions; an action that cannot happen in a state changes nothing. */
module Probe {
  import opened Framing
  import opened Responses

  datatype Rate = NoRate | Required(rate: nat)

  datatype Config = Config(pattern: Pattern, count: int, maxAttempts: int, required: Rate)

  /** What happened, in order.  A rate line counts as observed once its handler is
      done with it; StatusRead is the caller finding no rate failure. */
  datatype Event = Connected | Transmitted | RateObserved(tx: nat, rx: nat) | StatusRead

  datatype ProbeAt = AwaitPty | AwaitConnect | Settling | Sending | Reading | JudgeSeen | JudgeFailure | Pausing | Ended

  datatype ObserverAt = Listening | Judging(tx: nat, rx: nat)

  datatype CallerAt = Away | RateOk | Returned | Raised

  datatype State = State(
    ptyReady: bool, connected: bool, stop: bool, ratesSeen: seq<(nat, nat)>, rateFailure: bool,
    success: bool, failed: bool, at: ProbeAt, observer: ObserverAt, caller: CallerAt,
    attempt: nat, successes: nat, pending: seq<byte>,
    received: seq<byte>, responses: seq<seq<byte>>, events: seq<Event>)

  const Initial := State(false, false, false, [], false, false, false, AwaitPty, Listening, Away, 0, 0, [], [], [], [])

  datatype Action =
    | PtyLine | ConnectLine | RateLine(tx: nat, rx: nat) | FinishRateLine   // observer
    | Proceed | Arrive(chunk: seq<byte>) | GiveUp | Crash                   // probe
    | CheckRate | CheckSuccess | LeaveCall | SetStop                        // caller

  function Mismatch(c: Config, tx: nat, rx: nat): bool {
    c.required.Required? && (tx != c.required.rate || rx != c.required.rate)
  }

  function Fail(s: State): State {
    s.(at := Ended, failed := true)
  }

  /** observe_modem_stderr. */
  function Observe(c: Config, s: State, a: Action): State {
    match (a, s.observer)
    case (PtyLine, Listening) => s.(ptyReady := true)
    case (ConnectLine, Listening) => s.(connected := true, events := s.events + [Connected])
    case (RateLine(tx, rx), Listening) => s.(ratesSeen := s.ratesSeen + [(tx, rx)], observer := Judging(tx, rx))
    case (FinishRateLine, Judging(tx, rx)) =>
      s.(rateFailure := s.rateFailure || Mismatch(c, tx, rx), observer := Listening,
         events := s.events + [RateObserved(tx, rx)])
    case _ => s
  }

  /** _run: `Proceed` is the step that waits for nothing or for what has come,
      `GiveUp` a deadline or a stop, `Crash` an exception.  A wait can run out just as
      its event is set, so a step waited for may still be given up. */
  function RunProbe(c: Config, s: State, a: Action): State {
    if s.at.Ended? then s
    else if a.Crash? then Fail(s)
    else match s.at
      case AwaitPty =>
        if a.GiveUp? then Fail(s)
        else if a.Proceed? && s.ptyReady then s.(at := AwaitConnect)
        else s
      case AwaitConnect =>
        if a.GiveUp? then Fail(s)
        else if a.Proceed? && s.connected then s.(at := if s.stop then Ended else Settling)
        else s
      case Settling =>
        if a.Proceed? then s.(at := if s.stop then Ended else Sending) else s
      case Sending =>
        if !a.Proceed? then s
        else if s.attempt >= c.maxAttempts then Fail(s)
        else s.(attempt := s.attempt + 1, at := Reading, events := s.events + [Transmitted])
      case Reading => ReadStep(c, s, a)
      case JudgeSeen =>
        if !a.Proceed? then s else if s.ratesSeen == [] then Fail(s) else s.(at := JudgeFailure)
      case JudgeFailure =>
        if !a.Proceed? then s else if s.rateFailure then Fail(s) else s.(success := true, at := Ended)
      case Pausing =>
        if a.Proceed? then s.(at := if s.attempt < c.maxAttempts && s.stop then Ended else Sending) else s
  }

  /** _read_response, and what _run does with what it gives. */
  function ReadStep(c: Config, s: State, a: Action): State {
    match FindComplete(c.pattern, s.pending)
    case NotFound =>
      if a.Arrive? then s.(pending := s.pending + a.chunk, received := s.received + a.chunk)
      else if a.GiveUp? then s.(at := Pausing)
      else s
    case At(index) => if a.Proceed? then TakeResponse(c, s, index) else s
  }

  function TakeResponse(c: Config, s: State, index: nat): State
    requires index <= |s.pending|
  {
    var done := s.successes + 1 == c.count;
    s.(responses := s.responses + [s.pending[..index]], pending := s.pending[index..], successes := s.successes + 1,
       success := s.success || (done && c.required.NoRate?),
       at := if !done then Pausing else if c.required.Required? then JudgeSeen else Ended)
  }

  /** raise_for_status, read by read; stop may be set at any time. */
  function Call(s: State, a: Action): State {
    match (a, s.caller)
    case (CheckRate, Away) =>
      if s.rateFailure then s.(caller := Raised) else s.(caller := RateOk, events := s.events + [StatusRead])
    case (CheckSuccess, RateOk) => s.(caller := if s.success then Returned else Raised)
    case (LeaveCall, _) => if s.caller.Returned? || s.caller.Raised? then s.(caller := Away) else s
    case (SetStop, _) => s.(stop := true)
    case _ => s
  }

  function Next(c: Config, s: State, a: Action): State {
    if a.PtyLine? || a.ConnectLine? || a.RateLine? || a.FinishRateLine? then Observe(c, s, a)
    else if a.Proceed? || a.Arrive? || a.GiveUp? || a.Crash? then RunProbe(c, s, a)
    else Call(s, a)
  }

  function Run(c: Config, s: State, actions: seq<Action>): State {
    if actions == [] then s else
      var n := |actions| - 1;
      Next(c, Run(c, s, actions[..n]), actions[n])
  }

  // ---------------------------------------------------------- the invariant

  ghost predicate ConnectFirst(events: seq<Event>) {
    forall j :: 0 <= j < |events| && events[j].Transmitted? ==> Connected in events[..j]
  }

  function Transmissions(events: seq<Event>): nat {
    if events == [] then 0 else
      Transmissions(events[..|events| - 1]) + if events[|events| - 1].Transmitted? then 1 else 0
  }

  ghost predicate NoMismatch(c: Config, events: seq<Event>) {
    forall i :: 0 <= i < |events| && events[i].RateObserved? ==> !Mismatch(c, events[i].tx, events[i].rx)
  }

  /** When the caller last found no rate failure, none had been observed. */
  ghost predicate ReadsWereClean(c: Config, events: seq<Event>) {
    forall j :: 0 <= j < |events| && events[j].StatusRead? ==> NoMismatch(c, events[..j])
  }

  ghost predicate AllComplete(p: Pattern, responses: seq<seq<byte>>) {
    forall i :: 0 <= i < |responses| ==> Complete(p, responses[i])
  }

  /** What the log shows, of any state. */
  ghost predicate LogGood(c: Config, events: seq<Event>, connected: bool, attempt: nat, rateFailure: bool) {
    && ConnectFirst(events) && (connected <==> Connected in events)
    && Transmissions(events) == attempt && (attempt == 0 || attempt <= c.maxAttempts)
    && (!rateFailure ==> NoMismatch(c, events)) && ReadsWereClean(c, events)
  }

  /** The responses taken, and what is pending, are what has been received. */
  ghost predicate DataGood(p: Pattern, responses: seq<seq<byte>>, pending: seq<byte>, received: seq<byte>,
                           successes: nat)
  {
    Flatten(responses) + pending == received && AllComplete(p, responses) && |responses| == successes
  }

  ghost predicate Invariant(c: Config, s: State) {
    && LogGood(c, s.events, s.connected, s.attempt, s.rateFailure)
    && DataGood(c.pattern, s.responses, s.pending, s.received, s.successes)
    && (s.at.AwaitPty? || s.at.AwaitConnect? || s.at.Ended? || s.connected)
    && s.successes + (if s.at.Reading? then 1 else 0) <= s.attempt
    && (s.at.JudgeSeen? || s.at.JudgeFailure? ==> s.successes == c.count && 1 <= c.count)
    && (s.at.JudgeFailure? || (s.success && c.required.Required?) ==> s.ratesSeen != [])
    && (s.success ==> s.successes == c.count && 1 <= c.count && s.at.Ended?)
    && (s.caller.RateOk? || s.caller.Returned? ==> StatusRead in s.events)
    && (s.caller.Returned? ==> s.success)
  }

  lemma EventAdded(c: Config, events: seq<Event>, e: Event)
    requires ConnectFirst(events) && ReadsWereClean(c, events)
    requires e.Transmitted? ==> Connected in events
    requires e.StatusRead? ==> NoMismatch(c, events)
    ensures ConnectFirst(events + [e]) && ReadsWereClean(c, events + [e])
    ensures NoMismatch(c, events) && (e.RateObserved? ==> !Mismatch(c, e.tx, e.rx)) ==> NoMismatch(c, events + [e])
    ensures Transmissions(events + [e]) == Transmissions(events) + if e.Transmitted? then 1 else 0
    ensures forall x :: x in events + [e] <==> x in events || x == e
  {
    var more := events + [e];
    assert more[..|events|] == events;
    assert forall j :: 0 <= j < |events| ==> more[..j] == events[..j];
  }

  lemma ObserverKeeps(c: Config, s: State, a: Action)
    requires Invariant(c, s)
    ensures Invariant(c, Observe(c, s, a))
  {
    hide ConnectFirst, ReadsWereClean, NoMismatch, Transmissions, DataGood, Mismatch;
    match (a, s.observer)
    case (ConnectLine, Listening) => EventAdded(c, s.events, Connected);
    case (FinishRateLine, Judging(tx, rx)) => EventAdded(c, s.events, RateObserved(tx, rx));
    case _ =>
  }

  lemma CallerKeeps(c: Config, s: State, a: Action)
    requires Invariant(c, s)
    ensures Invariant(c, Call(s, a))
  {
    hide ConnectFirst, ReadsWereClean, NoMismatch, Transmissions, DataGood;
    if a.CheckRate? && !s.rateFailure {
      EventAdded(c, s.events, StatusRead);
    }
  }

  lemma ResponseTaken(c: Config, s: State)
    requires DataGood(c.pattern, s.responses, s.pending, s.received, s.successes)
    requires FindComplete(c.pattern, s.pending).At?
    ensures var n := FindComplete(c.pattern, s.pending).index;
      DataGood(c.pattern, s.responses + [s.pending[..n]], s.pending[n..], s.received, s.successes + 1)
  {
    var n := FindComplete(c.pattern, s.pending).index;
    ShortestPrefix(c.pattern, s.pending, n);
    FlattenOne(s.responses, s.pending[..n]);
    hide FindComplete, Complete, Flatten;
    assert s.pending[..n] + s.pending[n..] == s.pending;
    assert Flatten(s.responses) + s.pending[..n] + s.pending[n..] == Flatten(s.responses) + s.pending;
  }

  lemma BytesArrive(c: Config, s: State, chunk: seq<byte>)
    requires DataGood(c.pattern, s.responses, s.pending, s.received, s.successes)
    ensures DataGood(c.pattern, s.responses, s.pending + chunk, s.received + chunk, s.successes)
  {
    hide Flatten;
    assert Flatten(s.responses) + (s.pending + chunk) == Flatten(s.responses) + s.pending + chunk;
  }

  lemma ProbeKeeps(c: Config, s: State, a: Action)
    requires Invariant(c, s)
    ensures Invariant(c, RunProbe(c, s, a))
  {
    if s.at.Sending? {
      SendKeeps(c, s, a);
    } else if s.at.Reading? {
      ReadKeeps(c, s, a);
    } else if s.at.JudgeSeen? || s.at.JudgeFailure? {
      JudgeKeeps(c, s, a);
    } else {
      WaitKeeps(c, s, a);
    }
    hide RunProbe, Invariant;
  }

  lemma WaitKeeps(c: Config, s: State, a: Action)
    requires Invariant(c, s) && (s.at.AwaitPty? || s.at.AwaitConnect? || s.at.Settling? || s.at.Pausing? || s.at.Ended?)
    ensures Invariant(c, RunProbe(c, s, a))
  {
    hide LogGood, DataGood, FindComplete;
    assert s.connected || !RunProbe(c, s, a).at.Settling?;
  }

  lemma JudgeKeeps(c: Config, s: State, a: Action)
    requires Invariant(c, s) && (s.at.JudgeSeen? || s.at.JudgeFailure?)
    ensures Invariant(c, RunProbe(c, s, a))
  {
    hide LogGood, DataGood, FindComplete;
  }

  lemma ReadKeeps(c: Config, s: State, a: Action)
    requires Invariant(c, s) && s.at.Reading?
    ensures Invariant(c, RunProbe(c, s, a))
  {
    hide LogGood, DataGood, FindComplete;
    if a.Proceed? && FindComplete(c.pattern, s.pending).At? {
      ResponseTaken(c, s);
    } else if a.Arrive? {
      BytesArrive(c, s, a.chunk);
    }
  }

  lemma SendKeeps(c: Config, s: State, a: Action)
    requires Invariant(c, s) && s.at.Sending?
    ensures Invariant(c, RunProbe(c, s, a))
  {
    hide ConnectFirst, ReadsWereClean, NoMismatch, Transmissions, DataGood, ReadStep, FindComplete;
    EventAdded(c, s.events, Transmitted);
  }

  /** Under every interleaving, the invariant holds throughout. */
  lemma {:induction false} AlwaysInvariant(c: Config, actions: seq<Action>)
    ensures Invariant(c, Run(c, Initial, actions))
  {
    if actions != [] {
      var n := |actions| - 1;
      AlwaysInvariant(c, actions[..n]);
      var s := Run(c, Initial, actions[..n]);
      ObserverKeeps(c, s, actions[n]);
      ProbeKeeps(c, s, actions[n]);
      CallerKeeps(c, s, actions[n]);
      hide Invariant, Observe, RunProbe, Call;
    }
  }

  /** If raise_for_status returns normally, then: every transmission came after CONNECT;
      exactly `count` disjoint complete responses were received, no more of them than
      transmissions, of which there were at most `maxAttempts`; and when a rate is
      required, some rate was seen, and no mismatching rate had been observed when the
      caller looked. */
  lemma ProbeSafety(c: Config, actions: seq<Action>)
    requires Run(c, Initial, actions).caller.Returned?
    ensures var s := Run(c, Initial, actions);
      && ConnectFirst(s.events)
      && |s.responses| == c.count && AllComplete(c.pattern, s.responses)
      && Flatten(s.responses) <= s.received
      && 1 <= |s.responses| <= Transmissions(s.events) <= c.maxAttempts
      && (c.required.Required? ==> s.ratesSeen != [])
      && StatusRead in s.events && ReadsWereClean(c, s.events)
  {
    AlwaysInvariant(c, actions);
    hide Run;
  }

  // ------------------------------------------------------ nothing overlooked

  /** The responses taken so far begin the greedy cutting of all that was received,
      and what is pending will give the rest of it. */
  ghost predicate TakesGreedily(p: Pattern, s: State)
    requires Lengthy(p)
  {
    && Cut(p, s.received).0 == s.responses + Cut(p, s.pending).0
    && Cut(p, s.received).1 == Cut(p, s.pending).1
  }

  lemma TakeKeepsGreedy(p: Pattern, s: State, t: State)
    requires Lengthy(p) && TakesGreedily(p, s) && FindComplete(p, s.pending).At?
    requires t.received == s.received && t.responses == s.responses + [s.pending[..FindComplete(p, s.pending).index]]
    requires t.pending == s.pending[FindComplete(p, s.pending).index..]
    ensures TakesGreedily(p, t)
  {
    hide FindComplete;
    FoundTakesBytes(p, s.pending);
    var first, more := s.pending[..FindComplete(p, s.pending).index], Cut(p, t.pending).0;
    assert s.responses + ([first] + more) == s.responses + [first] + more;
  }

  lemma ArrivalKeepsGreedy(p: Pattern, s: State, t: State, chunk: seq<byte>)
    requires Lengthy(p) && TakesGreedily(p, s) && FindComplete(p, s.pending).NotFound?
    requires t.received == s.received + chunk && t.pending == s.pending + chunk && t.responses == s.responses
    ensures TakesGreedily(p, t)
  {
    hide FindComplete;
    assert s.responses + [] == s.responses;
    CutAppend(p, s.received, chunk);
  }

  ghost predicate SameData(s: State, t: State) {
    t.received == s.received && t.pending == s.pending && t.responses == s.responses
  }

  lemma {:induction false} TakingMovesData(c: Config, s: State, index: nat)
    requires index <= |s.pending|
    ensures var t := TakeResponse(c, s, index);
      && t.received == s.received && t.responses == s.responses + [s.pending[..index]]
      && t.pending == s.pending[index..]
  {}

  lemma {:induction false} ReadingMovesData(c: Config, s: State, a: Action)
    requires s.at.Reading?
    ensures var t, found := RunProbe(c, s, a), FindComplete(c.pattern, s.pending);
      if a.Proceed? && found.At? then
        && t.received == s.received && t.responses == s.responses + [s.pending[..found.index]]
        && t.pending == s.pending[found.index..]
      else if a.Arrive? && found.NotFound? then
        t.received == s.received + a.chunk && t.pending == s.pending + a.chunk && t.responses == s.responses
      else SameData(s, t)
  {
    hide FindComplete, TakeResponse;
    if FindComplete(c.pattern, s.pending).At? {
      TakingMovesData(c, s, FindComplete(c.pattern, s.pending).index);
    }
  }

  lemma {:induction false} WaitingKeepsData(c: Config, s: State, a: Action)
    requires s.at.AwaitPty? || s.at.AwaitConnect? || s.at.Settling? || s.at.Pausing? || s.at.Ended?
    ensures SameData(s, RunProbe(c, s, a))
  {
    hide FindComplete, ReadStep;
  }

  lemma {:induction false} SendingKeepsData(c: Config, s: State, a: Action)
    requires s.at.Sending?
    ensures SameData(s, RunProbe(c, s, a))
  {
    hide FindComplete, ReadStep;
  }

  lemma {:induction false} ActingKeepsData(c: Config, s: State, a: Action)
    requires s.at.Sending? || s.at.JudgeSeen? || s.at.JudgeFailure?
    ensures SameData(s, RunProbe(c, s, a))
  {
    hide FindComplete, ReadStep;
    if s.at.Sending? {
      SendingKeepsData(c, s, a);
    }
  }

  lemma {:induction false} OthersKeepData(c: Config, s: State, a: Action)
    ensures SameData(s, Observe(c, s, a)) && SameData(s, Call(s, a))
  {}

  lemma {:induction false} ProbeStepsGreedily(c: Config, s: State, a: Action)
    requires Lengthy(c.pattern) && TakesGreedily(c.pattern, s)
    ensures TakesGreedily(c.pattern, RunProbe(c, s, a))
  {
    hide FindComplete, Cut, TakesGreedily, RunProbe, SameData;
    var t := RunProbe(c, s, a);
    if s.at.Reading? {
      ReadingMovesData(c, s, a);
      if a.Proceed? && FindComplete(c.pattern, s.pending).At? {
        TakeKeepsGreedy(c.pattern, s, t);
      } else if a.Arrive? && FindComplete(c.pattern, s.pending).NotFound? {
        ArrivalKeepsGreedy(c.pattern, s, t, a.chunk);
      } else {
        SameDataIsGreedy(c.pattern, s, t);
      }
    } else {
      if s.at.Sending? || s.at.JudgeSeen? || s.at.JudgeFailure? {
        ActingKeepsData(c, s, a);
      } else {
        WaitingKeepsData(c, s, a);
      }
      SameDataIsGreedy(c.pattern, s, t);
    }
  }

  lemma {:induction false} SameDataIsGreedy(p: Pattern, s: State, t: State)
    requires Lengthy(p) && TakesGreedily(p, s) && SameData(s, t)
    ensures TakesGreedily(p, t)
  {
    hide Cut;
  }

  lemma {:induction false} AlwaysGreedy(c: Config, actions: seq<Action>)
    requires Lengthy(c.pattern)
    ensures TakesGreedily(c.pattern, Run(c, Initial, actions))
  {
    hide TakesGreedily, RunProbe, Observe, Call, Cut, SameData;
    if actions == [] {
      NothingToCut(c.pattern, Initial);
    } else {
      var n := |actions| - 1;
      var s := Run(c, Initial, actions[..n]);
      AlwaysGreedy(c, actions[..n]);
      ProbeStepsGreedily(c, s, actions[n]);
      OthersKeepData(c, s, actions[n]);
      SameDataIsGreedy(c.pattern, s, Observe(c, s, actions[n]));
      SameDataIsGreedy(c.pattern, s, Call(s, actions[n]));
    }
  }

  lemma NothingToCut(p: Pattern, s: State)
    requires Lengthy(p) && s.received == s.pending && s.responses == []
    ensures TakesGreedily(p, s)
  {
    hide Cut;
    assert [] + Cut(p, s.pending).0 == Cut(p, s.pending).0;
  }

  /** Whatever the chunks and the interleaving: while the probe finds nothing more in
      what is pending, it has counted as many responses as any disjoint choice from all
      it has received could hold. */
  lemma CountsAllReceived(c: Config, actions: seq<Action>, cuts: seq<Stretch>)
    requires Lengthy(c.pattern)
    requires FindComplete(c.pattern, Run(c, Initial, actions).pending).NotFound?
    requires Disjoint(c.pattern, Run(c, Initial, actions).received, cuts)
    ensures |cuts| <= Run(c, Initial, actions).successes
  {
    hide FindComplete, Disjoint, Run, LogGood;
    AlwaysInvariant(c, actions);
    AlwaysGreedy(c, actions);
    GreedyIsOptimal(c.pattern, Run(c, Initial, actions).received, cuts);
  }
}
