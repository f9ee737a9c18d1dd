/** WAV playback paced against an absolute clock (tx_tick), in the program's unsigned
    64-bit milliseconds. */
module Pacing {

  const TWO64 := 0x1_0000_0000_0000_0000

  /** The deadline after a tick at `now`: the next grid point, or a fresh start when
      the tick is more than one packet late. */
  function NextDeadline(now: int, deadline: int, ptime: int): int {
    if (now - ptime) % TWO64 > deadline then (now + ptime) % TWO64 else (deadline + ptime) % TWO64
  }

  /** The timer is set for the deadline, or for the next millisecond if it has passed. */
  function TimerDelay(now: int, next: int): int {
    if next > now then next - now else 1
  }

  /** Within the clock's room the unsigned arithmetic is plain. */
  lemma WithoutWrap(now: int, deadline: int, ptime: int)
    requires 0 < ptime <= now < TWO64 - ptime && 0 <= deadline < TWO64 - ptime
    ensures NextDeadline(now, deadline, ptime) == if now - ptime > deadline then now + ptime else deadline + ptime
  {}

  /** Ticks of a run: times[k] is when frame k is sent, deadlines[k] its deadline.  The
      clock has room left, as 64-bit milliseconds do for 500 million years. */
  ghost predicate TickRun(start: int, ptime: int, times: seq<int>, deadlines: seq<int>) {
    && 0 < ptime && 0 <= start && |deadlines| == |times|
    && (forall k :: 0 <= k < |times| ==> ptime <= times[k] < TWO64 - ptime && 0 <= deadlines[k] < TWO64 - ptime)
    && (|times| > 0 ==> deadlines[0] == start + ptime && times[0] >= deadlines[0])
    && (forall k :: 0 < k < |times| ==>
      && deadlines[k] == NextDeadline(times[k - 1], deadlines[k - 1], ptime)
      && times[k] >= times[k - 1] + TimerDelay(times[k - 1], deadlines[k]))
  }

  /** No frame goes out before its deadline, nor later than the next one, and
      deadlines are at least one packet apart. */
  lemma {:induction false} DeadlineBrackets(start: int, ptime: int, times: seq<int>, deadlines: seq<int>, k: nat)
    requires TickRun(start, ptime, times, deadlines) && k < |times|
    ensures deadlines[k] <= times[k]
    ensures k + 1 < |times| ==> times[k] <= deadlines[k + 1] && deadlines[k] + ptime <= deadlines[k + 1]
  {
    hide NextDeadline;
    if k > 0 {
      DeadlineBrackets(start, ptime, times, deadlines, k - 1);
      assert times[k] >= times[k - 1] + TimerDelay(times[k - 1], deadlines[k]);
    }
    if k + 1 < |times| {
      DeadlineStep(start, ptime, times, deadlines, k + 1);
    }
  }

  /** A run goes on with a frame sent at `now`, its timer not early. */
  lemma RunExtends(start: int, ptime: int, times: seq<int>, deadlines: seq<int>, next: int, now: int)
    requires TickRun(start, ptime, times, deadlines) && 0 <= next <= now < TWO64 - ptime
    requires times == [] ==> next == start + ptime
    requires times != [] ==>
      var last := |times| - 1;
      next == NextDeadline(times[last], deadlines[last], ptime) && now >= times[last] + TimerDelay(times[last], next)
    ensures TickRun(start, ptime, times + [now], deadlines + [next])
  {
    hide NextDeadline;
    assert times != [] ==> times[|times| - 1] >= ptime;
  }

  lemma PastStart(start: int, ptime: int, times: seq<int>, deadlines: seq<int>)
    requires TickRun(start, ptime, times, deadlines)
    ensures 0 < ptime && 0 <= start && |deadlines| == |times|
    ensures times != [] ==> times[|times| - 1] >= ptime
  {}

  /** The pacer, with the frames it has sent and their deadlines. */
  class Pacer {
    const ptime: int
    ghost const start: int
    var txNext: int
    var timer: int   // when the pending timer is due
    ghost var times: seq<int>
    ghost var deadlines: seq<int>

    /** What has been sent is a run, and the timer is set for the next frame of it. */
    ghost predicate Valid()
      reads this
    {
      && TickRun(start, ptime, times, deadlines) && 0 <= txNext <= timer
      && (times == [] ==> txNext == start + ptime == timer)
      && (times != [] ==>
        var now := times[|times| - 1];
        txNext == NextDeadline(now, deadlines[|times| - 1], ptime) && timer == now + TimerDelay(now, txNext))
    }

    /** start_media at time `now`. */
    constructor (ptime: int, now: int)
      requires 0 < ptime && 0 <= now && now + ptime < TWO64
      ensures Valid() && this.ptime == ptime && start == now && times == deadlines == []
    {
      this.ptime, start, times, deadlines := ptime, now, [], [];
      txNext, timer := now + ptime, now + ptime;
    }

    /** A timer that does not fire early sends a frame no earlier than its deadline, and
        the run goes on: the laws below hold of everything the pacer ever sends. */
    method Tick(now: int)
      requires Valid() && timer <= now < TWO64 - ptime
      modifies this
      ensures Valid() && times == old(times) + [now] && deadlines == old(deadlines) + [old(txNext)]
      ensures old(txNext) <= now <= txNext && old(txNext) + ptime <= txNext
      ensures timer == if now < txNext then txNext else now + 1
    {
      hide TickRun;
      RunExtends(start, ptime, times, deadlines, txNext, now);
      PastStart(start, ptime, times, deadlines);
      times, deadlines := times + [now], deadlines + [txNext];
      WithoutWrap(now, txNext, ptime);
      if (now - ptime) % TWO64 > txNext {
        txNext := (now + ptime) % TWO64;
      } else {
        txNext := (txNext + ptime) % TWO64;
      }
      timer := now + if txNext > now then txNext - now else 1;
    }
  }

  lemma {:induction false} DeadlinesApart(start: int, ptime: int, times: seq<int>, deadlines: seq<int>, k: nat, n: nat)
    requires TickRun(start, ptime, times, deadlines) && k + n < |times|
    ensures deadlines[k + n] >= deadlines[k] + n * ptime
    decreases n
  {
    if n > 0 {
      DeadlinesApart(start, ptime, times, deadlines, k, n - 1);
      DeadlineBrackets(start, ptime, times, deadlines, k + n - 1);
      assert n * ptime == (n - 1) * ptime + ptime;
    }
  }

  /** Any n + 1 consecutive frames span at least (n - 1) * ptime. */
  lemma FramesSpan(start: int, ptime: int, times: seq<int>, deadlines: seq<int>, k: nat, n: nat)
    requires TickRun(start, ptime, times, deadlines) && k + n < |times| && n >= 1
    ensures times[k + n] - times[k] >= (n - 1) * ptime
  {
    DeadlineBrackets(start, ptime, times, deadlines, k);
    DeadlineBrackets(start, ptime, times, deadlines, k + n);
    DeadlinesApart(start, ptime, times, deadlines, k + 1, n - 1);
  }

  /** Deadlines stay on the grid start + k * ptime up to frame n exactly when no frame
      before it was more than one packet late. */
  lemma {:induction false} NoDriftIff(start: int, ptime: int, times: seq<int>, deadlines: seq<int>, n: nat)
    requires TickRun(start, ptime, times, deadlines) && n < |times|
    ensures (forall k :: 0 <= k <= n ==> deadlines[k] == start + (k + 1) * ptime)
      <==> (forall k :: 0 <= k < n ==> times[k] <= deadlines[k] + ptime)
    decreases n
  {
    hide TickRun, NextDeadline;
    FirstDeadline(start, ptime, times, deadlines);
    if n > 0 {
      NoDriftIff(start, ptime, times, deadlines, n - 1);
      DeadlineBrackets(start, ptime, times, deadlines, n - 1);
      DeadlineStep(start, ptime, times, deadlines, n);
      assert (n + 1) * ptime == n * ptime + ptime;
    }
  }

  /** Every timer fires exactly when it is due. */
  ghost predicate Punctual(start: int, ptime: int, times: seq<int>, deadlines: seq<int>) {
    && TickRun(start, ptime, times, deadlines) && (times != [] ==> times[0] == start + ptime)
    && forall k :: 0 < k < |times| ==> times[k] == times[k - 1] + TimerDelay(times[k - 1], deadlines[k])
  }

  /** Then the frames go out on the grid. */
  lemma {:induction false} PunctualFrames(start: int, ptime: int, times: seq<int>, deadlines: seq<int>, k: nat)
    requires Punctual(start, ptime, times, deadlines) && k < |times|
    ensures times[k] == deadlines[k] == start + (k + 1) * ptime
  {
    if k > 0 {
      PunctualFrames(start, ptime, times, deadlines, k - 1);
      DeadlineStep(start, ptime, times, deadlines, k);
      assert (k + 1) * ptime == k * ptime + ptime;
    }
  }

  lemma FirstDeadline(start: int, ptime: int, times: seq<int>, deadlines: seq<int>)
    requires TickRun(start, ptime, times, deadlines) && times != []
    ensures |deadlines| == |times| && deadlines[0] == start + ptime
  {}

  lemma DeadlineStep(start: int, ptime: int, times: seq<int>, deadlines: seq<int>, n: nat)
    requires TickRun(start, ptime, times, deadlines) && 0 < n < |times|
    ensures |deadlines| == |times|
    ensures var now, due := times[n - 1], deadlines[n - 1];
      deadlines[n] == if now - ptime > due then now + ptime else due + ptime
  {
    hide NextDeadline;
    assert deadlines[n] == NextDeadline(times[n - 1], deadlines[n - 1], ptime);
    WithoutWrap(times[n - 1], deadlines[n - 1], ptime);
  }
}
