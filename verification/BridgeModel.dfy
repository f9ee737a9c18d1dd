/** What the main loop of slmodem_bridge does to one 10 ms block, as a function.

    `Setup` holds what a run cannot change, the foreign parts among it: the modem is
    an arbitrary function from the number of the call, the fragment and the current
    update_delay to the samples it plays and the update_delay it leaves, and stdout
    accepts or refuses each write as it likes. */
module BridgeModel {
  import opened FixedPoint
  import opened Polyphase
  import opened PolyphaseLaws
  import opened Ratios

  const NET_RATE := 8000
  const MODEM_RATE_MAX := 9600
  const NET_SAMPC := 80

  datatype Reply = Reply(tx: nat -> int, update: int)

  datatype Setup = Setup(rate: int, frag: nat, modem: (nat, seq<int>, int) -> Reply, stdoutOk: nat -> bool,
                         up: Bank, down: Bank) {
    function SampC(): nat {
      if rate == NET_RATE then 80 else 96
    }

    ghost predicate Valid() {
      && (rate == NET_RATE || rate == MODEM_RATE_MAX) && frag >= 1
      && up.Valid() && up.up == 6 && up.down == 5 && up.len == 36
      && down.Valid() && down.up == 5 && down.down == 6 && down.len == 32
    }
  }

  /** The two converters are those of the ratio codes the bridge asks for. */
  lemma SetupFollowsTables(c: Setup)
    ensures c.Valid() <==>
      && (c.rate == NET_RATE || c.rate == MODEM_RATE_MAX) && c.frag >= 1 && c.up.Valid() && c.down.Valid()
      && c.up == BankOf(NET_TO_MODEM, c.up.coeffs) && c.down == BankOf(MODEM_TO_NET, c.down.coeffs)
  {
    assert UP_FACTOR[2] == 6 && DOWN_FACTOR[2] == 5 && WINDOW_LEN[2] == 36;
    assert UP_FACTOR[3] == 5 && DOWN_FACTOR[3] == 6 && WINDOW_LEN[3] == 32;
  }

  /** One running bridge: the two delays, what the modem was given and by how much it
      moved update_delay, what reached stdout, the two converters, the samples converted
      for the modem, those given to each conversion to the network, and how many were lost
      in these. */
  datatype Line = Line(ioDelay: int, update: int, shift: int, calls: nat, fragments: seq<seq<int>>,
                       frames: nat, writes: nat, emitted: seq<int>, running: bool,
                       toModem: State, toNet: State, heard: seq<int>, given: seq<seq<int>>, lost: nat)

  function NewLine(c: Setup, ioDelay: int, update: int): Line
    requires c.up.Valid() && c.down.Valid()
  {
    Line(ioDelay, update, 0, 0, [], 0, 0, [], true, Fresh(c.up), Fresh(c.down), [], [], 0)
  }

  ghost predicate ValidLine(c: Setup, l: Line) {
    c.Valid() && Settled(c.up, l.toModem) && Settled(c.down, l.toNet)
  }

  // ------------------------------------------------------------ the steps

  ghost function ToModem(c: Setup, l: Line, block: seq<int>): (seq<int>, Line)
    requires ValidLine(c, l)
  {
    if c.rate == NET_RATE then (block, l.(heard := l.heard + block)) else
      var (out, t) := Call(c.up, l.toModem, block, c.SampC());
      (out, l.(toModem := t, heard := l.heard + out))
  }

  ghost function ToNet(c: Setup, l: Line, samples: seq<int>): (seq<int>, Line)
    requires ValidLine(c, l)
  {
    if samples == [] then ([], l) else
    if c.rate == NET_RATE then (samples, l.(given := l.given + [samples])) else
      var (out, t) := Call(c.down, l.toNet, samples, NET_SAMPC);
      ConsumedInRange(c, l, samples);
      var lost := |samples| - Consumed(c.down, l.toNet.position, |samples|, NET_SAMPC);
      (out, l.(toNet := t, given := l.given + [samples], lost := l.lost + lost))
  }

  lemma ConsumedInRange(c: Setup, l: Line, samples: seq<int>)
    requires ValidLine(c, l)
    ensures 0 <= Consumed(c.down, l.toNet.position, |samples|, NET_SAMPC) <= |samples|
  {
    CallInRange(c.down, l.toNet, |samples|, NET_SAMPC);
  }

  /** Samples a negative update_delay discards from a block. */
  function Dropped(update: int, count: nat): nat {
    if update >= 0 then 0 else if -update > count then count else -update
  }

  /** One call of modem_process. */
  ghost function ModemCall(c: Setup, l: Line, piece: seq<int>): (r: (seq<int>, Line))
    ensures |r.0| == |piece| && r.1.update - r.1.shift == l.update - l.shift
    ensures r.1 == l.(calls := l.calls + 1, fragments := l.fragments + [piece],
                      update := r.1.update, shift := r.1.shift)
  {
    var reply := c.modem(l.calls, piece, l.update);
    (seq(|piece|, reply.tx),
     l.(calls := l.calls + 1, fragments := l.fragments + [piece], update := reply.update,
        shift := l.shift + reply.update - l.update))
  }

  ghost function Fragment(c: Setup, l: Line, rest: seq<int>): (seq<int>, Line)
    requires c.frag >= 1
    decreases |rest|
  {
    if rest == [] then ([], l) else
      var f := if |rest| > c.frag then c.frag else |rest|;
      var (played, m) := ModemCall(c, l, rest[..f]);
      var (tx, n) := Fragment(c, m, rest[f..]);
      (played + tx, n)
  }

  /** One turn of the fragment loop, at position i of the block. */
  lemma FragmentNext(c: Setup, l: Line, kept: seq<int>, i: nat, tx: seq<int>)
    requires c.frag >= 1 && i < |kept|
    ensures var f := if |kept| - i > c.frag then c.frag else |kept| - i;
      var r := ModemCall(c, l, kept[i..i + f]);
      Fragment(c, l, kept[i..]).1 == Fragment(c, r.1, kept[i + f..]).1
      && tx + Fragment(c, l, kept[i..]).0 == tx + r.0 + Fragment(c, r.1, kept[i + f..]).0
  {
    var f := if |kept| - i > c.frag then c.frag else |kept| - i;
    assert kept[i..][..f] == kept[i..i + f] && kept[i..][f..] == kept[i + f..];
  }

  lemma FragmentsEnd(c: Setup, l: Line)
    requires c.frag >= 1
    ensures Fragment(c, l, []) == ([], l)
  {}

  ghost function Emit(c: Setup, l: Line, samples: seq<int>): Line {
    if c.stdoutOk(l.writes) then l.(writes := l.writes + 1, emitted := l.emitted + samples)
    else l.(writes := l.writes + 1, running := false)
  }

  ghost function Pad(c: Setup, l: Line): Line
    requires ValidLine(c, l)
    decreases l.update
  {
    if l.update <= 0 then l else
      var add := if l.update > c.SampC() then c.SampC() else l.update;
      ToNetKeeps(c, l, Zeros(add));
      var (out, m) := ToNet(c, l, Zeros(add));
      if out == [] then m.(running := false) else
      var n := Emit(c, m, out);
      if !c.stdoutOk(m.writes) then n else
      Pad(c, n.(update := n.update - add, ioDelay := n.ioDelay + add))
  }

  /** One block of 80 network samples. */
  ghost function Frame(c: Setup, l: Line, block: seq<int>): Line
    requires ValidLine(c, l) && |block| == NET_SAMPC
  {
    ToModemKeeps(c, l, block);
    var (rx, m) := ToModem(c, l.(frames := l.frames + 1), block);
    if rx == [] then m else
    if |rx| != c.SampC() then m.(running := false) else
    var drop := Dropped(m.update, |rx|);
    var n := m.(update := m.update + drop, ioDelay := m.ioDelay - drop);
    if drop == |rx| then n else Play(c, n, rx[drop..])
  }

  ghost function Play(c: Setup, l: Line, kept: seq<int>): Line
    requires ValidLine(c, l) && |kept| <= c.SampC()
  {
    var (tx, m) := Fragment(c, l, kept);
    FragmentKeeps(c, l, kept);
    ToNetKeeps(c, m, tx);
    var (out, n) := ToNet(c, m, tx);
    if out == [] then n else
    var o := Emit(c, n, out);
    if !c.stdoutOk(n.writes) then o else Pad(c, o)
  }

  // ------------------------------------------------------ what they preserve

  lemma ToModemKeeps(c: Setup, l: Line, block: seq<int>)
    requires ValidLine(c, l) && |block| == NET_SAMPC
    ensures var (rx, m) := ToModem(c, l, block);
      ValidLine(c, m) && |rx| == c.SampC() && m == l.(toModem := m.toModem, heard := l.heard + rx)
  {
    if c.rate != NET_RATE {
      NetBlockExact(c.up, l.toModem, block);
      LosslessIff(c.up, l.toModem, 80, 96);
      LosslessIsWhole(c.up, l.toModem, block, 96);
      WholeSettles(c.up, l.toModem, block);
    }
  }

  lemma ToNetKeeps(c: Setup, l: Line, samples: seq<int>)
    requires ValidLine(c, l) && |samples| <= c.SampC()
    ensures var (out, m) := ToNet(c, l, samples);
      ValidLine(c, m) && m == l.(toNet := m.toNet, given := m.given, lost := m.lost)
      && m.given == (if samples == [] then l.given else l.given + [samples])
      && (c.rate == NET_RATE ==> out == samples && m.lost == l.lost)
  {
    if samples != [] && c.rate != NET_RATE {
      if |samples| == 96 {
        ModemBlockExact(c.down, l.toNet, samples);
      } else {
        LosslessIsWhole(c.down, l.toNet, samples, NET_SAMPC);
        WholeSettles(c.down, l.toNet, samples);
      }
    }
  }

  lemma {:induction false} FragmentKeeps(c: Setup, l: Line, rest: seq<int>)
    requires c.frag >= 1
    ensures var (tx, m) := Fragment(c, l, rest);
      && |tx| == |rest|
      && m == l.(calls := m.calls, fragments := m.fragments, update := m.update, shift := m.shift)
      && m.update - m.shift == l.update - l.shift
    decreases |rest|
  {
    hide ModemCall;
    if rest != [] {
      var f := if |rest| > c.frag then c.frag else |rest|;
      FragmentKeeps(c, ModemCall(c, l, rest[..f]).1, rest[f..]);
    }
  }
}
