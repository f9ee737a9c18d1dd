/** What the bridge loses and sends: which of the samples given to the converter to the
    network it keeps, and what reaches stdout, over whole sessions. */
module BridgePhase {
  import opened Framing
  import opened FixedPoint
  import opened Polyphase
  import opened PolyphaseLaws
  import opened PolyphaseMeaning
  import opened Ratios
  import opened BridgeModel
  import opened BridgeLaws

  /** Of a piece given after n samples kept: a full block of 96 loses its last sample
      exactly when n is 5 modulo 6. */
  function RetainedOf(n: nat, piece: seq<int>): seq<int> {
    if |piece| == 96 && n % 6 == 5 then piece[..95] else piece
  }

  function Retained(given: seq<seq<int>>): seq<int> {
    if given == [] then [] else
      var n := |given| - 1;
      Retained(given[..n]) + RetainedOf(|Retained(given[..n])|, given[n])
  }

  lemma OneMoreGiven(given: seq<seq<int>>, piece: seq<int>)
    ensures Retained(given + [piece]) == Retained(given) + RetainedOf(|Retained(given)|, piece)
    ensures Flatten(given + [piece]) == Flatten(given) + piece
  {
    assert (given + [piece])[..|given|] == given;
    FlattenOne(given, piece);
  }

  /** One conversion of all these samples by a new converter to the network. */
  ghost function ToNetAtOnce(c: Setup, samples: seq<int>): (seq<int>, State)
    requires c.Valid()
  {
    FreshSettled(c.down, 1);
    Whole(c.down, Fresh(c.down), samples)
  }

  /** The signal the samples given make. */
  ghost function Signal(c: Setup, given: seq<seq<int>>): seq<int>
    requires c.Valid()
  {
    if c.rate == NET_RATE then Retained(given) else ToNetAtOnce(c, Retained(given)).0
  }

  /** Every write but the last has been accepted, and the last as well while running; when
      it was refused, its samples have not been sent. */
  ghost predicate RefusalStops(c: Setup, l: Line)
    requires c.Valid()
  {
    forall k :: 0 <= k < l.writes && !c.stdoutOk(k) ==>
      k == l.writes - 1 && !l.running && |l.emitted| < |Signal(c, l.given)|
  }

  /** The samples lost are those not kept; the converter is where the kept ones bring it;
      what has been sent begins their signal, and is all of it unless a write was refused. */
  ghost predicate InPhase(c: Setup, l: Line)
    requires c.Valid()
  {
    && l.lost == |Flatten(l.given)| - |Retained(l.given)|
    && (c.rate == NET_RATE ==> Retained(l.given) == Flatten(l.given))
    && (c.rate != NET_RATE ==> l.toNet == ToNetAtOnce(c, Retained(l.given)).1)
    && l.emitted <= Signal(c, l.given)
    && (l.running || AllWritesPass(c) ==> l.emitted == Signal(c, l.given))
    && RefusalStops(c, l)
  }

  /** A position of the settled range of this converter is known by its residue. */
  lemma Residues(position: int)
    requires 5 <= position < 11
    ensures position % 6 == 5 <==> position == 5
  {}

  /** Reading a sample lowers the position by 5 and an output raises it by 6. */
  lemma PositionMoves(c: Setup, l: Line, samples: seq<int>)
    requires ValidLine(c, l) && samples != [] && |samples| <= c.SampC() && c.rate != NET_RATE
    ensures var consumed, (out, t) := Consumed(c.down, l.toNet.position, |samples|, NET_SAMPC),
                                      Call(c.down, l.toNet, samples, NET_SAMPC);
      && t.position == l.toNet.position - 5 * consumed + 6 * |out|
      && t.position % 6 == (l.toNet.position + consumed) % 6
      && consumed == |samples| - (if |samples| == 96 && l.toNet.position == 5 then 1 else 0)
  {
    hide OutputAt, OutputCount, Need;
    if |samples| == 96 {
      ModemBlockExact(c.down, l.toNet, samples);
    } else {
      ShortBlockIsRead(c.down, l.toNet, |samples|);
    }
    var consumed := Consumed(c.down, l.toNet.position, |samples|, NET_SAMPC);
    var made := Produced(c.down, l.toNet.position, |samples|, NET_SAMPC);
    assert Call(c.down, l.toNet, samples, NET_SAMPC).1.position == l.toNet.position + consumed + 6 * (made - consumed);
  }

  lemma ShortBlockIsRead(b: Bank, s: State, n: nat)
    requires Settled(b, s) && b.up == 5 && b.down == 6 && n < 96
    ensures Consumed(b, s.position, n, 80) == n
  {
    LosslessIff(b, s, n, 80);
  }

  /** Where n samples bring a new converter to the network, and how many it gives. */
  lemma PositionOf(c: Setup, samples: seq<int>)
    requires c.Valid()
    ensures var (out, t) := ToNetAtOnce(c, samples);
      && Settled(c.down, t) && t.position == 6 - 5 * |samples| + 6 * |out| && t.position % 6 == |samples| % 6
      && |out| == (5 * |samples| + 4) / 6
  {
    hide OutputAt, Need;
    FreshSettled(c.down, 1);
    CallKeepsValid(c.down, Fresh(c.down), samples, OutputCount(c.down, 6, |samples|) + 1);
    var m := OutputCount(c.down, 6, |samples|);
    assert ToNetAtOnce(c, samples).1.position == 6 - 5 * |samples| + 6 * m;
    assert 6 - 5 * |samples| + 6 * m == |samples| + 6 * (1 - |samples| + m);
  }

  /** The conversion of a piece is that of the samples kept, with room for all. */
  lemma ConvertsKept(c: Setup, l: Line, samples: seq<int>)
    requires ValidLine(c, l) && samples != [] && |samples| <= c.SampC() && c.rate != NET_RATE
    ensures var kept := samples[..|samples| - if |samples| == 96 && l.toNet.position == 5 then 1 else 0];
      && Call(c.down, l.toNet, samples, NET_SAMPC) == Whole(c.down, l.toNet, kept)
      && Consumed(c.down, l.toNet.position, |samples|, NET_SAMPC) == |kept|
  {
    hide Call, OutputCount, Need, Whole;
    PositionMoves(c, l, samples);
    CallReadsIff(c.down, l.toNet, samples, NET_SAMPC);
    var n := Consumed(c.down, l.toNet.position, |samples|, NET_SAMPC);
    LosslessIff(c.down, l.toNet, |samples|, NET_SAMPC);
    if n < |samples| {
      FullWhenShort(c.down, l.toNet, |samples|, NET_SAMPC);
    }
    LosslessIsWhole(c.down, l.toNet, samples[..n], NET_SAMPC);
  }

  /** A line whose converted samples have been sent. */
  function Sent(l: Line, samples: seq<int>): Line {
    l.(emitted := l.emitted + samples)
  }

  lemma ToNetKeepsPhase(c: Setup, l: Line, samples: seq<int>)
    requires ValidLine(c, l) && InPhase(c, l) && l.running && |samples| <= c.SampC()
    ensures var (out, m) := ToNet(c, l, samples); InPhase(c, Sent(m, out))
  {
    hide Call, Consumed, Retained, Whole, AllWritesPass;
    if samples == [] {
      assert l.emitted + [] == l.emitted;
    } else {
      OneMoreGiven(l.given, samples);
      if c.rate != NET_RATE {
        PositionOf(c, Retained(l.given));
        Residues(l.toNet.position);
        ConvertsKept(c, l, samples);
        FreshSettled(c.down, 1);
        WholeSplits(c.down, Fresh(c.down), Retained(l.given), RetainedOf(|Retained(l.given)|, samples));
        KeepsAll(samples);
      }
    }
  }

  lemma KeepsAll(samples: seq<int>)
    ensures samples[..|samples|] == samples
  {}

  lemma SamePhase(c: Setup, l: Line, m: Line)
    requires c.Valid() && InPhase(c, l) && m.toNet == l.toNet && m.given == l.given && m.lost == l.lost
    requires m.emitted == l.emitted && m.writes == l.writes && (m.running ==> l.running)
    ensures InPhase(c, m)
  {}

  /** Sending the samples, or being refused, or having none to send. */
  lemma EmitKeepsPhase(c: Setup, m: Line, out: seq<int>)
    requires c.Valid() && InPhase(c, Sent(m, out)) && m.running
    ensures if out == [] then InPhase(c, m) else InPhase(c, Emit(c, m, out))
  {
    hide Signal, Retained, ToNetAtOnce;
    if out == [] {
      assert m.emitted + [] == m.emitted;
    }
  }

  lemma {:induction false} PadKeepsPhase(c: Setup, l: Line)
    requires ValidLine(c, l) && InPhase(c, l) && l.running
    ensures InPhase(c, Pad(c, l))
    decreases l.update
  {
    hide ToNet, Settled, InPhase;
    if l.update > 0 {
      var add := if l.update > c.SampC() then c.SampC() else l.update;
      ToNetKeeps(c, l, Zeros(add));
      ToNetKeepsPhase(c, l, Zeros(add));
      var (out, m) := ToNet(c, l, Zeros(add));
      EmitKeepsPhase(c, m, out);
      if out == [] {
        SamePhase(c, m, m.(running := false));
      } else if c.stdoutOk(m.writes) {
        var n := Emit(c, m, out);
        var next := n.(update := n.update - add, ioDelay := n.ioDelay + add);
        SamePhase(c, n, next);
        PadKeepsPhase(c, next);
      }
    }
  }

  lemma PlayKeepsPhase(c: Setup, l: Line, kept: seq<int>)
    requires ValidLine(c, l) && InPhase(c, l) && l.running && |kept| <= c.SampC()
    ensures InPhase(c, Play(c, l, kept))
  {
    hide ToNet, Fragment, Pad, Settled, InPhase;
    FragmentKeeps(c, l, kept);
    var (tx, m) := Fragment(c, l, kept);
    SamePhase(c, l, m);
    ToNetKeeps(c, m, tx);
    ToNetKeepsPhase(c, m, tx);
    var (out, n) := ToNet(c, m, tx);
    EmitKeepsPhase(c, n, out);
    if out != [] && c.stdoutOk(n.writes) {
      PadKeepsPhase(c, Emit(c, n, out));
    }
  }

  lemma FrameKeepsPhase(c: Setup, l: Line, block: seq<int>)
    requires ValidLine(c, l) && InPhase(c, l) && l.running && |block| == NET_SAMPC
    ensures InPhase(c, Frame(c, l, block))
  {
    hide ToModem, Play, Settled, InPhase;
    var first := l.(frames := l.frames + 1);
    ToModemKeeps(c, first, block);
    var (rx, m) := ToModem(c, first, block);
    SamePhase(c, l, m);
    var drop := Dropped(m.update, |rx|);
    var n := m.(update := m.update + drop, ioDelay := m.ioDelay - drop);
    SamePhase(c, m, n);
    if drop < |rx| {
      PlayKeepsPhase(c, n, rx[drop..]);
    }
  }

  lemma {:induction false} BlocksKeepPhase(c: Setup, l: Line, blocks: seq<seq<int>>)
    requires ValidLine(c, l) && InPhase(c, l) && forall i :: 0 <= i < |blocks| ==> |blocks[i]| == NET_SAMPC
    ensures InPhase(c, Blocks80(c, l, blocks))
    decreases |blocks|
  {
    hide Frame, InPhase;
    if blocks != [] && l.running {
      FrameConserves(c, l, blocks[0]);
      FrameKeepsPhase(c, l, blocks[0]);
      BlocksKeepPhase(c, Frame(c, l, blocks[0]), blocks[1..]);
    }
  }

  lemma NewLineInPhase(c: Setup, ioDelay: int, update: int)
    requires c.Valid()
    ensures ValidLine(c, NewLine(c, ioDelay, update)) && InPhase(c, NewLine(c, ioDelay, update))
  {
    hide Whole;
    FreshSettled(c.up, 0);
    FreshSettled(c.down, 1);
    WholeOfNothing(c.down, Fresh(c.down));
  }

  lemma SessionInPhase(c: Setup, ioDelay: int, update: int, chunks: seq<seq<int>>)
    requires c.Valid()
    ensures ValidLine(c, NewLine(c, ioDelay, update))
    ensures var r := Session(c, NewLine(c, ioDelay, update), [], chunks); ValidLine(c, r) && InPhase(c, r)
  {
    hide Blocks, Session, Blocks80, Settled, InPhase;
    var l := NewLine(c, ioDelay, update);
    NewLineInPhase(c, ioDelay, update);
    assert [] + Flatten(chunks) == Flatten(chunks);
    ReadsDoNotMatter(c, l, [], chunks);
    BlocksHave80(Flatten(chunks));
    RunConserves(c, l, Blocks(NET_SAMPC, Flatten(chunks)));
    BlocksKeepPhase(c, l, Blocks(NET_SAMPC, Flatten(chunks)));
  }

  /** Over every session of a new bridge, whatever the modem, the reads and the writes
      do: the samples lost are exactly the last ones of the full blocks converted when the
      number of samples kept so far was 5 modulo 6; at the native rate there are none, and
      the samples given are those sent, but for a refused write; and such a write is the
      last one, sends nothing and stops the bridge. */
  lemma SessionLosses(c: Setup, ioDelay: int, update: int, chunks: seq<seq<int>>)
    requires c.Valid()
    ensures ValidLine(c, NewLine(c, ioDelay, update))
    ensures var r := Session(c, NewLine(c, ioDelay, update), [], chunks);
      && r.lost == |Flatten(r.given)| - |Retained(r.given)|
      && (c.rate == NET_RATE ==>
        && Retained(r.given) == Flatten(r.given) && r.emitted <= Flatten(r.given)
        && (r.running || AllWritesPass(c) ==> r.emitted == Flatten(r.given)))
      && (c.rate != NET_RATE ==> r.toNet.position % 6 == |Retained(r.given)| % 6)
      && RefusalStops(c, r)
  {
    hide Session;
    SessionInPhase(c, ioDelay, update, chunks);
    PositionOf(c, Retained(Session(c, NewLine(c, ioDelay, update), [], chunks).given));
  }

  /** At 9.6 kHz: every sample sent is the resampling of those kept of the samples given,
      and, unless a write was refused, 5 are sent for every 6 kept, rounded up but for one
      sample. */
  lemma SessionSends(c: Setup, ioDelay: int, update: int, chunks: seq<seq<int>>)
    requires c.Valid() && c.rate == MODEM_RATE_MAX
    ensures ValidLine(c, NewLine(c, ioDelay, update))
    ensures var r := Session(c, NewLine(c, ioDelay, update), [], chunks);
      && (forall n :: 0 <= n < |r.emitted| ==> r.emitted[n] == Resampled(c.down, Retained(r.given), n))
      && |r.emitted| <= (5 * |Retained(r.given)| + 4) / 6
      && (r.running || AllWritesPass(c) ==> |r.emitted| == (5 * |Retained(r.given)| + 4) / 6)
  {
    hide Session, Resampled, Whole;
    SessionInPhase(c, ioDelay, update, chunks);
    var r := Session(c, NewLine(c, ioDelay, update), [], chunks);
    PositionOf(c, Retained(r.given));
    WholeIsResampled(c.down, Retained(r.given));
    assert forall n :: 0 <= n < |r.emitted| ==> r.emitted[n] == Signal(c, r.given)[n];
  }

  // ------------------------------------------------ losses and stops that happen

  /** A bridge at 9.6 kHz in fragments of 48, stdout healthy, whose modem leaves
      update_delay as a script has it. */
  function Scripted(script: nat -> int, up: Bank, down: Bank): Setup {
    Setup(MODEM_RATE_MAX, 48, (k: nat, piece: seq<int>, update: int) => Reply(i => 0, script(k)), k => true, up, down)
  }

  lemma {:induction false} TwoFragments(c: Setup, l: Line, rest: seq<int>)
    requires c.frag == 48 && 48 < |rest| <= 96
    ensures var m := ModemCall(c, l, rest[..48]).1;
      Fragment(c, l, rest).1 == ModemCall(c, m, rest[48..]).1
  {
    hide ModemCall;
    var m := ModemCall(c, l, rest[..48]).1;
    var last := rest[48..];
    assert last[..|last|] == last && last[|last|..] == [];
    FragmentsEnd(c, ModemCall(c, m, last).1);
  }

  /** One block of such a bridge, up to its padding: the modem plays what was kept, the
      second of its two calls sets update_delay, and all of it goes to the network. */
  lemma ScriptedBlock(script: nat -> int, up: Bank, down: Bank, l: Line, block: seq<int>)
    returns (tx: seq<int>, o: Line)
    requires ValidLine(Scripted(script, up, down), l) && |block| == NET_SAMPC && -48 < l.update <= 0
    ensures var c := Scripted(script, up, down);
      && |tx| == 96 + l.update && ValidLine(c, o)
      && o == l.(frames := o.frames, ioDelay := o.ioDelay, toModem := o.toModem, shift := o.shift,
                 heard := o.heard, fragments := o.fragments, calls := l.calls + 2, update := script(l.calls + 1))
      && ToNet(c, o, tx).0 != [] && ValidLine(c, ToNet(c, o, tx).1)
      && Frame(c, l, block) == Pad(c, Emit(c, ToNet(c, o, tx).1, ToNet(c, o, tx).0))
  {
    hide ToModem, Fragment, ModemCall, Call, Settled, Consumed, Pad;
    var c := Scripted(script, up, down);
    var first := l.(frames := l.frames + 1);
    ToModemKeeps(c, first, block);
    var (rx, m) := ToModem(c, first, block);
    var drop := Dropped(m.update, |rx|);
    var kept, n := rx[drop..], m.(update := m.update + drop, ioDelay := m.ioDelay - drop);
    FragmentKeeps(c, n, kept);
    TwoFragments(c, n, kept);
    ScriptedCalls(script, up, down, n, kept);
    tx, o := Fragment(c, n, kept).0, Fragment(c, n, kept).1;
    ToNetKeeps(c, o, tx);
    ModemGivesNothingIff(c.down, o.toNet, tx);
  }

  lemma ScriptedCalls(script: nat -> int, up: Bank, down: Bank, l: Line, rest: seq<int>)
    requires 48 < |rest| <= 96
    ensures var c := Scripted(script, up, down);
      var r := ModemCall(c, ModemCall(c, l, rest[..48]).1, rest[48..]).1;
      r.update == script(l.calls + 1) && r.calls == l.calls + 2
  {}

  /** Such a block when nothing is to be padded after it. */
  lemma UnpaddedBlock(script: nat -> int, up: Bank, down: Bank, l: Line, block: seq<int>) returns (tx: seq<int>)
    requires ValidLine(Scripted(script, up, down), l) && |block| == NET_SAMPC && -48 < l.update <= 0
    requires l.running && script(l.calls + 1) <= 0
    ensures var r := Frame(Scripted(script, up, down), l, block);
      r.running && r.update == script(l.calls + 1) && r.calls == l.calls + 2 && r.given == l.given + [tx]
    ensures |tx| == 96 + l.update
  {
    hide Frame, Call, Consumed;
    var o;
    tx, o := ScriptedBlock(script, up, down, l, block);
  }

  lemma ThreeBlocks(stream: seq<int>)
    requires |stream| == 240
    ensures Blocks(NET_SAMPC, stream) == [stream[..80], stream[80..160], stream[160..]]
  {
    var rest := stream[80..];
    assert rest[..80] == stream[80..160] && rest[80..] == stream[160..];
    assert Blocks(NET_SAMPC, rest[80..][80..]) == [] && rest[80..][..80] == rest[80..];
    assert Blocks(NET_SAMPC, rest[80..]) == [rest[80..]];
    assert Blocks(NET_SAMPC, rest) == [stream[80..160]] + [stream[160..]];
  }

  lemma TwoBlocks(stream: seq<int>)
    requires |stream| == 160
    ensures Blocks(NET_SAMPC, stream) == [stream[..80], stream[80..]]
  {
    var rest := stream[80..];
    assert rest[..80] == rest && Blocks(NET_SAMPC, rest[80..]) == [];
    assert Blocks(NET_SAMPC, rest) == [rest];
  }

  lemma {:induction false} BlocksFirst(c: Setup, l: Line, blocks: seq<seq<int>>)
    requires ValidLine(c, l) && l.running && blocks != []
    requires forall i :: 0 <= i < |blocks| ==> |blocks[i]| == NET_SAMPC
    ensures ValidLine(c, Frame(c, l, blocks[0]))
    ensures Blocks80(c, l, blocks) == Blocks80(c, Frame(c, l, blocks[0]), blocks[1..])
  {
    hide Frame;
    FrameConserves(c, l, blocks[0]);
  }

  lemma NoBlocks(c: Setup, l: Line)
    requires ValidLine(c, l)
    ensures Blocks80(c, l, []) == l
  {}

  /** A new bridge whose modem once, in its first block, takes one sample off the delay:
      the second block is a sample short, and the third loses its last. */
  lemma OneDropThenLoss(up: Bank, down: Bank, ioDelay: int, chunks: seq<seq<int>>)
    requires up.Valid() && up == BankOf(NET_TO_MODEM, up.coeffs)
    requires down.Valid() && down == BankOf(MODEM_TO_NET, down.coeffs)
    requires |Flatten(chunks)| == 240
    ensures var c := Scripted(k => if k == 1 then -1 else 0, up, down);
      && ValidLine(c, NewLine(c, ioDelay, 0))
      && var r := Session(c, NewLine(c, ioDelay, 0), [], chunks);
      && r.running && |r.given| == 3 && |r.given[0]| == |r.given[2]| == 96 && |r.given[1]| == 95
      && r.lost == 1 && Retained(r.given) == r.given[0] + r.given[1] + r.given[2][..95]
  {
    hide Session, Blocks, Blocks80, Frame, BankOf, InPhase, Retained, Settled;
    var script := k => if k == 1 then -1 else 0;
    var c := Scripted(script, up, down);
    SetupFollowsTables(c);
    NewLineInPhase(c, ioDelay, 0);
    var l := NewLine(c, ioDelay, 0);
    var s := Flatten(chunks);
    ReadsDoNotMatter(c, l, [], chunks);
    assert [] + s == s;
    ThreeBlocks(s);
    var bs := [s[..80], s[80..160], s[160..]];
    BlocksFirst(c, l, bs);
    var tx0 := UnpaddedBlock(script, up, down, l, bs[0]);
    var l1 := Frame(c, l, bs[0]);
    BlocksFirst(c, l1, bs[1..]);
    var tx1 := UnpaddedBlock(script, up, down, l1, bs[1]);
    var l2 := Frame(c, l1, bs[1]);
    assert bs[1..][1..] == bs[2..] && bs[2..][1..] == [];
    BlocksFirst(c, l2, bs[2..]);
    var tx2 := UnpaddedBlock(script, up, down, l2, bs[2]);
    NoBlocks(c, Frame(c, l2, bs[2]));
    assert Session(c, l, [], chunks) == Frame(c, l2, bs[2]);
    SessionLosses(c, ioDelay, 0, chunks);
    assert [] + [tx0] + [tx1] + [tx2] == [tx0, tx1, tx2];
    RetainedOfThree(tx0, tx1, tx2);
  }

  lemma RetainedOfTwo(x: seq<int>, y: seq<int>)
    requires |x| == 96 && |y| < 96
    ensures Retained([x, y]) == x + y && Flatten([x, y]) == x + y
  {
    assert Retained([]) == [] && Flatten<int>([]) == [];
    assert [] + [x] == [x] && [x] + [y] == [x, y] && [] + x == x;
    OneMoreGiven([], x);
    OneMoreGiven([x], y);
  }

  /** A block, one a sample short, and the block that then loses its last sample. */
  lemma RetainedOfThree(x: seq<int>, y: seq<int>, z: seq<int>)
    requires |x| == |z| == 96 && |y| == 95
    ensures Retained([x, y, z]) == x + y + z[..95] && Flatten([x, y, z]) == x + y + z
  {
    RetainedOfTwo(x, y);
    assert [x, y] + [z] == [x, y, z];
    hide Retained;
    OneMoreGiven([x, y], z);
  }

  /** A new bridge whose modem takes two samples off the delay in its first block and
      puts one back in its second: padding then stops it. */
  lemma PaddingCanStop(up: Bank, down: Bank, ioDelay: int, chunks: seq<seq<int>>)
    requires up.Valid() && up == BankOf(NET_TO_MODEM, up.coeffs)
    requires down.Valid() && down == BankOf(MODEM_TO_NET, down.coeffs)
    requires |Flatten(chunks)| == 160
    ensures var c := Scripted(k => if k == 1 then -2 else if k == 3 then 1 else 0, up, down);
      ValidLine(c, NewLine(c, ioDelay, 0)) && !Session(c, NewLine(c, ioDelay, 0), [], chunks).running
  {
    hide Session, Blocks, Blocks80, Frame, BankOf, InPhase, Settled;
    var script := k => if k == 1 then -2 else if k == 3 then 1 else 0;
    var c := Scripted(script, up, down);
    SetupFollowsTables(c);
    NewLineInPhase(c, ioDelay, 0);
    var l := NewLine(c, ioDelay, 0);
    var s := Flatten(chunks);
    ReadsDoNotMatter(c, l, [], chunks);
    assert [] + s == s;
    TwoBlocks(s);
    var bs := [s[..80], s[80..]];
    BlocksFirst(c, l, bs);
    var tx0 := UnpaddedBlock(script, up, down, l, bs[0]);
    FrameKeepsPhase(c, l, bs[0]);
    var l1 := Frame(c, l, bs[0]);
    BlocksFirst(c, l1, bs[1..]);
    assert bs[1..][1..] == [];
    PaddedBlockStops(script, up, down, l1, bs[1]);
    NoBlocks(c, Frame(c, l1, bs[1]));
  }

  lemma PaddedBlockStops(script: nat -> int, up: Bank, down: Bank, l: Line, block: seq<int>)
    requires ValidLine(Scripted(script, up, down), l) && InPhase(Scripted(script, up, down), l) && |block| == NET_SAMPC
    requires l.running && l.update == -2 && script(l.calls + 1) == 1 && |l.given| == 1 && |l.given[0]| == 96
    ensures !Frame(Scripted(script, up, down), l, block).running
  {
    hide Frame, Call, Consumed, Retained, Pad;
    var c := Scripted(script, up, down);
    var tx, o := ScriptedBlock(script, up, down, l, block);
    SamePhase(c, l, o);
    ToNetKeepsPhase(c, o, tx);
    var (out, n) := ToNet(c, o, tx);
    assert l.given + [tx] == [l.given[0], tx];
    RetainedOfTwo(l.given[0], tx);
    PositionOf(c, Retained([l.given[0], tx]));
    ResidueFour(n.toNet.position);
    PaddingStopsIff(c, Emit(c, n, out));
  }

  lemma ResidueFour(position: int)
    requires 5 <= position < 11
    ensures position % 6 == 4 <==> position == 10
  {}
}
