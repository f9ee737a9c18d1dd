/** Conservation laws of the slmodem bridge over whole runs. */
module BridgeLaws {
  import opened FixedPoint
  import opened Framing
  import opened Polyphase
  import opened Ratios
  import opened BridgeModel

  /** The two delays together, but for what the modem itself has added to one. */
  function Balance(l: Line): int {
    l.ioDelay + l.update - l.shift
  }

  /** Samples sent, less 80 for every block taken, less the delay reported. */
  function Excess(l: Line): int {
    |l.emitted| - NET_SAMPC * l.frames - l.ioDelay
  }

  ghost predicate AllWritesPass(c: Setup) {
    forall k: nat :: c.stdoutOk(k)
  }

  /** One block, or one round of padding, against the line before it. */
  ghost predicate Conserves(c: Setup, l: Line, r: Line) {
    && ValidLine(c, r) && Balance(r) == Balance(l)
    && (c.rate == NET_RATE && AllWritesPass(c) ==> r.running == l.running && Excess(r) == Excess(l))
  }

  lemma {:induction false} PadConserves(c: Setup, l: Line)
    requires ValidLine(c, l)
    ensures Conserves(c, l, Pad(c, l))
    ensures c.rate == NET_RATE && AllWritesPass(c) ==> Pad(c, l).update <= 0
    ensures Pad(c, l).frames == l.frames
    decreases l.update
  {
    hide ToNet, Call, Settled;
    if l.update > 0 {
      var add := if l.update > c.SampC() then c.SampC() else l.update;
      ToNetKeeps(c, l, Zeros(add));
      var (out, m) := ToNet(c, l, Zeros(add));
      if out != [] && c.stdoutOk(m.writes) {
        var n := Emit(c, m, out);
        PadConserves(c, n.(update := n.update - add, ioDelay := n.ioDelay + add));
      }
    }
  }

  lemma PlayConserves(c: Setup, l: Line, kept: seq<int>)
    requires ValidLine(c, l) && 0 < |kept| <= c.SampC()
    ensures ValidLine(c, Play(c, l, kept)) && Balance(Play(c, l, kept)) == Balance(l)
    ensures Play(c, l, kept).frames == l.frames
    ensures c.rate == NET_RATE && AllWritesPass(c) ==>
      Play(c, l, kept).running == l.running && Excess(Play(c, l, kept)) == Excess(l) + |kept|
  {
    hide Fragment, Pad, ToNet;
    FragmentKeeps(c, l, kept);
    var (tx, m) := Fragment(c, l, kept);
    ToNetKeeps(c, m, tx);
    var (out, n) := ToNet(c, m, tx);
    if out != [] && c.stdoutOk(n.writes) {
      PadConserves(c, Emit(c, n, out));
    }
  }

  /** Whatever the modem does, a block changes the sum of the two delays by exactly
      what the modem added; at the native rate with a healthy stdout it also keeps
      samples sent in step with blocks taken and delay reported. */
  lemma FrameConserves(c: Setup, l: Line, block: seq<int>)
    requires ValidLine(c, l) && |block| == NET_SAMPC
    ensures Conserves(c, l, Frame(c, l, block)) && Frame(c, l, block).frames == l.frames + 1
  {
    hide Play, ToModem;
    var first := l.(frames := l.frames + 1);
    ToModemKeeps(c, first, block);
    var (rx, m) := ToModem(c, first, block);
    var drop := Dropped(m.update, |rx|);
    var n := m.(update := m.update + drop, ioDelay := m.ioDelay - drop);
    if drop < |rx| {
      PlayConserves(c, n, rx[drop..]);
    }
  }

  /** The blocks of a run, taken until something stops the bridge. */
  ghost function Blocks80(c: Setup, l: Line, blocks: seq<seq<int>>): Line
    requires ValidLine(c, l) && forall i :: 0 <= i < |blocks| ==> |blocks[i]| == NET_SAMPC
    decreases |blocks|
  {
    if blocks == [] || !l.running then l else
      FrameConserves(c, l, blocks[0]);
      Blocks80(c, Frame(c, l, blocks[0]), blocks[1..])
  }

  lemma {:induction false} RunConserves(c: Setup, l: Line, blocks: seq<seq<int>>)
    requires ValidLine(c, l) && forall i :: 0 <= i < |blocks| ==> |blocks[i]| == NET_SAMPC
    ensures Conserves(c, l, Blocks80(c, l, blocks))
    ensures c.rate == NET_RATE && AllWritesPass(c) && l.running ==> Blocks80(c, l, blocks).frames == l.frames + |blocks|
    decreases |blocks|
  {
    hide Frame;
    if blocks != [] && l.running {
      FrameConserves(c, l, blocks[0]);
      RunConserves(c, Frame(c, l, blocks[0]), blocks[1..]);
    }
  }

  // ---------------------------------------------------------- whole sessions

  ghost predicate BlocksAre80(stream: seq<int>) {
    forall i :: 0 <= i < |Blocks(NET_SAMPC, stream)| ==> |Blocks(NET_SAMPC, stream)[i]| == NET_SAMPC
  }

  lemma BlocksHave80(stream: seq<int>)
    ensures BlocksAre80(stream)
  {
    BlocksRebuild(NET_SAMPC, stream);
  }

  /** The main loop over the reads of a session: each read completes blocks of what
      was held and what it brought, until something stops the bridge. */
  ghost function Session(c: Setup, l: Line, held: seq<int>, chunks: seq<seq<int>>): Line
    requires ValidLine(c, l)
    decreases |chunks|
  {
    if chunks == [] || !l.running then l else
      var stream := held + chunks[0];
      BlocksHave80(stream);
      RunConserves(c, l, Blocks(NET_SAMPC, stream));
      Session(c, Blocks80(c, l, Blocks(NET_SAMPC, stream)), Rest(NET_SAMPC, stream), chunks[1..])
  }

  lemma {:induction false} Blocks80Append(c: Setup, l: Line, a: seq<seq<int>>, b: seq<seq<int>>)
    requires ValidLine(c, l)
    requires forall i :: 0 <= i < |a| ==> |a[i]| == NET_SAMPC
    requires forall i :: 0 <= i < |b| ==> |b[i]| == NET_SAMPC
    ensures ValidLine(c, Blocks80(c, l, a)) && Blocks80(c, l, a + b) == Blocks80(c, Blocks80(c, l, a), b)
    decreases |a|
  {
    hide Frame;
    RunConserves(c, l, a);
    if a == [] {
      assert a + b == b;
    } else if l.running {
      FrameConserves(c, l, a[0]);
      assert (a + b)[1..] == a[1..] + b;
      Blocks80Append(c, Frame(c, l, a[0]), a[1..], b);
    }
  }

  /** A session depends on the samples read, not on how the reads cut them. */
  lemma {:induction false} ReadsDoNotMatter(c: Setup, l: Line, held: seq<int>, chunks: seq<seq<int>>)
    requires ValidLine(c, l) && |held| < NET_SAMPC
    ensures BlocksAre80(held + Flatten(chunks))
    ensures Session(c, l, held, chunks) == Blocks80(c, l, Blocks(NET_SAMPC, held + Flatten(chunks)))
    decreases |chunks|
  {
    hide Frame, Blocks;
    BlocksHave80(held + Flatten(chunks));
    if chunks == [] || !l.running {
      assert chunks == [] ==> held + Flatten(chunks) == held && Blocks(NET_SAMPC, held) == [] by {
        ShortHasNoBlock(held);
      }
    } else {
      var stream, more := held + chunks[0], Flatten(chunks[1..]);
      BlocksHave80(stream);
      BlocksHave80(Rest(NET_SAMPC, stream) + more);
      RunConserves(c, l, Blocks(NET_SAMPC, stream));
      BlocksRebuild(NET_SAMPC, stream);
      ReadsDoNotMatter(c, Blocks80(c, l, Blocks(NET_SAMPC, stream)), Rest(NET_SAMPC, stream), chunks[1..]);
      assert held + Flatten(chunks) == stream + more;
      BlocksAppend(NET_SAMPC, stream, more);
      Blocks80Append(c, l, Blocks(NET_SAMPC, stream), Blocks(NET_SAMPC, Rest(NET_SAMPC, stream) + more));
    }
  }

  lemma ShortHasNoBlock(held: seq<int>)
    requires |held| < NET_SAMPC
    ensures Blocks(NET_SAMPC, held) == []
  {}

  /** Delay conservation over a whole session, whatever the modem, the reads and the
      writes do; and at the native rate, with every write accepted, the samples sent
      are 80 a block but for the change in the delay reported. */
  lemma SessionConserves(c: Setup, l: Line, chunks: seq<seq<int>>)
    requires ValidLine(c, l)
    ensures var r := Session(c, l, [], chunks);
      && r.ioDelay + r.update - r.shift == l.ioDelay + l.update - l.shift
      && (c.rate == NET_RATE && AllWritesPass(c) && l.running ==>
        && r.running && r.frames - l.frames == |Flatten(chunks)| / NET_SAMPC
        && |r.emitted| - |l.emitted| - NET_SAMPC * (r.frames - l.frames) == r.ioDelay - l.ioDelay)
  {
    hide Blocks, Session, Blocks80;
    assert [] + Flatten(chunks) == Flatten(chunks);
    ReadsDoNotMatter(c, l, [], chunks);
    RunConserves(c, l, Blocks(NET_SAMPC, Flatten(chunks)));
    BlockCount(Flatten(chunks));
  }

  lemma {:induction false} BlockCount(stream: seq<int>)
    ensures |Blocks(NET_SAMPC, stream)| == |stream| / NET_SAMPC
  {
    if |stream| >= NET_SAMPC {
      BlockCount(stream[NET_SAMPC..]);
    }
  }

  // ---------------------------------------------------------- fragments

  /** Pieces of at most `frag`, all but the last of exactly `frag`. */
  ghost predicate Tiles(pieces: seq<seq<int>>, frag: nat, whole: seq<int>) {
    && Flatten(pieces) == whole
    && (forall i :: 0 <= i < |pieces| ==> 0 < |pieces[i]| <= frag)
    && (forall i :: 0 <= i < |pieces| - 1 ==> |pieces[i]| == frag)
  }

  /** What the modem plays for these fragments, from a given call and update_delay on. */
  function Replies(c: Setup, calls: nat, update: int, pieces: seq<seq<int>>): seq<int>
    decreases |pieces|
  {
    if pieces == [] then [] else
      var reply := c.modem(calls, pieces[0], update);
      seq(|pieces[0]|, reply.tx) + Replies(c, calls + 1, reply.update, pieces[1..])
  }

  /** And the update_delay it leaves. */
  function UpdateAfter(c: Setup, calls: nat, update: int, pieces: seq<seq<int>>): int
    decreases |pieces|
  {
    if pieces == [] then update else
      UpdateAfter(c, calls + 1, c.modem(calls, pieces[0], update).update, pieces[1..])
  }

  /** The fragments rebuild the block, in pieces of `frag`, and what is played for it is
      the modem's reply to each. */
  lemma {:induction false} FragmentsTile(c: Setup, l: Line, rest: seq<int>) returns (pieces: seq<seq<int>>)
    requires c.frag >= 1
    ensures Tiles(pieces, c.frag, rest) && Fragment(c, l, rest).1.fragments == l.fragments + pieces
    ensures Fragment(c, l, rest).1.calls == l.calls + |pieces|
    ensures Fragment(c, l, rest).0 == Replies(c, l.calls, l.update, pieces)
    ensures Fragment(c, l, rest).1.update == UpdateAfter(c, l.calls, l.update, pieces)
    decreases |rest|
  {
    hide ModemCall;
    if rest == [] {
      return [];
    }
    var f := if |rest| > c.frag then c.frag else |rest|;
    var tail := FragmentsTile(c, ModemCall(c, l, rest[..f]).1, rest[f..]);
    CallReplies(c, l, rest[..f], tail);
    pieces := [rest[..f]] + tail;
    assert pieces[1..] == tail;
    assert Flatten(pieces) == rest[..f] + rest[f..] == rest;
  }

  lemma CallReplies(c: Setup, l: Line, piece: seq<int>, tail: seq<seq<int>>)
    ensures var (played, m) := ModemCall(c, l, piece);
      && Replies(c, l.calls, l.update, [piece] + tail) == played + Replies(c, m.calls, m.update, tail)
      && UpdateAfter(c, l.calls, l.update, [piece] + tail) == UpdateAfter(c, m.calls, m.update, tail)
  {
    assert ([piece] + tail)[1..] == tail;
  }

  lemma NoPieces(frag: nat)
    ensures Tiles([], frag, [])
  {}

  /** What one block hands to the modem is the block after the dropped samples, cut
      into fragments. */
  lemma FrameTilesKeptSuffix(c: Setup, l: Line, block: seq<int>) returns (rx: seq<int>, pieces: seq<seq<int>>)
    requires ValidLine(c, l) && |block| == NET_SAMPC
    ensures rx == ToModem(c, l.(frames := l.frames + 1), block).0 && |rx| == c.SampC()
    ensures Tiles(pieces, c.frag, rx[Dropped(l.update, c.SampC())..])
    ensures Frame(c, l, block).fragments == l.fragments + pieces && Frame(c, l, block).heard == l.heard + rx
    ensures Frame(c, l, block).toModem == ToModem(c, l.(frames := l.frames + 1), block).1.toModem
  {
    hide ToModem, Play, Fragment, Settled, Tiles;
    var first := l.(frames := l.frames + 1);
    ToModemKeeps(c, first, block);
    rx := ToModem(c, first, block).0;
    var m := ToModem(c, first, block).1;
    var drop := Dropped(m.update, |rx|);
    var n := m.(update := m.update + drop, ioDelay := m.ioDelay - drop);
    if drop == |rx| {
      NoPieces(c.frag);
      assert rx[drop..] == [];
      return rx, [];
    }
    pieces := FragmentsTile(c, n, rx[drop..]);
    PlayKeepsFragments(c, n, rx[drop..]);
  }

  lemma PlayKeepsFragments(c: Setup, l: Line, kept: seq<int>)
    requires ValidLine(c, l) && 0 < |kept| <= c.SampC()
    ensures Play(c, l, kept).fragments == Fragment(c, l, kept).1.fragments
    ensures Play(c, l, kept).calls == Fragment(c, l, kept).1.calls
    ensures Play(c, l, kept).heard == l.heard && Play(c, l, kept).toModem == l.toModem
  {
    hide Fragment, Pad, ToNet;
    FragmentKeeps(c, l, kept);
    var (tx, m) := Fragment(c, l, kept);
    ToNetKeeps(c, m, tx);
    var (out, n) := ToNet(c, m, tx);
    if out != [] && c.stdoutOk(n.writes) {
      PadKeepsFragments(c, Emit(c, n, out));
    }
  }

  lemma {:induction false} PadKeepsFragments(c: Setup, l: Line)
    requires ValidLine(c, l)
    ensures Pad(c, l).fragments == l.fragments && Pad(c, l).calls == l.calls
    ensures Pad(c, l).heard == l.heard && Pad(c, l).toModem == l.toModem && Pad(c, l).writes >= l.writes
    decreases l.update
  {
    hide ToNet, Call, Settled;
    if l.update > 0 {
      var add := if l.update > c.SampC() then c.SampC() else l.update;
      ToNetKeeps(c, l, Zeros(add));
      var (out, m) := ToNet(c, l, Zeros(add));
      if out != [] && c.stdoutOk(m.writes) {
        var n := Emit(c, m, out);
        PadKeepsFragments(c, n.(update := n.update - add, ioDelay := n.ioDelay + add));
      }
    }
  }

  // ---------------------------------------------------------- what is sent

  function Owed(update: int): nat { if update > 0 then update else 0 }

  /** Padding sends silence, one sample for each owed. */
  lemma {:induction false} PadEmits(c: Setup, l: Line)
    requires ValidLine(c, l) && c.rate == NET_RATE && AllWritesPass(c)
    ensures Pad(c, l).emitted == l.emitted + Zeros(Owed(l.update))
    decreases l.update
  {
    hide Call, Settled;
    if l.update > 0 {
      var add := if l.update > c.SampC() then c.SampC() else l.update;
      ToNetKeeps(c, l, Zeros(add));
      var n := Emit(c, ToNet(c, l, Zeros(add)).1, Zeros(add));
      PadEmits(c, n.(update := n.update - add, ioDelay := n.ioDelay + add));
      assert Zeros(add) + Zeros(l.update - add) == Zeros(l.update);
    }
  }

  /** At the native rate a block sends what the modem played for the samples kept, then
      the silence it still owes, and nothing else. */
  lemma FrameEmits(c: Setup, l: Line, block: seq<int>)
    requires ValidLine(c, l) && |block| == NET_SAMPC && c.rate == NET_RATE && AllWritesPass(c)
    ensures var drop := Dropped(l.update, NET_SAMPC);
      var first := l.(frames := l.frames + 1, heard := l.heard + block, update := l.update + drop,
                      ioDelay := l.ioDelay - drop);
      var (tx, m) := Fragment(c, first, block[drop..]);
      Frame(c, l, block).emitted == l.emitted + tx + Zeros(if drop == NET_SAMPC then 0 else Owed(m.update))
  {
    hide Fragment, Pad, Call, Settled;
    var drop := Dropped(l.update, NET_SAMPC);
    var first := l.(frames := l.frames + 1, heard := l.heard + block, update := l.update + drop,
                      ioDelay := l.ioDelay - drop);
    FragmentKeeps(c, first, block[drop..]);
    var (tx, m) := Fragment(c, first, block[drop..]);
    if drop < NET_SAMPC {
      ToNetKeeps(c, m, tx);
      PadEmits(c, Emit(c, ToNet(c, m, tx).1, tx));
    }
  }

  // ------------------------------------------------ padding that stops the bridge

  /** At 9.6 kHz, with every write accepted, padding stops the bridge in exactly this
      case: its last piece is a single sample that meets two pending ones. */
  lemma {:induction false} PaddingStopsIff(c: Setup, l: Line)
    requires ValidLine(c, l) && c.rate == MODEM_RATE_MAX && AllWritesPass(c) && l.running && l.update > 0
    ensures !Pad(c, l).running <==>
      l.update % 96 == 1 && (l.toNet.position == 10 || (l.toNet.position == 5 && l.update > 96))
    decreases l.update
  {
    hide Call, Need, OutputCount;
    var add := if l.update > 96 then 96 else l.update;
    ToNetKeeps(c, l, Zeros(add));
    ModemGivesNothingIff(c.down, l.toNet, Zeros(add));
    var (out, m) := ToNet(c, l, Zeros(add));
    if l.update > 96 {
      ModemBlockExact(c.down, l.toNet, Zeros(96));
      var n := Emit(c, m, out);
      hide ToNet;
      PaddingStopsIff(c, n.(update := n.update - add, ioDelay := n.ioDelay + add));
    }
  }
}
