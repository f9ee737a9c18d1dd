/** The samples themselves: what the modem hears, what is given to the network, and what a
    modem that leaves update_delay alone gets. */
module BridgeSignal {
  import opened Framing
  import opened FixedPoint
  import opened Polyphase
  import opened PolyphaseLaws
  import opened PolyphaseMeaning
  import opened Ratios
  import opened BridgeModel
  import opened BridgeLaws
  import opened BridgePhase

  // ---------------------------------------------------------- what the modem hears

  ghost function ToModemAtOnce(c: Setup, samples: seq<int>): (seq<int>, State)
    requires c.Valid()
  {
    FreshSettled(c.up, 0);
    Whole(c.up, Fresh(c.up), samples)
  }

  /** The samples taken so far have been converted, all of them, as by one conversion. */
  ghost predicate Hears(c: Setup, l: Line, taken: seq<int>)
    requires c.Valid()
  {
    if c.rate == NET_RATE then l.heard == taken else (l.heard, l.toModem) == ToModemAtOnce(c, taken)
  }

  lemma ConversionHears(c: Setup, l: Line, taken: seq<int>, block: seq<int>)
    requires ValidLine(c, l) && Hears(c, l, taken) && |block| == NET_SAMPC
    ensures Hears(c, ToModem(c, l, block).1, taken + block)
  {
    if c.rate != NET_RATE {
      hide Call, Whole;
      NetBlockExact(c.up, l.toModem, block);
      LosslessIff(c.up, l.toModem, 80, 96);
      LosslessIsWhole(c.up, l.toModem, block, 96);
      FreshSettled(c.up, 0);
      WholeSplits(c.up, Fresh(c.up), taken, block);
    }
  }

  lemma FrameHears(c: Setup, l: Line, taken: seq<int>, block: seq<int>)
    requires ValidLine(c, l) && Hears(c, l, taken) && |block| == NET_SAMPC
    ensures Hears(c, Frame(c, l, block), taken + block)
  {
    hide Frame, ToModem, ToModemAtOnce, Tiles;
    var first := l.(frames := l.frames + 1);
    ConversionHears(c, first, taken, block);
    ToModemKeeps(c, first, block);
    var rx, pieces := FrameTilesKeptSuffix(c, l, block);
  }

  lemma {:induction false} BlocksHear(c: Setup, l: Line, taken: seq<int>, blocks: seq<seq<int>>) returns (k: nat)
    requires ValidLine(c, l) && Hears(c, l, taken)
    requires forall i :: 0 <= i < |blocks| ==> |blocks[i]| == NET_SAMPC
    ensures k <= |blocks| && Blocks80(c, l, blocks).frames == l.frames + k
    ensures Hears(c, Blocks80(c, l, blocks), taken + Flatten(blocks[..k]))
    ensures Blocks80(c, l, blocks).running ==> k == |blocks|
    decreases |blocks|
  {
    hide Frame, Hears;
    if blocks == [] || !l.running {
      assert taken + [] == taken && Flatten<int>([]) == [];
      return 0;
    }
    FrameConserves(c, l, blocks[0]);
    FrameHears(c, l, taken, blocks[0]);
    k := BlocksHear(c, Frame(c, l, blocks[0]), taken + blocks[0], blocks[1..]);
    k := k + 1;
    assert blocks[..k][1..] == blocks[1..][..k - 1];
    assert taken + (blocks[0] + Flatten(blocks[1..][..k - 1])) == taken + blocks[0] + Flatten(blocks[1..][..k - 1]);
  }

  lemma {:induction false} FirstBlocks(stream: seq<int>, k: nat)
    requires k <= |Blocks(NET_SAMPC, stream)|
    ensures NET_SAMPC * k <= |stream| && Flatten(Blocks(NET_SAMPC, stream)[..k]) == stream[..NET_SAMPC * k]
  {
    if k > 0 {
      var rest := stream[NET_SAMPC..];
      FirstBlocks(rest, k - 1);
      assert Blocks(NET_SAMPC, stream)[..k][1..] == Blocks(NET_SAMPC, rest)[..k - 1];
      assert stream[..NET_SAMPC] + rest[..NET_SAMPC * (k - 1)] == stream[..NET_SAMPC * k];
    }
  }

  /** Over every session of a new bridge, whatever the modem and the writes do: the
      samples made for the modem are the blocks taken, at 9.6 kHz resampled. */
  lemma SessionHears(c: Setup, ioDelay: int, update: int, chunks: seq<seq<int>>)
    requires c.Valid()
    ensures ValidLine(c, NewLine(c, ioDelay, update))
    ensures var r := Session(c, NewLine(c, ioDelay, update), [], chunks);
      && NET_SAMPC * r.frames <= |Flatten(chunks)|
      && (r.running ==> r.frames == |Flatten(chunks)| / NET_SAMPC)
      && var taken := Flatten(chunks)[..NET_SAMPC * r.frames];
      Hears(c, r, taken) && |r.heard| == c.SampC() * r.frames
      && (c.rate == NET_RATE ==> r.heard == taken)
      && (c.rate != NET_RATE ==> forall n :: 0 <= n < |r.heard| ==> r.heard[n] == Resampled(c.up, taken, n))
  {
    hide Blocks, Session, Blocks80, Settled, Resampled, Hears;
    var l, s := NewLine(c, ioDelay, update), Flatten(chunks);
    NewLineInPhase(c, ioDelay, update);
    NothingHeard(c, ioDelay, update);
    assert [] + s == s;
    ReadsDoNotMatter(c, l, [], chunks);
    BlocksHave80(s);
    var k := BlocksHear(c, l, [], Blocks(NET_SAMPC, s));
    FirstBlocks(s, k);
    assert [] + s[..NET_SAMPC * k] == s[..NET_SAMPC * k];
    BlockCount(s);
    HeardMeans(c, Session(c, l, [], chunks), s[..NET_SAMPC * k], k);
  }

  lemma NothingHeard(c: Setup, ioDelay: int, update: int)
    requires c.Valid()
    ensures Hears(c, NewLine(c, ioDelay, update), [])
  {
    hide Whole;
    FreshSettled(c.up, 0);
    WholeOfNothing(c.up, Fresh(c.up));
  }

  lemma HeardMeans(c: Setup, l: Line, taken: seq<int>, k: nat)
    requires c.Valid() && Hears(c, l, taken) && |taken| == NET_SAMPC * k
    ensures |l.heard| == c.SampC() * k
    ensures c.rate == NET_RATE ==> l.heard == taken
    ensures c.rate != NET_RATE ==> forall n :: 0 <= n < |l.heard| ==> l.heard[n] == Resampled(c.up, taken, n)
  {
    hide Whole, Resampled;
    if c.rate != NET_RATE {
      WholeIsResampled(c.up, taken);
      assert OutputCount(c.up, 5, 80 * k) == 96 * k;
    }
  }

  // ---------------------------------------------------------- what the network is given

  /** Padding gives silence: all that is owed, unless the bridge stops first. */
  lemma {:induction false} PadGives(c: Setup, l: Line) returns (p: nat)
    requires ValidLine(c, l) && l.running
    ensures Flatten(Pad(c, l).given) == Flatten(l.given) + Zeros(p) && p <= Owed(l.update)
    ensures Pad(c, l).running ==> p == Owed(l.update)
    decreases l.update
  {
    hide ToNet, Settled, Flatten;
    assert Flatten(l.given) + Zeros(0) == Flatten(l.given);
    if l.update <= 0 {
      return 0;
    }
    var add := if l.update > c.SampC() then c.SampC() else l.update;
    ToNetKeeps(c, l, Zeros(add));
    FlattenOne(l.given, Zeros(add));
    var (out, m) := ToNet(c, l, Zeros(add));
    p := add;
    if out != [] && c.stdoutOk(m.writes) {
      var n := Emit(c, m, out);
      p := PadGives(c, n.(update := n.update - add, ioDelay := n.ioDelay + add));
      assert Zeros(add) + Zeros(p) == Zeros(add + p);
      p := add + p;
    }
  }

  lemma PlayGives(c: Setup, l: Line, kept: seq<int>) returns (p: nat)
    requires ValidLine(c, l) && l.running && 0 < |kept| <= c.SampC()
    ensures var (tx, m), r := Fragment(c, l, kept), Play(c, l, kept);
      && Flatten(r.given) == Flatten(l.given) + tx + Zeros(p) && p <= Owed(m.update)
      && (r.writes == l.writes ==> p == 0) && (r.running && r.writes > l.writes ==> p == Owed(m.update))
  {
    hide Fragment, Pad, ToNet, Flatten;
    FragmentKeeps(c, l, kept);
    var (tx, m) := Fragment(c, l, kept);
    ToNetKeeps(c, m, tx);
    FlattenOne(l.given, tx);
    assert Flatten(l.given) + tx + Zeros(0) == Flatten(l.given) + tx;
    var (out, n) := ToNet(c, m, tx);
    p := 0;
    if out != [] && c.stdoutOk(n.writes) {
      p := PadGives(c, Emit(c, n, out));
      PadKeepsFragments(c, Emit(c, n, out));
    }
  }

  /** One block, whatever the modem does: it is handed the samples made from the block but
      for the first, as many of those as a negative update_delay asks for; the network is
      given what it plays for them, and then the silence it owes. */
  lemma FrameGives(c: Setup, l: Line, block: seq<int>) returns (rx: seq<int>, pieces: seq<seq<int>>, p: nat)
    requires ValidLine(c, l) && l.running && |block| == NET_SAMPC
    ensures var r, drop := Frame(c, l, block),
        if l.update >= 0 then 0 else if -l.update >= c.SampC() then c.SampC() else -l.update;
      && r.heard == l.heard + rx && |rx| == c.SampC() && Tiles(pieces, c.frag, rx[drop..])
      && r.fragments == l.fragments + pieces && r.calls == l.calls + |pieces|
      && Flatten(r.given) == Flatten(l.given) + Replies(c, l.calls, l.update + drop, pieces) + Zeros(p)
      && p <= Owed(UpdateAfter(c, l.calls, l.update + drop, pieces)) && (r.writes == l.writes ==> p == 0)
      && (r.running && r.writes > l.writes ==> p == Owed(UpdateAfter(c, l.calls, l.update + drop, pieces)))
      && (drop == c.SampC() ==> r == l.(frames := r.frames, heard := r.heard, toModem := r.toModem,
                                      update := l.update + drop, ioDelay := l.ioDelay - drop))
  {
    hide ToModem, Play, Fragment, Settled, Tiles, Flatten;
    var first := l.(frames := l.frames + 1);
    ToModemKeeps(c, first, block);
    rx := ToModem(c, first, block).0;
    var m := ToModem(c, first, block).1;
    var drop := Dropped(m.update, |rx|);
    var n := m.(update := m.update + drop, ioDelay := m.ioDelay - drop);
    if drop == |rx| {
      NoPieces(c.frag);
      assert rx[drop..] == [] && l.fragments + [] == l.fragments;
      assert Flatten(l.given) + [] + Zeros(0) == Flatten(l.given);
      return rx, [], 0;
    }
    pieces := FragmentsTile(c, n, rx[drop..]);
    PlayKeepsFragments(c, n, rx[drop..]);
    p := PlayGives(c, n, rx[drop..]);
  }

  // ------------------------------------------- a modem that leaves the delay alone

  /** The modem never changes an update_delay of zero, and stdout takes every write. */
  ghost predicate Quiet(c: Setup) {
    AllWritesPass(c) && forall k: nat, piece: seq<int> :: c.modem(k, piece, 0).update == 0
  }

  lemma {:induction false} QuietReplies(c: Setup, calls: nat, a: seq<seq<int>>, b: seq<seq<int>>)
    requires Quiet(c)
    ensures Replies(c, calls, 0, a + b) == Replies(c, calls, 0, a) + Replies(c, calls + |a|, 0, b)
    ensures UpdateAfter(c, calls, 0, a) == 0 && |Replies(c, calls, 0, a)| == |Flatten(a)|
    decreases |a|
  {
    if a == [] {
      assert [] + b == b;
    } else {
      assert c.modem(calls, a[0], 0).update == 0;
      QuietReplies(c, calls + 1, a[1..], b);
      assert (a + b)[1..] == a[1..] + b;
    }
  }

  /** A line at 9.6 kHz that has only converted whole blocks, none lost. */
  ghost predicate Aligned(c: Setup, l: Line, ioDelay: int) {
    && ValidLine(c, l) && c.rate != NET_RATE && l.update == 0 && l.running && l.ioDelay == ioDelay
    && l.toNet.position == 6 && l.lost == 0 && |l.emitted| == NET_SAMPC * l.frames
  }

  /** All the modem has heard it was handed, and all it has played was given on. */
  ghost predicate PassesOn(c: Setup, l: Line) {
    && Flatten(l.fragments) == l.heard && l.calls == |l.fragments|
    && Flatten(l.given) == Replies(c, 0, 0, l.fragments)
  }

  lemma {:induction false} FragmentStaysQuiet(c: Setup, l: Line, rest: seq<int>)
    requires Quiet(c) && c.frag >= 1 && l.update == 0
    ensures Fragment(c, l, rest).1.update == 0
    decreases |rest|
  {
    if rest != [] {
      var f := if |rest| > c.frag then c.frag else |rest|;
      assert c.modem(l.calls, rest[..f], 0).update == 0;
      FragmentStaysQuiet(c, ModemCall(c, l, rest[..f]).1, rest[f..]);
    }
  }

  lemma FrameStaysAligned(c: Setup, l: Line, ioDelay: int, block: seq<int>)
    requires Quiet(c) && Aligned(c, l, ioDelay) && |block| == NET_SAMPC
    ensures Aligned(c, Frame(c, l, block), ioDelay)
  {
    hide ToModem, Fragment, Call, Consumed, Quiet, ModemCall;
    assert AllWritesPass(c) by { QuietPasses(c); }
    var first := l.(frames := l.frames + 1);
    ToModemKeeps(c, first, block);
    var (rx, m) := ToModem(c, first, block);
    assert rx[0..] == rx && Dropped(0, |rx|) == 0;
    FragmentKeeps(c, m, rx);
    FragmentStaysQuiet(c, m, rx);
    var (tx, n) := Fragment(c, m, rx);
    ToNetKeeps(c, n, tx);
    ModemBlockExact(c.down, n.toNet, tx);
  }

  lemma FramePassesOn(c: Setup, l: Line, ioDelay: int, block: seq<int>)
    requires Quiet(c) && Aligned(c, l, ioDelay) && PassesOn(c, l) && |block| == NET_SAMPC
    ensures PassesOn(c, Frame(c, l, block))
  {
    hide Frame, Quiet, Replies, UpdateAfter, Settled, Flatten;
    var rx, pieces, p := FrameGives(c, l, block);
    QuietReplies(c, |l.fragments|, pieces, []);
    QuietReplies(c, 0, l.fragments, pieces);
    FlattenAppend(l.fragments, pieces);
    assert rx[0..] == rx;
    var tx := Replies(c, |l.fragments|, 0, pieces);
    assert Flatten(l.given) + tx + Zeros(0) == Flatten(l.given) + tx;
  }

  lemma QuietPasses(c: Setup)
    requires Quiet(c)
    ensures AllWritesPass(c)
  {}

  lemma {:induction false} BlocksStayAligned(c: Setup, l: Line, ioDelay: int, blocks: seq<seq<int>>)
    requires Quiet(c) && Aligned(c, l, ioDelay) && PassesOn(c, l)
    requires forall i :: 0 <= i < |blocks| ==> |blocks[i]| == NET_SAMPC
    ensures Aligned(c, Blocks80(c, l, blocks), ioDelay) && Blocks80(c, l, blocks).frames == l.frames + |blocks|
    ensures PassesOn(c, Blocks80(c, l, blocks))
    decreases |blocks|
  {
    hide Frame, Quiet, PassesOn;
    if blocks != [] {
      FrameConserves(c, l, blocks[0]);
      FrameStaysAligned(c, l, ioDelay, blocks[0]);
      FramePassesOn(c, l, ioDelay, blocks[0]);
      BlocksStayAligned(c, Frame(c, l, blocks[0]), ioDelay, blocks[1..]);
    }
  }

  lemma QuietSession(c: Setup, ioDelay: int, chunks: seq<seq<int>>)
    requires c.Valid() && Quiet(c) && c.rate == MODEM_RATE_MAX
    ensures ValidLine(c, NewLine(c, ioDelay, 0))
    ensures var r := Session(c, NewLine(c, ioDelay, 0), [], chunks);
      Aligned(c, r, ioDelay) && PassesOn(c, r) && r.frames == |Flatten(chunks)| / NET_SAMPC
  {
    hide Blocks, Session, Blocks80, Settled, Quiet;
    var l := NewLine(c, ioDelay, 0);
    NewLineInPhase(c, ioDelay, 0);
    assert [] + Flatten(chunks) == Flatten(chunks);
    ReadsDoNotMatter(c, l, [], chunks);
    BlocksHave80(Flatten(chunks));
    BlocksStayAligned(c, l, ioDelay, Blocks(NET_SAMPC, Flatten(chunks)));
    BlockCount(Flatten(chunks));
  }

  /** At 9.6 kHz, the default, such a session loses nothing: every whole 80 samples read
      are answered by 80 samples sent. */
  lemma QuietSessionExact(c: Setup, ioDelay: int, chunks: seq<seq<int>>)
    requires c.Valid() && Quiet(c) && c.rate == MODEM_RATE_MAX
    ensures ValidLine(c, NewLine(c, ioDelay, 0))
    ensures var r := Session(c, NewLine(c, ioDelay, 0), [], chunks);
      && r.lost == 0 && r.running && r.frames == |Flatten(chunks)| / NET_SAMPC
      && |r.emitted| == NET_SAMPC * r.frames && r.ioDelay == ioDelay
  {
    hide Session, Quiet;
    QuietSession(c, ioDelay, chunks);
  }

  lemma {:induction false} RetainedAll(given: seq<seq<int>>)
    ensures |Retained(given)| <= |Flatten(given)|
    ensures |Retained(given)| == |Flatten(given)| ==> Retained(given) == Flatten(given)
  {
    if given != [] {
      var n := |given| - 1;
      RetainedAll(given[..n]);
      FlattenOne(given[..n], given[n]);
      assert given[..n] + [given[n]] == given;
    }
  }

  /** And sample by sample: the modem is handed the resampling of the blocks read, cut into
      fragments, and what is sent is the resampling of its replies to them. */
  lemma QuietSessionSignal(c: Setup, ioDelay: int, chunks: seq<seq<int>>)
    requires c.Valid() && Quiet(c) && c.rate == MODEM_RATE_MAX
    ensures ValidLine(c, NewLine(c, ioDelay, 0))
    ensures var r := Session(c, NewLine(c, ioDelay, 0), [], chunks);
      var heard, played := Flatten(r.fragments), Replies(c, 0, 0, r.fragments);
      && NET_SAMPC * r.frames <= |Flatten(chunks)| && |heard| == |played| == 96 * r.frames
      && (forall n :: 0 <= n < |heard| ==> heard[n] == Resampled(c.up, Flatten(chunks)[..NET_SAMPC * r.frames], n))
      && (forall n :: 0 <= n < |r.emitted| ==> r.emitted[n] == Resampled(c.down, played, n))
  {
    hide Session, Quiet, Resampled, Retained, Replies, Hears, InPhase;
    QuietSession(c, ioDelay, chunks);
    SessionHears(c, ioDelay, 0, chunks);
    SessionSends(c, ioDelay, 0, chunks);
    SessionLosses(c, ioDelay, 0, chunks);
    var r := Session(c, NewLine(c, ioDelay, 0), [], chunks);
    RetainedAll(r.given);
    QuietReplies(c, 0, r.fragments, []);
  }
}
