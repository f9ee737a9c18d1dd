/** The slmodem bridge as the program keeps it: an accumulating input buffer, two
    converter objects and a handful of counters, proved to do what BridgeModel says. */
module Bridge {
  import opened FixedPoint
  import opened Framing
  import opened Polyphase
  import opened BridgeModel
  import opened BridgeReads
  import opened BridgeLaws

  class SlmodemBridge {
    const setup: Setup
    const toModem: RatioConverter
    const toNet: RatioConverter
    const netIn: array<int>
    var netInN: nat
    var ioDelay: int
    var updateDelay: int   // a field of the modem, which the bridge also adjusts
    var running: bool
    var calls: nat
    var writes: nat
    var emitted: seq<int>
    ghost var shift: int
    ghost var fragments: seq<seq<int>>
    ghost var frames: nat
    ghost var heard: seq<int>
    ghost var given: seq<seq<int>>
    ghost var lost: nat

    ghost predicate Valid()
      reads this, toModem, toModem.windowBuf, toNet, toNet.windowBuf
    {
      && setup.Valid() && toModem != toNet && toModem.windowBuf != toNet.windowBuf
      && netIn != toModem.windowBuf && netIn != toNet.windowBuf
      && toModem.Valid() && toModem.Filter() == setup.up && Settled(setup.up, toModem.Contents())
      && toNet.Valid() && toNet.Filter() == setup.down && Settled(setup.down, toNet.Contents())
      && netIn.Length == 2 * NET_SAMPC && netInN <= 2 * NET_SAMPC
    }

    ghost function Contents(): (l: Line)
      requires Valid()
      reads this, toModem, toModem.windowBuf, toNet, toNet.windowBuf
      ensures ValidLine(setup, l)
    {
      Line(ioDelay, updateDelay, shift, calls, fragments, frames, writes, emitted, running,
           toModem.Contents(), toNet.Contents(), heard, given, lost)
    }

    ghost function Held(): seq<int>
      requires Valid()
      reads this, toModem, toModem.windowBuf, toNet, toNet.windowBuf, netIn
    {
      netIn[..netInN]
    }

    constructor (setup: Setup, ioDelay: int, updateDelay: int)
      requires setup.Valid()
      ensures Valid() && this.setup == setup && fresh(netIn) && fresh(toModem) && fresh(toNet)
      ensures fresh(toModem.windowBuf) && fresh(toNet.windowBuf)
      ensures Held() == [] && Contents() == NewLine(setup, ioDelay, updateDelay)
    {
      hide Settled, ValidState, Fresh, RatioConverter.Valid, RatioConverter.Contents, RatioConverter.Indexed;
      this.setup := setup;
      var up := new RatioConverter(setup.up);
      var down := new RatioConverter(setup.down);
      FreshSettled(setup.up, 0);
      FreshSettled(setup.down, 1);
      toModem, toNet := up, down;
      netIn := new int[2 * NET_SAMPC](_ => 0);
      netInN, this.ioDelay, this.updateDelay, running := 0, ioDelay, updateDelay, true;
      calls, writes, emitted, shift, fragments, frames, heard, given, lost := 0, 0, [], 0, [], 0, [], [], 0;
    }

    method ResampleToModem(input: seq<int>) returns (output: seq<int>)
      requires Valid() && |input| == NET_SAMPC
      modifies toModem, toModem.windowBuf, `heard
      ensures Valid() && toModem.windowBuf == old(toModem.windowBuf)
      ensures (output, Contents()) == ToModem(setup, old(Contents()), input)
    {
      hide Call, ValidState;
      ToModemKeeps(setup, Contents(), input);
      if setup.rate == NET_RATE {
        heard := heard + input;
        return input;
      }
      var n;
      output, n := toModem.Resample(input, setup.SampC());
      heard := heard + output;
    }

    method ResampleToNet(input: seq<int>) returns (output: seq<int>)
      requires Valid() && |input| <= setup.SampC()
      modifies toNet, toNet.windowBuf, `given, `lost
      ensures Valid() && toNet.windowBuf == old(toNet.windowBuf)
      ensures (output, Contents()) == ToNet(setup, old(Contents()), input)
    {
      hide Call, Consumed;
      ToNetKeeps(setup, Contents(), input);
      ConsumedInRange(setup, Contents(), input);
      if |input| == 0 {
        return [];
      }
      given := given + [input];
      if setup.rate == NET_RATE {
        return input;
      }
      ghost var position := toNet.Contents().position;
      lost := lost + |input| - Consumed(setup.down, position, |input|, NET_SAMPC);
      var n;
      output, n := toNet.Resample(input, NET_SAMPC);
    }

    /** The foreign modem: it plays as many samples as it is given. */
    method ModemProcess(fragment: seq<int>) returns (tx: seq<int>)
      requires Valid()
      modifies `updateDelay, `calls, `shift, `fragments
      ensures Valid()
      ensures (tx, Contents()) == ModemCall(setup, old(Contents()), fragment)
    {
      var reply := setup.modem(calls, fragment, updateDelay);
      tx := seq(|fragment|, reply.tx);
      shift := shift + reply.update - updateDelay;
      fragments := fragments + [fragment];
      calls, updateDelay := calls + 1, reply.update;
    }

    method EmitNetAudio(samples: seq<int>) returns (ok: bool)
      requires Valid()
      modifies `writes, `emitted, `running
      ensures Valid() && ok == setup.stdoutOk(old(writes))
      ensures Contents() == Emit(setup, old(Contents()), samples)
    {
      ok := setup.stdoutOk(writes);
      writes := writes + 1;
      if ok {
        emitted := emitted + samples;
      } else {
        running := false;
      }
    }

    /** The 5 ms loop over one block. */
    method ProcessFragments(kept: seq<int>) returns (tx: seq<int>)
      requires Valid()
      modifies `updateDelay, `calls, `shift, `fragments
      ensures Valid() && (tx, Contents()) == Fragment(setup, old(Contents()), kept)
    {
      hide Fragment, ModemCall, ValidState, Settled;
      hide RatioConverter.Valid, RatioConverter.Contents, RatioConverter.Indexed;
      tx := [];
      var processed := 0;
      ghost var whole := Fragment(setup, Contents(), kept);
      assert kept[0..] == kept && [] + whole.0 == whole.0;
      while processed < |kept|
        invariant 0 <= processed <= |kept| && Valid()
        invariant whole.0 == tx + Fragment(setup, Contents(), kept[processed..]).0
        invariant whole.1 == Fragment(setup, Contents(), kept[processed..]).1
      {
        FragmentNext(setup, Contents(), kept, processed, tx);
        var fragment := |kept| - processed;
        if fragment > setup.frag {
          fragment := setup.frag;
        }
        var played := ModemProcess(kept[processed..processed + fragment]);
        tx := tx + played;
        processed := processed + fragment;
      }
      FragmentsEnd(setup, Contents());
      assert kept[processed..] == [] && tx + [] == tx;
    }

    /** One piece of silence against a positive update_delay; false when the bridge stops. */
    method PadOnce() returns (more: bool)
      requires Valid() && updateDelay > 0
      modifies this, toNet, toNet.windowBuf
      ensures Valid() && toNet.windowBuf == old(toNet.windowBuf) && netInN == old(netInN)
      ensures Pad(setup, old(Contents())) == if more then Pad(setup, Contents()) else Contents()
      ensures more ==> updateDelay < old(updateDelay)
    {
      hide ValidState, Settled, ToNet, Setup.Valid, Emit;
      hide RatioConverter.Valid, RatioConverter.Contents, RatioConverter.Indexed;
      var add := if updateDelay > setup.SampC() then setup.SampC() else updateDelay;
      var out := ResampleToNet(Zeros(add));
      if |out| == 0 {
        running := false;
        return false;
      }
      more := EmitNetAudio(out);
      if more {
        updateDelay := updateDelay - add;
        ioDelay := ioDelay + add;
      }
    }

    /** Plays silence until a positive update_delay is used up. */
    method PadQueue()
      requires Valid()
      modifies this, toNet, toNet.windowBuf
      ensures Valid() && toNet.windowBuf == old(toNet.windowBuf) && netInN == old(netInN)
      ensures Contents() == Pad(setup, old(Contents()))
    {
      hide ValidState, Settled, ToNet, Setup.Valid, Emit;
      hide RatioConverter.Valid, RatioConverter.Contents, RatioConverter.Indexed;
      ghost var whole := Pad(setup, Contents());
      while updateDelay > 0
        invariant Valid() && toNet.windowBuf == old(toNet.windowBuf) && netInN == old(netInN)
        invariant Pad(setup, Contents()) == whole
        decreases updateDelay
      {
        var more := PadOnce();
        if !more {
          return;
        }
      }
    }

    method ProcessBlock(block: seq<int>)
      requires Valid() && |block| == NET_SAMPC
      modifies this, toModem, toModem.windowBuf, toNet, toNet.windowBuf
      ensures Valid() && toModem.windowBuf == old(toModem.windowBuf) && toNet.windowBuf == old(toNet.windowBuf)
      ensures netInN == old(netInN) && Contents() == Frame(setup, old(Contents()), block)
    {
      hide ValidState, Settled, ToModem, BridgeModel.Play;
      hide RatioConverter.Valid, RatioConverter.Contents, RatioConverter.Indexed;
      frames := frames + 1;
      ghost var first := Contents();
      ToModemKeeps(setup, first, block);
      var modemRx := ResampleToModem(block);
      var converted := |modemRx|;
      // So the exits for an empty or a mismatched conversion are never taken.
      assert converted == setup.SampC();
      var drop := 0;
      if updateDelay < 0 {
        drop := if -updateDelay > converted then converted else -updateDelay;
        updateDelay := updateDelay + drop;
        ioDelay := ioDelay - drop;
      }
      if drop == converted {
        return;
      }
      Play(modemRx[drop..]);
    }

    /** The kept part of a block through the modem and out to the network. */
    method Play(kept: seq<int>)
      requires Valid() && 0 < |kept| <= setup.SampC()
      modifies this, toNet, toNet.windowBuf
      ensures Valid() && toNet.windowBuf == old(toNet.windowBuf) && netInN == old(netInN)
      ensures Contents() == BridgeModel.Play(setup, old(Contents()), kept)
    {
      hide ValidState, Settled, ToNet, ToModem, Fragment, Pad;
      FragmentKeeps(setup, Contents(), kept);
      var modemTx := ProcessFragments(kept);
      ToNetKeeps(setup, Contents(), modemTx);
      var netTx := ResampleToNet(modemTx);
      if |netTx| == 0 {
        return;
      }
      var ok := EmitNetAudio(netTx);
      if ok {
        PadQueue();
      }
    }

    /** Appends the samples of what one read gave; there is always room for them.  An odd
        last byte is discarded. */
    method Accumulate(bytes: seq<byte>)
      requires Valid() && netInN + |bytes| / 2 <= 2 * NET_SAMPC
      modifies `netInN, netIn
      ensures Valid() && Contents() == old(Contents()) && Held() == old(Held()) + SamplesOf(bytes)
    {
      var samples := |bytes| / 2;
      forall i | 0 <= i < samples {
        netIn[netInN + i] := SampleAt(bytes, i);
      }
      netInN := netInN + samples;
      assert netIn[..netInN] == old(Held()) + SamplesOf(bytes);
    }

    method TakeBlock() returns (block: seq<int>)
      requires Valid() && NET_SAMPC <= netInN
      modifies `netInN, netIn
      ensures Valid() && Contents() == old(Contents())
      ensures |block| == NET_SAMPC && old(Held()) == block + Held()
    {
      block := netIn[..NET_SAMPC];
      ghost var was := netIn[..];
      forall i | 0 <= i < netInN - NET_SAMPC {
        netIn[i] := netIn[NET_SAMPC + i];
      }
      netInN := netInN - NET_SAMPC;
      assert netIn[..netInN] == was[NET_SAMPC..NET_SAMPC + netInN];
    }

    /** One turn of the main loop: reads of any length up to a block are cut into
        blocks of 80, each of them processed, none lost. */
    method Turn(bytes: seq<byte>)
      requires Valid() && running && netInN < NET_SAMPC && |bytes| <= 2 * NET_SAMPC
      modifies this, netIn, toModem, toModem.windowBuf, toNet, toNet.windowBuf
      ensures Valid() && toModem.windowBuf == old(toModem.windowBuf) && toNet.windowBuf == old(toNet.windowBuf)
      ensures netInN < NET_SAMPC && Held() == Rest(NET_SAMPC, old(Held()) + SamplesOf(bytes))
      ensures BlocksAre80(old(Held()) + SamplesOf(bytes))
      ensures Contents() == Blocks80(setup, old(Contents()), Blocks(NET_SAMPC, old(Held()) + SamplesOf(bytes)))
    {
      ghost var l, stream := Contents(), Held() + SamplesOf(bytes);
      BlocksHave80(stream);
      Accumulate(bytes);
      OneBlock(setup, l, stream);
      hide Frame, Blocks80, ValidState, Settled, RatioConverter.Valid, RatioConverter.Contents;
      while netInN >= NET_SAMPC
        invariant Valid() && toModem.windowBuf == old(toModem.windowBuf) && toNet.windowBuf == old(toNet.windowBuf)
        invariant netInN >= NET_SAMPC ==> Contents() == l && Held() == stream
        invariant netInN < NET_SAMPC ==>
          Held() == Rest(NET_SAMPC, stream) && Contents() == Blocks80(setup, l, Blocks(NET_SAMPC, stream))
      {
        var block := TakeBlock();
        assert stream[..NET_SAMPC] == block && stream[NET_SAMPC..] == Held();
        ghost var rest := Held();
        ProcessBlock(block);
        assert Held() == rest;
      }
    }
  }

  /** A stream shorter than two blocks holds at most one. */
  lemma OneBlock(c: Setup, l: Line, stream: seq<int>)
    requires ValidLine(c, l) && l.running && |stream| < 2 * NET_SAMPC && BlocksAre80(stream)
    ensures |stream| < NET_SAMPC ==> Rest(NET_SAMPC, stream) == stream && Blocks80(c, l, Blocks(NET_SAMPC, stream)) == l
    ensures |stream| >= NET_SAMPC ==> Rest(NET_SAMPC, stream) == stream[NET_SAMPC..]
    ensures |stream| >= NET_SAMPC ==> Blocks80(c, l, Blocks(NET_SAMPC, stream)) == Frame(c, l, stream[..NET_SAMPC])
  {
    hide Frame;
    if |stream| >= NET_SAMPC {
      var block := stream[..NET_SAMPC];
      FrameConserves(c, l, block);
      assert Blocks(NET_SAMPC, stream[NET_SAMPC..]) == [] && Blocks(NET_SAMPC, stream) == [block];
      assert Blocks80(c, Frame(c, l, block), []) == Frame(c, l, block);
    }
  }
}
