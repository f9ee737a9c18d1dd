/** The stages that cut byte streams into fixed-size frames.  Each of them is
    stateful and sees its input in arbitrary pieces; each is proved to depend on
    the bytes alone. */
module Framing {

  // ------------------------------------------------- fixed-size chunking

  function Blocks<T>(n: nat, s: seq<T>): seq<seq<T>>
    requires n > 0
  {
    if |s| < n then [] else [s[..n]] + Blocks(n, s[n..])
  }

  function Rest<T>(n: nat, s: seq<T>): seq<T>
    requires n > 0
  {
    if |s| < n then s else Rest(n, s[n..])
  }

  function Flatten<T>(ss: seq<seq<T>>): seq<T> {
    if ss == [] then [] else ss[0] + Flatten(ss[1..])
  }

  lemma {:induction false} FlattenAppend<T>(a: seq<seq<T>>, b: seq<seq<T>>)
    ensures Flatten(a + b) == Flatten(a) + Flatten(b)
  {
    if a == [] {
      assert a + b == b;
    } else {
      assert (a + b)[1..] == a[1..] + b;
      FlattenAppend(a[1..], b);
    }
  }

  lemma FlattenOne<T>(a: seq<seq<T>>, x: seq<T>)
    ensures Flatten(a + [x]) == Flatten(a) + x
  {
    FlattenAppend(a, [x]);
    assert Flatten([x]) == x + Flatten([]);
  }

  /** Blocks and rest rebuild the stream. */
  lemma {:induction false} BlocksRebuild<T>(n: nat, s: seq<T>)
    requires n > 0
    ensures Flatten(Blocks(n, s)) + Rest(n, s) == s && |Rest(n, s)| < n
    ensures forall i :: 0 <= i < |Blocks(n, s)| ==> |Blocks(n, s)[i]| == n
  {
    if |s| >= n {
      var bs := Blocks(n, s[n..]);
      BlocksRebuild(n, s[n..]);
      assert Blocks(n, s) == [s[..n]] + bs && ([s[..n]] + bs)[1..] == bs;
      assert s == s[..n] + (Flatten(bs) + Rest(n, s[n..]));
    }
  }

  /** ... and they are the only way to cut it. */
  lemma {:induction false} BlocksUnique<T>(n: nat, bs: seq<seq<T>>, r: seq<T>)
    requires n > 0 && |r| < n && forall b :: b in bs ==> |b| == n
    ensures Blocks(n, Flatten(bs) + r) == bs && Rest(n, Flatten(bs) + r) == r
  {
    if bs == [] {
      assert Flatten(bs) + r == r;
    } else {
      var s := Flatten(bs) + r;
      assert s[n..] == Flatten(bs[1..]) + r;
      assert s[..n] == bs[0];
      BlocksUnique(n, bs[1..], r);
    }
  }

  lemma {:induction false} BlocksAppend<T>(n: nat, s: seq<T>, t: seq<T>)
    requires n > 0
    ensures Blocks(n, s + t) == Blocks(n, s) + Blocks(n, Rest(n, s) + t)
    ensures Rest(n, s + t) == Rest(n, Rest(n, s) + t)
  {
    if |s| >= n {
      assert (s + t)[..n] == s[..n] && (s + t)[n..] == s[n..] + t;
      BlocksAppend(n, s[n..], t);
    }
  }

  // ------------------------------------------------- the RTP stdin assembler

  type byte = x: int | 0 <= x < 256

  datatype ReadResult = Data(bytes: seq<byte>) | EndOfFile | ReadError

  /** rtp_bridge's transmit buffer: sends a frame whenever it fills. */
  class FrameAssembler {
    const frameBytes: nat
    const buffer: array<byte>
    var len: nat
    var sent: seq<seq<byte>>
    var cancelled: bool

    ghost predicate Valid()
      reads this, buffer
    {
      0 < frameBytes == buffer.Length && len < frameBytes
    }

    ghost function Held(): seq<byte>
      requires Valid()
      reads this, buffer
    {
      buffer[..len]
    }

    constructor (frameBytes: nat)
      requires 0 < frameBytes
      ensures Valid() && fresh(buffer) && this.frameBytes == frameBytes
      ensures Held() == [] && sent == [] && !cancelled
    {
      this.frameBytes := frameBytes;
      buffer := new byte[frameBytes](_ => 0);
      len, sent, cancelled := 0, [], false;
    }

    /** The stream in pieces gives the blocks of the stream: what was held and
        what arrives are cut into full frames and a new rest. */
    method OnReadable(read: ReadResult)
      requires Valid()
      requires read.Data? ==> 0 < |read.bytes| <= frameBytes - len
      modifies this, buffer
      ensures Valid()
      ensures cancelled == (old(cancelled) || !read.Data?)
      ensures var stream := old(Held()) + if read.Data? then read.bytes else [];
        Held() == Rest(frameBytes, stream) && sent == old(sent) + Blocks(frameBytes, stream)
    {
      if !read.Data? {
        cancelled := true;
        return;
      }
      ghost var stream := buffer[..len] + read.bytes;
      forall i | 0 <= i < |read.bytes| {
        buffer[len + i] := read.bytes[i];
      }
      len := len + |read.bytes|;
      assert buffer[..len] == stream;
      if len == frameBytes {
        sent := sent + [buffer[..]];
        assert stream[..frameBytes] == buffer[..] && Blocks(frameBytes, stream[frameBytes..]) == [];
        len := 0;
      }
    }
  }

  /** Any pieces of any stream, each no longer than the space left, are sent as the
      blocks of the stream. */
  lemma {:induction false} PiecesDoNotMatter<T>(n: nat, pieces: seq<seq<T>>, held: seq<T>)
    requires n > 0
    ensures Reframe(n, pieces, held) ==
      (Blocks(n, held + Flatten(pieces)), Rest(n, held + Flatten(pieces)))
  {
    if pieces == [] {
      assert held + Flatten(pieces) == held;
    } else {
      var first := held + pieces[0];
      assert held + Flatten(pieces) == first + Flatten(pieces[1..]);
      BlocksAppend(n, first, Flatten(pieces[1..]));
      PiecesDoNotMatter(n, pieces[1..], Rest(n, first));
    }
  }

  /** A stage that turns each arriving piece into the full blocks it completes. */
  function Reframe<T>(n: nat, pieces: seq<seq<T>>, held: seq<T>): (seq<seq<T>>, seq<T>)
    requires n > 0
  {
    if pieces == [] then (Blocks(n, held), Rest(n, held)) else
      var first := held + pieces[0];
      var (bs, r) := Reframe(n, pieces[1..], Rest(n, first));
      (Blocks(n, first) + bs, r)
  }

  /** A frame stage fed, in any pieces, by the output of another frame stage: the
      frames depend only on the bytes the first stage has completed. */
  lemma StagesCompose<T>(n: nat, m: nat, pieces: seq<seq<T>>, recut: seq<seq<T>>)
    requires n > 0 && m > 0
    requires Flatten(recut) == Flatten(Reframe(n, pieces, []).0)
    ensures |Rest(n, Flatten(pieces))| <= |Flatten(pieces)|
    ensures var s := Flatten(pieces);
      var done := s[..|s| - |Rest(n, s)|];
      Reframe(m, recut, []) == (Blocks(m, done), Rest(m, done))
  {
    var s := Flatten(pieces);
    PiecesDoNotMatter(n, pieces, []);
    PiecesDoNotMatter(m, recut, []);
    assert [] + s == s && [] + Flatten(recut) == Flatten(recut);
    BlocksRebuild(n, s);
    assert Flatten(Blocks(n, s)) == s[..|s| - |Rest(n, s)|];
  }

  // ------------------------------------------------- writes that may fall short

  datatype WriteResult = Wrote(count: nat) | Interrupted | TryAgain | Failed

  /** write_all of rtp_bridge, emit_net_audio of slmodem_bridge, and the stdio pump. */
  datatype Writer = WriteAllLoop | EmitLoop | PumpLoop {
    /** Which results make this writer give up instead of trying again. */
    predicate GivesUpOn(r: WriteResult) {
      match r
      case Wrote(count) => count == 0 && this != WriteAllLoop
      case Interrupted => EmitLoop?
      case TryAgain => WriteAllLoop?
      case Failed => true
    }
  }

  /** What each of them survives: write_all an interruption and a write of nothing, the
      bridge's loop a full pipe, the pump both of those that are errors. */
  lemma WhatEachSurvives(r: WriteResult)
    ensures WriteAllLoop.GivesUpOn(r) <==> r == Failed || r == TryAgain
    ensures EmitLoop.GivesUpOn(r) <==> r == Failed || r == Interrupted || r == Wrote(0)
    ensures PumpLoop.GivesUpOn(r) <==> r == Failed || r == Wrote(0)
  {}

  datatype WriteEnd = AllWritten | Broken | Blocked

  /** Bytes a script of results is ready to take. */
  function Offered(script: seq<WriteResult>): nat {
    if script == [] then 0 else
      Offered(script[..|script| - 1]) + match script[|script| - 1] { case Wrote(count) => count case _ => 0 }
  }

  /** The retrying write loops.  `script` is what the calls to write return, one by
      one; `Blocked` means it ended while the writer was still trying.  What has
      been written is always a prefix of the data: nothing is lost or repeated. */
  method Deliver<T>(data: seq<T>, writer: Writer, script: seq<WriteResult>) returns (written: seq<T>, end: WriteEnd)
    ensures written <= data
    ensures end.AllWritten? ==> written == data
    ensures end.Broken? ==> exists k :: 0 <= k < |script| && writer.GivesUpOn(script[k])
    ensures (forall k :: 0 <= k < |script| ==> !writer.GivesUpOn(script[k])) && |data| <= Offered(script) ==>
      end.AllWritten?
  {
    written := [];
    var k := 0;
    while |written| < |data|
      invariant k <= |script| && written <= data
      invariant forall i :: 0 <= i < k ==> !writer.GivesUpOn(script[i])
      invariant |written| == |data| || |written| == Offered(script[..k])
      decreases |script| - k
    {
      if k == |script| {
        assert script[..k] == script;
        return written, Blocked;
      }
      assert script[..k + 1][..k] == script[..k];
      if writer.GivesUpOn(script[k]) {
        return written, Broken;
      }
      if script[k].Wrote? {
        var left := |data| - |written|;
        written := data[..|written| + if script[k].count <= left then script[k].count else left];
      }
      k := k + 1;
    }
    end := AllWritten;
  }

  /** The stdio pump: chunk after chunk, each delivered whole before the next, until
      the input ends or a write fails. */
  method Pump<T>(chunks: seq<seq<T>>, scripts: seq<seq<WriteResult>>) returns (written: seq<T>, failed: bool)
    requires |scripts| == |chunks|
    ensures written <= Flatten(chunks)
    ensures !failed ==> written == Flatten(chunks)
  {
    written, failed := [], false;
    for i := 0 to |chunks|
      invariant written == Flatten(chunks[..i])
    {
      assert chunks[..i + 1] == chunks[..i] + [chunks[i]];
      FlattenOne(chunks[..i], chunks[i]);
      PrefixFlattens(chunks, i + 1);
      var piece, end := Deliver(chunks[i], PumpLoop, scripts[i]);
      if !end.AllWritten? {
        return written + piece, true;
      }
      written := written + piece;
    }
    assert chunks[..|chunks|] == chunks;
  }

  lemma PrefixFlattens<T>(chunks: seq<seq<T>>, i: nat)
    requires i <= |chunks|
    ensures Flatten(chunks[..i]) <= Flatten(chunks)
  {
    assert chunks == chunks[..i] + chunks[i..];
    FlattenAppend(chunks[..i], chunks[i..]);
  }

  // ------------------------------------------------- the E1 block writer

  const AUDIO_BLOCK_SAMPLES := 80
  const LINEAR_BYTES := 2 * AUDIO_BLOCK_SAMPLES

  function Encoded(encode: (byte, byte) -> byte, linear: seq<byte>): (alaw: seq<byte>)
    ensures |alaw| == |linear| / 2
  {
    seq(|linear| / 2, i requires 0 <= i < |linear| / 2 => encode(linear[2 * i], linear[2 * i + 1]))
  }

  /** The line holds one byte for every two, in order, made from those two. */
  ghost predicate Encodes(encode: (byte, byte) -> byte, bytes: seq<byte>, line: seq<byte>) {
    2 * |line| == |bytes| && forall i :: 0 <= i < |line| ==> line[i] == encode(bytes[2 * i], bytes[2 * i + 1])
  }

  lemma EncodedIff(encode: (byte, byte) -> byte, bytes: seq<byte>, line: seq<byte>)
    requires |bytes| % 2 == 0
    ensures line == Encoded(encode, bytes) <==> Encodes(encode, bytes, line)
  {}

  /** The first answer that is not an interruption, if there is one. */
  function FirstAnswer(answers: seq<WriteResult>): WriteResult {
    if answers == [] then Interrupted
    else if answers[0].Interrupted? then FirstAnswer(answers[1..])
    else answers[0]
  }

  lemma {:induction false} FirstAnswerIs(answers: seq<WriteResult>, k: nat)
    requires k < |answers| && !answers[k].Interrupted? && forall i :: 0 <= i < k ==> answers[i].Interrupted?
    ensures FirstAnswer(answers) == answers[k]
  {
    if k > 0 {
      FirstAnswerIs(answers[1..], k - 1);
    }
  }

  /** One call of the writer: what stdin gave (nothing on EOF or error) and what the
      B-channel answered, try by try. */
  datatype Turn = Turn(bytes: seq<byte>, answers: seq<WriteResult>) {
    function Answer(): WriteResult { FirstAnswer(answers) }
  }

  ghost predicate Fits(held: seq<byte>, t: Turn) {
    |held| <= LINEAR_BYTES && (|held| < LINEAR_BYTES ==> |held + t.bytes| <= LINEAR_BYTES)
    && (|Offer(held, t)| == LINEAR_BYTES ==> !t.Answer().Interrupted?)
    && (Sends(held, t) ==> t.Answer().count <= AUDIO_BLOCK_SAMPLES)
  }

  /** The bytes held before the channel is tried, and the bytes held after. */
  function Offer(held: seq<byte>, t: Turn): seq<byte> {
    if |held| < LINEAR_BYTES then held + t.bytes else held
  }

  predicate Sends(held: seq<byte>, t: Turn) {
    |Offer(held, t)| == LINEAR_BYTES && t.Answer().Wrote?
  }

  function Kept(held: seq<byte>, t: Turn): seq<byte> {
    if Sends(held, t) && t.Answer().count == AUDIO_BLOCK_SAMPLES then [] else Offer(held, t)
  }

  class BlockWriter {
    const encode: (byte, byte) -> byte
    const linear: array<byte>
    var linearLen: nat
    var line: seq<seq<byte>>  // what the B-channel took, write by write
    ghost var read: seq<byte>
    ghost var cleared: seq<seq<byte>>

    ghost predicate Valid()
      reads this
    {
      linear.Length == LINEAR_BYTES && linearLen <= LINEAR_BYTES
    }

    ghost function Held(): seq<byte>
      requires Valid()
      reads this, linear
    {
      linear[..linearLen]
    }

    ghost function Contents(): Written
      requires Valid()
      reads this, linear
    {
      Written(read, cleared, Held(), line)
    }

    constructor (encode: (byte, byte) -> byte)
      ensures Valid() && fresh(linear) && this.encode == encode && Contents() == NothingWritten
    {
      this.encode := encode;
      linear := new byte[LINEAR_BYTES](_ => 0);
      linearLen, line, read, cleared := 0, [], [], [];
    }

    method Pump(t: Turn)
      requires Valid() && Fits(Held(), t)
      modifies this, linear
      ensures Valid() && Contents() == AfterTurn(encode, old(Contents()), t)
    {
      ghost var offer := Offer(linear[..linearLen], t);
      if linearLen < LINEAR_BYTES {
        if t.bytes == [] {
          return;
        }
        forall i | 0 <= i < |t.bytes| {
          linear[linearLen + i] := t.bytes[i];
        }
        linearLen := linearLen + |t.bytes|;
        read := read + t.bytes;
      }
      assert linear[..linearLen] == offer;
      if linearLen < LINEAR_BYTES {
        return;
      }
      var alaw, k := Encoded(encode, linear[..linearLen]), 0;
      while t.answers[k].Interrupted?
        invariant k < |t.answers| && FirstAnswer(t.answers[k..]) == t.Answer()
        decreases |t.answers| - k
      {
        assert t.answers[k..][1..] == t.answers[k + 1..];
        k := k + 1;
      }
      var answer := t.answers[k];
      if answer.Wrote? {
        line := line + [alaw[..answer.count]];
        if answer.count == AUDIO_BLOCK_SAMPLES {
          cleared := cleared + [offer];
          linearLen := 0;
        }
      }
    }
  }

  /** A run of the writer: bytes read, blocks cleared, bytes held, and the line. */
  datatype Written = Written(read: seq<byte>, cleared: seq<seq<byte>>, held: seq<byte>, line: seq<seq<byte>>)

  const NothingWritten := Written([], [], [], [])

  ghost predicate FitsAll(turns: seq<Turn>, held: seq<byte>)
    decreases |turns|
  {
    turns == [] || (Fits(held, turns[0]) && FitsAll(turns[1..], Kept(held, turns[0])))
  }

  /** Every full block offered is refused, taken for none of its bytes, or taken whole. */
  ghost predicate NoneTorn(turns: seq<Turn>, held: seq<byte>)
    decreases |turns|
  {
    turns == [] || (!Torn(held, turns[0]) && NoneTorn(turns[1..], Kept(held, turns[0])))
  }

  predicate Torn(held: seq<byte>, t: Turn) {
    Sends(held, t) && t.Answer().count != 0 && t.Answer().count != AUDIO_BLOCK_SAMPLES
  }

  ghost function AfterTurn(encode: (byte, byte) -> byte, w: Written, t: Turn): Written
    requires Fits(w.held, t)
  {
    var offer := Offer(w.held, t);
    var whole := Sends(w.held, t) && t.Answer().count == AUDIO_BLOCK_SAMPLES;
    Written(if |w.held| < LINEAR_BYTES then w.read + t.bytes else w.read,
            if whole then w.cleared + [offer] else w.cleared,
            Kept(w.held, t),
            if Sends(w.held, t) then w.line + [Encoded(encode, offer)[..t.Answer().count]] else w.line)
  }

  ghost function RunWriter(encode: (byte, byte) -> byte, w: Written, turns: seq<Turn>): Written
    requires FitsAll(turns, w.held)
    decreases |turns|
  {
    if turns == [] then w else RunWriter(encode, AfterTurn(encode, w, turns[0]), turns[1..])
  }

  /** The bytes read are the blocks cleared and the bytes held. */
  ghost predicate KeepsBytes(w: Written) {
    && Flatten(w.cleared) + w.held == w.read && |w.held| <= LINEAR_BYTES
    && forall b :: b in w.cleared ==> |b| == LINEAR_BYTES
  }

  ghost predicate LineExact(encode: (byte, byte) -> byte, w: Written) {
    Flatten(w.line) == Encoded(encode, Flatten(w.cleared))
  }

  lemma {:induction false} EncodedAppend(encode: (byte, byte) -> byte, a: seq<byte>, b: seq<byte>)
    requires |a| % 2 == 0
    ensures Encoded(encode, a + b) == Encoded(encode, a) + Encoded(encode, b)
  {
    var x, y := Encoded(encode, a + b), Encoded(encode, a) + Encoded(encode, b);
    assert |x| == |y|;
    forall i | 0 <= i < |x|
      ensures x[i] == y[i]
    {
      if i >= |a| / 2 {
        assert (a + b)[2 * i] == b[2 * (i - |a| / 2)];
      }
    }
  }

  lemma {:induction false} FlattenEven(bs: seq<seq<byte>>)
    requires forall b :: b in bs ==> |b| == LINEAR_BYTES
    ensures |Flatten(bs)| == LINEAR_BYTES * |bs|
  {
    if bs != [] {
      FlattenEven(bs[1..]);
    }
  }

  lemma TurnKeepsBytes(encode: (byte, byte) -> byte, w: Written, t: Turn)
    requires KeepsBytes(w) && Fits(w.held, t)
    ensures KeepsBytes(AfterTurn(encode, w, t))
  {
    hide Encoded, Flatten;
    var offer := Offer(w.held, t);
    assert Flatten(w.cleared) + offer == AfterTurn(encode, w, t).read;
    FlattenOne(w.cleared, offer);
  }

  /** What one turn adds to the line, in bytes, and what it should have added. */
  lemma TurnLengths(encode: (byte, byte) -> byte, w: Written, t: Turn)
    requires KeepsBytes(w) && Fits(w.held, t)
    ensures var v := AfterTurn(encode, w, t);
      |Flatten(v.line)| - AUDIO_BLOCK_SAMPLES * |v.cleared| ==
        |Flatten(w.line)| - AUDIO_BLOCK_SAMPLES * |w.cleared| + if Torn(w.held, t) then t.Answer().count else 0
  {
    hide Flatten, Kept;
    if Sends(w.held, t) {
      FlattenOne(w.line, Encoded(encode, Offer(w.held, t))[..t.Answer().count]);
    }
  }

  lemma CleanTurnStaysExact(encode: (byte, byte) -> byte, w: Written, t: Turn)
    requires KeepsBytes(w) && Fits(w.held, t) && LineExact(encode, w) && !Torn(w.held, t)
    ensures LineExact(encode, AfterTurn(encode, w, t))
  {
    hide Encoded, Flatten, Kept;
    if Sends(w.held, t) {
      var offer := Offer(w.held, t);
      var piece := Encoded(encode, offer)[..t.Answer().count];
      assert t.Answer().count == AUDIO_BLOCK_SAMPLES ==> piece == Encoded(encode, offer);
      FlattenOne(w.line, piece);
      FlattenOne(w.cleared, offer);
      FlattenEven(w.cleared);
      EncodedAppend(encode, Flatten(w.cleared), offer);
    }
  }

  /** A torn write leaves bytes on the line that no later turn takes back. */
  lemma {:induction false} ExcessStays(encode: (byte, byte) -> byte, w: Written, turns: seq<Turn>)
    requires KeepsBytes(w) && FitsAll(turns, w.held)
    ensures var v := RunWriter(encode, w, turns);
      && KeepsBytes(v)
      && |Flatten(v.line)| - AUDIO_BLOCK_SAMPLES * |v.cleared| >= |Flatten(w.line)| - AUDIO_BLOCK_SAMPLES * |w.cleared|
      && (!NoneTorn(turns, w.held) ==>
        |Flatten(v.line)| - AUDIO_BLOCK_SAMPLES * |v.cleared| > |Flatten(w.line)| - AUDIO_BLOCK_SAMPLES * |w.cleared|)
    decreases |turns|
  {
    hide Flatten, KeepsBytes, AfterTurn, Fits, Kept;
    if turns != [] {
      FirstTurn(encode, w, turns);
      TurnKeepsBytes(encode, w, turns[0]);
      TurnLengths(encode, w, turns[0]);
      ExcessStays(encode, AfterTurn(encode, w, turns[0]), turns[1..]);
    }
  }

  lemma FirstTurn(encode: (byte, byte) -> byte, w: Written, turns: seq<Turn>)
    requires FitsAll(turns, w.held) && turns != []
    ensures Fits(w.held, turns[0]) && AfterTurn(encode, w, turns[0]).held == Kept(w.held, turns[0])
  {}

  lemma {:induction false} CleanRunStaysExact(encode: (byte, byte) -> byte, w: Written, turns: seq<Turn>)
    requires KeepsBytes(w) && FitsAll(turns, w.held) && LineExact(encode, w) && NoneTorn(turns, w.held)
    ensures LineExact(encode, RunWriter(encode, w, turns))
    decreases |turns|
  {
    hide KeepsBytes, LineExact, AfterTurn, Fits, Kept, Torn;
    if turns != [] {
      FirstTurn(encode, w, turns);
      TurnKeepsBytes(encode, w, turns[0]);
      CleanTurnStaysExact(encode, w, turns[0]);
      CleanRunStaysExact(encode, AfterTurn(encode, w, turns[0]), turns[1..]);
    }
  }

  lemma ExactLength(encode: (byte, byte) -> byte, w: Written)
    requires KeepsBytes(w) && LineExact(encode, w)
    ensures |Flatten(w.line)| == AUDIO_BLOCK_SAMPLES * |w.cleared|
  {
    FlattenEven(w.cleared);
  }

  lemma NothingIsExact(encode: (byte, byte) -> byte)
    ensures KeepsBytes(NothingWritten) && LineExact(encode, NothingWritten)
  {}

  /** Whatever the reads and the channel do, the blocks cleared are those of the bytes
      read; and the line carries each of them exactly once and in order if and only if
      no write took some but not all of a block.  A torn block is sent again from its
      start. */
  lemma WriterExactIff(encode: (byte, byte) -> byte, turns: seq<Turn>)
    requires FitsAll(turns, [])
    ensures var v := RunWriter(encode, NothingWritten, turns);
      && (Encodes(encode, Flatten(v.cleared), Flatten(v.line)) <==> NoneTorn(turns, []))
      && Flatten(v.cleared) + v.held == v.read
      && (|v.held| < 160 ==> v.cleared == Blocks(160, v.read))
  {
    hide RunWriter, NoneTorn, FitsAll, Encodes, Encoded, Flatten, Blocks;
    var w := NothingWritten;
    var v := RunWriter(encode, w, turns);
    NothingIsExact(encode);
    ExcessStays(encode, w, turns);
    FlattenEven(v.cleared);
    EncodedIff(encode, Flatten(v.cleared), Flatten(v.line));
    if NoneTorn(turns, []) {
      CleanRunStaysExact(encode, w, turns);
    } else if LineExact(encode, v) {
      ExactLength(encode, v);
    }
    if |v.held| < LINEAR_BYTES {
      BlocksUnique(LINEAR_BYTES, v.cleared, v.held);
    }
  }
}
