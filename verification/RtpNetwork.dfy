/** End to end: a sender of fixed-size frames, a network that drops, repeats and
    reorders as it likes, and the receiver.  What is heard is exactly the
    left-to-right maxima of the packets in the order they arrive. */
module RtpNetwork {
  import opened FixedPoint
  import opened Framing
  import opened RtpPacket
  import opened RtpReceiver
  import opened RtpStream

  datatype Source = Source(pt: byte, ssrc: uint32, seq0: uint16, ts0: uint32, frames: seq<seq<byte>>)

  ghost predicate ValidSource(w: Source, frameSampc: nat) {
    && w.pt < 0x80 && 0 < frameSampc <= MAX_FRAME_SZ
    && forall k :: 0 <= k < |w.frames| ==> |w.frames[k]| == frameSampc
  }

  function SentBy(w: Source, k: nat): seq<byte>
    requires k < |w.frames|
  {
    SentPacket(w.pt, w.ssrc, w.seq0, w.ts0, w.frames, k)
  }

  /** What the network delivers: any list of indices of sent packets. */
  ghost predicate Arrivals(w: Source, indices: seq<nat>) {
    forall i :: 0 <= i < |indices| ==> indices[i] < |w.frames|
  }

  function Delivered(w: Source, indices: seq<nat>): seq<seq<byte>>
    requires forall i :: 0 <= i < |indices| ==> indices[i] < |w.frames|
  {
    seq(|indices|, i requires 0 <= i < |indices| => SentBy(w, indices[i]))
  }

  // ------------------------------------------------------ left-to-right maxima

  predicate Tops(x: nat, indices: seq<nat>) {
    forall j :: 0 <= j < |indices| ==> indices[j] < x
  }

  function Maxima(indices: seq<nat>): seq<nat> {
    if indices == [] then [] else
      var n := |indices| - 1;
      if Tops(indices[n], indices[..n]) then Maxima(indices[..n]) + [indices[n]] else Maxima(indices[..n])
  }

  function Last(s: seq<nat>): nat
    requires s != []
  {
    s[|s| - 1]
  }

  /** The last maximum is the greatest index so far, and the maxima increase: none
      is heard twice or out of order. */
  lemma {:induction false} MaximaIncrease(indices: seq<nat>)
    ensures var m := Maxima(indices);
      && (m == [] <==> indices == [])
      && (forall j :: 0 <= j < |indices| ==> indices[j] <= Last(m))
      && (forall k :: 0 <= k < |m| ==> m[k] in indices)
      && (forall i, k :: 0 <= i < k < |m| ==> m[i] < m[k])
  {
    if indices != [] {
      var n := |indices| - 1;
      MaximaIncrease(indices[..n]);
      assert indices == indices[..n] + [indices[n]];
    }
  }

  lemma TopsIffAboveLast(x: nat, indices: seq<nat>)
    ensures indices != [] ==> Maxima(indices) != []
    ensures Tops(x, indices) <==> indices == [] || x > Last(Maxima(indices))
  {
    MaximaIncrease(indices);
  }

  /** Every packet arrives within 2^15 of the newest one heard. */
  ghost predicate InRange(indices: seq<nat>) {
    forall i :: 0 < i < |indices| ==> Near(indices[i], indices[..i])
  }

  ghost predicate Near(x: nat, before: seq<nat>)
    requires before != []
  {
    MaximaIncrease(before);
    -0x8000 <= x - Last(Maxima(before)) < 0x8000
  }

  // ------------------------------------------------------ what is heard

  /** The frames at these indices. */
  function FramesOf(w: Source, m: seq<nat>): seq<seq<byte>>
    requires forall k :: 0 <= k < |m| ==> m[k] < |w.frames|
  {
    seq(|m|, k requires 0 <= k < |m| => w.frames[m[k]])
  }

  function SeqOf(w: Source, k: nat): uint16 { (w.seq0 + k) % 0x1_0000 }

  function TsOf(w: Source, frameSampc: nat, k: nat): uint32 { (w.ts0 + k * frameSampc) % 0x1_0000_0000 }

  lemma {:induction false} FramesLength(frames: seq<seq<byte>>, frameSampc: nat)
    requires forall k :: 0 <= k < |frames| ==> |frames[k]| == frameSampc
    ensures |Flatten(frames)| == |frames| * frameSampc
  {
    if frames != [] {
      FramesLength(frames[1..], frameSampc);
      assert |frames| * frameSampc == (|frames| - 1) * frameSampc + frameSampc;
    }
  }

  lemma SentIsRead(w: Source, frameSampc: nat, k: nat)
    requires ValidSource(w, frameSampc) && k < |w.frames|
    ensures Parse(SentBy(w, k)) == Some(Parsed(w.pt, SeqOf(w, k), TsOf(w, frameSampc, k), w.frames[k]))
  {
    FramesLength(w.frames[..k], frameSampc);
    ParseSent(w.pt, k == 0, SeqOf(w, k), TsOf(w, frameSampc, k), w.ssrc, w.frames[k]);
  }

  /** The sender's type is the one negotiated, or 0, or its frames are long enough for
      another type to be adopted. */
  predicate Hearable(w: Source, frameSampc: nat, negotiated: byte) {
    w.pt == negotiated || w.pt == 0 || frameSampc >= 8
  }

  /** The adopted type after arrivals whose maxima are m. */
  function Adopted(w: Source, negotiated: byte, m: seq<nat>): byte {
    if m == [] || w.pt == negotiated then 0 else w.pt
  }

  /** The receiver after arrivals whose maxima are m. */
  ghost predicate Follows(alaw: byte -> int, frameSampc: nat, negotiated: byte, w: Source, m: seq<nat>, t: Rx)
    requires ValidSource(w, frameSampc) && forall k :: 0 <= k < |m| ==> m[k] < |w.frames|
  {
    && ValidRx(t) && t.pt == negotiated && t.rxPt == Adopted(w, negotiated, m)
    && Decodes(alaw, Flatten(FramesOf(w, m)), t.pcm) && t.accepted == |m|
    && t.stats[w.pt].pkts == |m| && t.stats[w.pt].payTotal == |m| * frameSampc
    && (m != [] ==> t.stats[w.pt].payMin == t.stats[w.pt].payMax == frameSampc)
    && t.stats[w.pt].tsUnexpected == t.gapReports
    && (t.seqValid <==> m != []) && (t.stats[w.pt].tsValid <==> m != [])
    && (m != [] ==>
      && t.lastSeq == SeqOf(w, Last(m)) && t.stats[w.pt].tsLast == TsOf(w, frameSampc, Last(m))
      && t.accepted + t.gapTotal == Last(m) - m[0] + 1)
    && (m == [] ==> t.gapTotal == 0)
  }

  /** The timestamp steps by one frame exactly when the sequence number steps by one. */
  lemma TimestampStep(w: Source, frameSampc: nat, last: nat, k: nat)
    requires 0 < frameSampc <= MAX_FRAME_SZ && last < k < last + 0x8000
    ensures (TsOf(w, frameSampc, k) - TsOf(w, frameSampc, last)) % 0x1_0000_0000 == frameSampc <==> k == last + 1
  {
    var d := k - last;
    assert k * frameSampc - last * frameSampc == d * frameSampc;
    var a, b := w.ts0 + k * frameSampc, w.ts0 + last * frameSampc;
    MulBounds(d, frameSampc);
    DifferenceModulo(a, b, d * frameSampc);
  }

  lemma MulBounds(d: nat, f: nat)
    requires 0 < f <= MAX_FRAME_SZ && 0 < d < 0x8000
    ensures 0 <= d * f < 0x1_0000_0000 && (d * f == f <==> d == 1)
  {
    MulMonotone(d, 0x8000, f);
    if d > 1 {
      MulMonotone(2, d, f);
    }
  }

  lemma DifferenceModulo(a: int, b: int, d: int)
    requires a - b == d && 0 <= d < 0x1_0000_0000
    ensures (a % 0x1_0000_0000 - b % 0x1_0000_0000) % 0x1_0000_0000 == d
  {}

  lemma ArrivalStep(alaw: byte -> int, frameSampc: nat, negotiated: byte, w: Source, m: seq<nat>, t: Rx, k: nat)
    requires ValidSource(w, frameSampc) && k < |w.frames| && Hearable(w, frameSampc, negotiated)
    requires forall i :: 0 <= i < |m| ==> m[i] < |w.frames|
    requires Follows(alaw, frameSampc, negotiated, w, m, t)
    requires m != [] ==> -0x8000 <= k - Last(m) < 0x8000 && m[0] <= Last(m)
    ensures var u := Handle(alaw, frameSampc, t, SentBy(w, k));
      Follows(alaw, frameSampc, negotiated, w, if m == [] || k > Last(m) then m + [k] else m, u)
  {
    hide Parse, SentBy, TsOf, SeqOf;
    SentIsRead(w, frameSampc, k);
    if m != [] {
      IndexAhead(w, Last(m), k);
      if k > Last(m) {
        TimestampStep(w, frameSampc, Last(m), k);
      }
    }
    if m == [] || k > Last(m) {
      assert FramesOf(w, m + [k]) == FramesOf(w, m) + [w.frames[k]];
      FlattenOne(FramesOf(w, m), w.frames[k]);
      PcmDecodes(alaw, w.frames[k]);
      Distribute(|m|, 1, frameSampc);
    }
  }

  lemma IndexAhead(w: Source, last: nat, k: nat)
    requires -0x8000 <= k - last < 0x8000
    ensures Ahead(SeqOf(w, k), SeqOf(w, last)) == k - last
  {
    AheadOfIndices(last, k, w.seq0);
  }

  /** The main result.  For every network, and every negotiated type that lets the
      sender's be heard or adopted, as long as arrivals stay within 2^15 of the newest
      packet heard: the PCM written is the bytes of the frames of the left-to-right maxima,
      in order and once each, decoded; accepted packets and reported gaps span exactly the
      range heard; and the timestamp is found irregular exactly at the gaps. */
  lemma {:induction false} NetworkTheorem(alaw: byte -> int, frameSampc: nat, negotiated: byte, w: Source,
                                          indices: seq<nat>)
    requires ValidSource(w, frameSampc) && Arrivals(w, indices) && InRange(indices)
    requires negotiated < 0x80 && Hearable(w, frameSampc, negotiated)
    ensures forall k :: 0 <= k < |Maxima(indices)| ==> Maxima(indices)[k] < |w.frames|
    ensures Follows(alaw, frameSampc, negotiated, w, Maxima(indices),
                    Run(alaw, frameSampc, Establish(Silent(8), negotiated), Delivered(w, indices)))
  {
    hide Handle, SentBy, Near;
    MaximaIncrease(indices);
    if indices != [] {
      var n := |indices| - 1;
      var before := indices[..n];
      forall i | 0 < i < |before|
        ensures Near(before[i], before[..i])
      {
        assert before[..i] == indices[..i] && Near(indices[i], indices[..i]);
      }
      NetworkTheorem(alaw, frameSampc, negotiated, w, before);
      MaximaIncrease(before);
      TopsIffAboveLast(indices[n], before);
      assert Delivered(w, indices)[..n] == Delivered(w, before);
      assert n > 0 ==> Near(indices[n], before);
      NearBounds(indices[n], before);
      ArrivalStep(alaw, frameSampc, negotiated, w, Maxima(before),
                  Run(alaw, frameSampc, Establish(Silent(8), negotiated), Delivered(w, before)), indices[n]);
    }
  }

  /** From any other sender nothing is heard, whatever the network does. */
  lemma {:induction false} UnhearableIsSilent(alaw: byte -> int, frameSampc: nat, negotiated: byte, w: Source,
                                              indices: seq<nat>)
    requires ValidSource(w, frameSampc) && Arrivals(w, indices)
    requires negotiated < 0x80 && !Hearable(w, frameSampc, negotiated)
    ensures var t := Run(alaw, frameSampc, Establish(Silent(8), negotiated), Delivered(w, indices));
      t.pcm == [] && t.pt == negotiated && t.rxPt == 0
  {
    hide Parse, SentBy;
    if indices != [] {
      var n := |indices| - 1;
      UnhearableIsSilent(alaw, frameSampc, negotiated, w, indices[..n]);
      assert Delivered(w, indices)[..n] == Delivered(w, indices[..n]);
      SentIsRead(w, frameSampc, indices[n]);
    }
  }

  lemma NearBounds(x: nat, before: seq<nat>)
    ensures before != [] && Near(x, before) ==> Maxima(before) != [] && -0x8000 <= x - Last(Maxima(before)) < 0x8000
  {
    MaximaIncrease(before);
  }

  // ------------------------------------------------------ a faithful network

  function UpTo(n: nat): seq<nat> { seq(n, i => i) }

  lemma {:induction false} AllAreMaxima(n: nat)
    ensures Maxima(UpTo(n)) == UpTo(n)
  {
    if n > 0 {
      AllAreMaxima(n - 1);
      assert UpTo(n)[..n - 1] == UpTo(n - 1);
    }
  }

  lemma AllInRange(n: nat)
    ensures InRange(UpTo(n))
  {
    forall i | 0 < i < n
      ensures Near(UpTo(n)[i], UpTo(n)[..i])
    {
      AllAreMaxima(i);
      hide Maxima;
      assert UpTo(n)[..i] == UpTo(i);
    }
  }

  lemma AllFrames(w: Source)
    ensures forall k :: 0 <= k < |w.frames| ==> UpTo(|w.frames|)[k] < |w.frames|
    ensures FramesOf(w, UpTo(|w.frames|)) == w.frames
  {}

  /** Without loss and in order, everything sent is heard and no gap is reported. */
  lemma FaithfulNetwork(alaw: byte -> int, frameSampc: nat, negotiated: byte, w: Source)
    requires ValidSource(w, frameSampc) && negotiated < 0x80 && Hearable(w, frameSampc, negotiated)
    ensures var t := Run(alaw, frameSampc, Establish(Silent(8), negotiated), Delivered(w, UpTo(|w.frames|)));
      && |t.pcm| == |Flatten(w.frames)| && t.gapTotal == 0
      && forall i :: 0 <= i < |t.pcm| ==> t.pcm[i] == alaw(Flatten(w.frames)[i])
  {
    var n := |w.frames|;
    AllAreMaxima(n);
    AllInRange(n);
    NetworkTheorem(alaw, frameSampc, negotiated, w, UpTo(n));
    AllFrames(w);
  }
}
