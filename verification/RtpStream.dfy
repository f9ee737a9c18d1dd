/** Whole runs of the receiver, on any datagrams: the sequence filter's accounts, the
    adopted payload type, and what is heard. */
module RtpStream {
  import opened Framing
  import opened RtpPacket
  import opened RtpReceiver

  const MAX_FRAME_SZ := 960

  /** The receiver after a list of datagrams. */
  function Run(alaw: byte -> int, frameSampc: nat, s: Rx, packets: seq<seq<byte>>): (t: Rx)
    requires ValidRx(s)
    ensures ValidRx(t)
  {
    if packets == [] then s else
      var n := |packets| - 1;
      Handle(alaw, frameSampc, Run(alaw, frameSampc, s, packets[..n]), packets[n])
  }

  // --------------------------------------------------- the filter's accounts

  /** Whatever branch its payload type takes, a well-formed packet feeds the sequence
      filter once, and any other packet changes nothing. */
  lemma FedExactlyOnce(alaw: byte -> int, frameSampc: nat, s: Rx, packet: seq<byte>)
    requires ValidRx(s)
    ensures var t := Handle(alaw, frameSampc, s, packet);
      match Parse(packet)
      case None => t == s
      case Some(r) =>
        && t.fed == s.fed + 1
        && t.accepted == s.accepted + (if Passes(s, r.seqNo) then 1 else 0)
        && (t.lastSeq, t.seqValid, t.gapReports, t.gapTotal) ==
           var f := Filter(s, r.seqNo); (f.lastSeq, f.seqValid, f.gapReports, f.gapTotal)
  {}

  /** The last accepted number is the first one, moved on by what was accepted since
      and what was reported missing. */
  ghost predicate Accounted(s: Rx, first: uint16) {
    s.seqValid && s.accepted >= 1 && (first + (s.accepted - 1) + s.gapTotal) % 0x1_0000 == s.lastSeq
  }

  lemma AheadIsCongruent(seqNo: uint16, last: uint16)
    ensures (last + Ahead(seqNo, last)) % 0x1_0000 == seqNo
  {}

  lemma SumModulo(a: int, b: int, c: uint16)
    requires a % 0x1_0000 == c
    ensures (a + b) % 0x1_0000 == (c + b) % 0x1_0000
  {}

  lemma FilterAccounts(s: Rx, seqNo: uint16, first: uint16)
    requires Accounted(s, first)
    ensures Accounted(Filter(s, seqNo), first)
  {
    if Passes(s, seqNo) {
      var d := Ahead(seqNo, s.lastSeq);
      AheadIsCongruent(seqNo, s.lastSeq);
      SumModulo(first + (s.accepted - 1) + s.gapTotal, d, s.lastSeq);
    }
  }

  /** The sequence number of the first well-formed packet. */
  function FirstNumber(packets: seq<seq<byte>>): Option<uint16> {
    if packets == [] then None else
      match Parse(packets[0])
      case Some(r) => Some(r.seqNo)
      case None => FirstNumber(packets[1..])
  }

  lemma {:induction false} FirstNumberNext(packets: seq<seq<byte>>, packet: seq<byte>)
    ensures FirstNumber(packets + [packet]) ==
      if FirstNumber(packets).Some? then FirstNumber(packets)
      else if Parse(packet).Some? then Some(Parse(packet).value.seqNo) else None
  {
    hide Parse;
    if packets == [] {
      assert [] + [packet] == [packet] && [packet][1..] == [];
    } else {
      FirstNumberNext(packets[1..], packet);
      assert (packets + [packet])[1..] == packets[1..] + [packet];
    }
  }

  /** Over every run on a filter that has accepted nothing: the first well-formed packet
      is accepted, and from its number to the last one accepted the accepted packets and
      the reported gaps make up the whole range, modulo 2^16. */
  lemma {:induction false} RunAccounts(alaw: byte -> int, frameSampc: nat, s: Rx, packets: seq<seq<byte>>)
    requires ValidRx(s) && !s.seqValid && s.accepted == 0 && s.gapTotal == 0
    ensures var t := Run(alaw, frameSampc, s, packets);
      match FirstNumber(packets)
      case None => !t.seqValid && t.accepted == 0 && t.gapTotal == 0
      case Some(first) => Accounted(t, first)
  {
    hide Handle, Parse;
    if packets != [] {
      var n := |packets| - 1;
      RunAccounts(alaw, frameSampc, s, packets[..n]);
      var t := Run(alaw, frameSampc, s, packets[..n]);
      FedExactlyOnce(alaw, frameSampc, t, packets[n]);
      FirstNumberNext(packets[..n], packets[n]);
      assert packets == packets[..n] + [packets[n]];
      if Parse(packets[n]).Some? && t.seqValid {
        FilterAccounts(t, Parse(packets[n]).value.seqNo, FirstNumber(packets[..n]).value);
      }
    }
  }

  /** An adopted payload type stays until the call is established again. */
  lemma {:induction false} AdoptedTypeStays(alaw: byte -> int, frameSampc: nat, s: Rx, packets: seq<seq<byte>>)
    requires ValidRx(s) && s.rxPt != 0
    ensures Run(alaw, frameSampc, s, packets).rxPt == s.rxPt && Run(alaw, frameSampc, s, packets).pt == s.pt
  {
    hide Parse;
    if packets != [] {
      AdoptedTypeStays(alaw, frameSampc, s, packets[..|packets| - 1]);
    }
  }

  /** Samples that are the bytes, each decoded. */
  ghost predicate Decodes(alaw: byte -> int, bytes: seq<byte>, samples: seq<int>) {
    |samples| == |bytes| && forall i :: 0 <= i < |bytes| ==> samples[i] == alaw(bytes[i])
  }

  lemma PcmDecodes(alaw: byte -> int, bytes: seq<byte>)
    ensures Decodes(alaw, bytes, Pcm(alaw, bytes))
  {}

  /** Exactly the packets whose audio is heard: of the negotiated or adopted type, or
      long enough to be adopted.  As 0 stands for "none adopted", packets of type 0
      are heard too until another type is adopted.  Of a payload the first 4096 bytes are
      decoded.  The others are counted as control events or as strays. */
  lemma HeardIff(alaw: byte -> int, frameSampc: nat, s: Rx, packet: seq<byte>)
    requires ValidRx(s) && Parse(packet).Some? && Passes(s, Parse(packet).value.seqNo)
    ensures var r, t := Parse(packet).value, Handle(alaw, frameSampc, s, packet);
      var own := r.pt == s.pt || r.pt == s.rxPt;
      var heard := own || (s.rxPt == 0 && |r.payload| >= 8);
      && s.pcm <= t.pcm
      && Decodes(alaw, if !heard then [] else if |r.payload| <= 4096 then r.payload else r.payload[..4096],
                 t.pcm[|s.pcm|..])
      && t.rxPt == (if heard && !own then r.pt else s.rxPt)
      && t.ctlDrops == s.ctlDrops + (if !own && |r.payload| < 8 then 1 else 0)
      && t.ptDrops == s.ptDrops + (if !heard && |r.payload| >= 8 then 1 else 0)
      && t.stats == if heard then s.stats[r.pt := Counted(s.stats[r.pt], |r.payload|, r.ts, frameSampc)] else s.stats
  {
    hide Parse, Counted;
    var r, t := Parse(packet).value, Handle(alaw, frameSampc, s, packet);
    PcmDecodes(alaw, Truncated(r.payload));
    assert (s.pcm + Pcm(alaw, Truncated(r.payload)))[|s.pcm|..] == Pcm(alaw, Truncated(r.payload));
  }

  /** A packet the sequence filter rejects is not heard and not counted; but one of a new
      type, long enough, is adopted all the same. */
  lemma RejectedStillAdopts(alaw: byte -> int, frameSampc: nat, s: Rx, packet: seq<byte>)
    requires ValidRx(s) && Parse(packet).Some? && !Passes(s, Parse(packet).value.seqNo)
    ensures var r := Parse(packet).value;
      Handle(alaw, frameSampc, s, packet) == s.(fed := s.fed + 1,
        rxPt := if s.rxPt == 0 && r.pt != s.pt && |r.payload| >= 8 then r.pt else s.rxPt)
  {
    hide Parse;
  }

  /** Establishing a call again forgets the adopted type: its short packets, heard
      before, are control events after. */
  lemma EstablishForgets(alaw: byte -> int, frameSampc: nat, s: Rx, pt: byte, packet: seq<byte>)
    requires ValidRx(s) && pt < 0x80 && Parse(packet).Some? && Passes(s, Parse(packet).value.seqNo)
    requires s.rxPt != 0 && Parse(packet).value.pt == s.rxPt != pt && 0 < |Parse(packet).value.payload| < 8
    ensures |Handle(alaw, frameSampc, s, packet).pcm| > |s.pcm|
    ensures Handle(alaw, frameSampc, Establish(s, pt), packet).pcm == s.pcm
    ensures Handle(alaw, frameSampc, Establish(s, pt), packet).ctlDrops == s.ctlDrops + 1
  {
    hide Parse;
  }

  // --------------------------------------------------- statistics

  /** The statistics of a type after packets of these payload lengths and timestamps. */
  function Tally(packets: seq<(nat, uint32)>, frameSampc: nat): PtStats {
    if packets == [] then NoStats else
      var n := |packets| - 1;
      Counted(Tally(packets[..n], frameSampc), packets[n].0, packets[n].1, frameSampc)
  }

  function TotalLength(packets: seq<(nat, uint32)>): nat {
    if packets == [] then 0 else packets[0].0 + TotalLength(packets[1..])
  }

  /** Packet k does not follow the one before it by one frame. */
  predicate Irregular(packets: seq<(nat, uint32)>, frameSampc: nat, k: int) {
    0 < k < |packets| &&
    var now: int, before: int := packets[k].1, packets[k - 1].1;
    (now - before) % 0x1_0000_0000 != frameSampc
  }

  lemma {:induction false} TotalNext(packets: seq<(nat, uint32)>, p: (nat, uint32))
    ensures TotalLength(packets + [p]) == TotalLength(packets) + p.0
  {
    if packets == [] {
      assert [] + [p] == [p];
    } else {
      TotalNext(packets[1..], p);
      assert (packets + [p])[1..] == packets[1..] + [p];
    }
  }

  function IrregularSteps(packets: seq<(nat, uint32)>, frameSampc: nat): set<int> {
    set k | 0 < k < |packets| && Irregular(packets, frameSampc, k)
  }

  /** They are the number of packets, their least and greatest length, the sum of the
      lengths, and the number of irregular steps of the timestamp. */
  lemma {:induction false} TallyMeans(packets: seq<(nat, uint32)>, frameSampc: nat)
    ensures var e := Tally(packets, frameSampc);
      && e.pkts == |packets| && e.payTotal == TotalLength(packets)
      && e.tsUnexpected == |IrregularSteps(packets, frameSampc)|
      && (packets != [] ==> e.tsValid && e.tsLast == packets[|packets| - 1].1)
      && (packets == [] ==> e == NoStats)
      && (forall k :: 0 <= k < |packets| ==> e.payMin <= packets[k].0 <= e.payMax)
      && (packets != [] ==> exists k :: 0 <= k < |packets| && packets[k].0 == e.payMin)
      && (packets != [] ==> exists k :: 0 <= k < |packets| && packets[k].0 == e.payMax)
  {
    if packets == [] {
      assert IrregularSteps(packets, frameSampc) == {};
    } else {
      var n := |packets| - 1;
      var before := packets[..n];
      TallyMeans(before, frameSampc);
      TotalNext(before, packets[n]);
      assert packets == before + [packets[n]];
      StepsNext(packets, frameSampc);
      var e, f := Tally(before, frameSampc), Tally(packets, frameSampc);
      if n > 0 {
        var a :| 0 <= a < n && before[a].0 == e.payMin;
        var b :| 0 <= b < n && before[b].0 == e.payMax;
        assert packets[a].0 == e.payMin && packets[b].0 == e.payMax;
      }
      assert packets[n].0 == f.payMin || e.payMin == f.payMin;
      assert packets[n].0 == f.payMax || e.payMax == f.payMax;
    }
  }

  lemma StepsNext(packets: seq<(nat, uint32)>, frameSampc: nat)
    requires packets != []
    ensures var n := |packets| - 1;
      |IrregularSteps(packets, frameSampc)|
        == |IrregularSteps(packets[..n], frameSampc)| + if Irregular(packets, frameSampc, n) then 1 else 0
  {
    var n := |packets| - 1;
    var before := IrregularSteps(packets[..n], frameSampc);
    assert forall k :: 0 < k < n ==> (Irregular(packets, frameSampc, k) <==> Irregular(packets[..n], frameSampc, k));
    assert n !in before;
    assert IrregularSteps(packets, frameSampc) == if Irregular(packets, frameSampc, n) then before + {n} else before;
  }

  // --------------------------------------------------- true indices

  /** For packets less than 2^16 apart the filter tells newer from older exactly
      within half that range. */
  lemma FilterRightIff(last: nat, index: nat, seq0: uint16)
    requires -0x1_0000 < index - last < 0x1_0000
    ensures (Ahead((seq0 + index) % 0x1_0000, (seq0 + last) % 0x1_0000) > 0 <==> index > last)
      <==> -0x8000 <= index - last < 0x8000
  {
    AheadOfIndices(last, index, seq0);
  }

  lemma AheadOfIndices(last: nat, index: nat, seq0: uint16)
    ensures var d := (index - last) % 0x1_0000;
      Ahead((seq0 + index) % 0x1_0000, (seq0 + last) % 0x1_0000) == if d >= 0x8000 then d - 0x1_0000 else d
  {
    var a, b := seq0 + index, seq0 + last;
    assert a - b == a % 0x1_0000 - b % 0x1_0000 + 0x1_0000 * (a / 0x1_0000 - b / 0x1_0000);
  }
}
