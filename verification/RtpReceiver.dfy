/** The receiving side of rtp_bridge: payload-type choice, 16-bit sequence filter,
    per-type statistics and the PCM it writes. */
module RtpReceiver {
  import opened Framing
  import opened RtpPacket

  const RX_MAX_SAMPC := 4096
  const RX_PT_BUCKETS := 128

  datatype PtStats = PtStats(pkts: nat, payMin: nat, payMax: nat, payTotal: nat, tsLast: uint32, tsValid: bool,
                             tsUnexpected: nat)

  const NoStats := PtStats(0, 0, 0, 0, 0, false, 0)

  /** The receiver's state.  `fed`, `accepted`, `gapReports` and `gapTotal` count what
      the sequence filter was given, let pass and reported; `pcm` is what stdout got. */
  datatype Rx = Rx(pt: byte, rxPt: byte, lastSeq: uint16, seqValid: bool, ctlDrops: nat, ptDrops: nat,
                   stats: seq<PtStats>, fed: nat, accepted: nat, gapReports: nat, gapTotal: nat, pcm: seq<int>)

  predicate ValidRx(s: Rx) {
    |s.stats| == RX_PT_BUCKETS && s.pt < 0x80
  }

  /** seq - last as a 16-bit two's-complement number. */
  function Ahead(seqNo: uint16, last: uint16): int {
    var d := (seqNo - last) % 0x1_0000;
    if d >= 0x8000 then d - 0x1_0000 else d
  }

  predicate Passes(s: Rx, seqNo: uint16) {
    !s.seqValid || Ahead(seqNo, s.lastSeq) > 0
  }

  function Filter(s: Rx, seqNo: uint16): (t: Rx)
    ensures ValidRx(s) ==> ValidRx(t)
  {
    var fed := s.(fed := s.fed + 1);
    if !Passes(s, seqNo) then fed else
      var gap := if s.seqValid then Ahead(seqNo, s.lastSeq) - 1 else 0;
      fed.(lastSeq := seqNo, seqValid := true, accepted := s.accepted + 1,
           gapReports := s.gapReports + (if gap > 0 then 1 else 0), gapTotal := s.gapTotal + gap)
  }

  function Counted(e: PtStats, paylen: nat, ts: uint32, frameSampc: nat): PtStats {
    PtStats(e.pkts + 1,
            if e.pkts == 0 || paylen < e.payMin then paylen else e.payMin,
            if e.pkts == 0 || paylen > e.payMax then paylen else e.payMax,
            e.payTotal + paylen, ts, true,
            if e.tsValid && (ts - e.tsLast) % 0x1_0000_0000 != frameSampc then e.tsUnexpected + 1 else e.tsUnexpected)
  }

  function Pcm(alaw: byte -> int, payload: seq<byte>): seq<int> {
    seq(|payload|, i requires 0 <= i < |payload| => alaw(payload[i]))
  }

  function Truncated(payload: seq<byte>): seq<byte> {
    if |payload| > RX_MAX_SAMPC then payload[..RX_MAX_SAMPC] else payload
  }

  function Play(alaw: byte -> int, frameSampc: nat, s: Rx, r: Parsed): (t: Rx)
    requires ValidRx(s) && r.pt < 0x80
    ensures ValidRx(t)
  {
    s.(stats := s.stats[r.pt := Counted(s.stats[r.pt], |r.payload|, r.ts, frameSampc)],
       pcm := s.pcm + Pcm(alaw, Truncated(r.payload)))
  }

  /** One datagram of an active call. */
  function Handle(alaw: byte -> int, frameSampc: nat, s: Rx, packet: seq<byte>): (t: Rx)
    requires ValidRx(s)
    ensures ValidRx(t)
  {
    match Parse(packet)
    case None => s
    case Some(r) =>
      var t := Filter(s, r.seqNo);
      if r.pt == s.pt || r.pt == s.rxPt then
        if Passes(s, r.seqNo) then Play(alaw, frameSampc, t, r) else t
      else if |r.payload| < 8 then
        if Passes(s, r.seqNo) then t.(ctlDrops := t.ctlDrops + 1) else t
      else if s.rxPt == 0 then
        if Passes(s, r.seqNo) then Play(alaw, frameSampc, t.(rxPt := r.pt), r) else t.(rxPt := r.pt)
      else
        if Passes(s, r.seqNo) then t.(ptDrops := t.ptDrops + 1) else t
  }

  /** estab_handler: the answer's payload type, and no adopted one. */
  function Establish(s: Rx, pt: byte): Rx {
    s.(pt := pt, rxPt := 0)
  }

  class Receiver {
    const alaw: byte -> int
    const frameSampc: nat
    var callActive: bool
    var pt: byte
    var rxPt: byte
    var rxLastSeq: uint16
    var rxSeqValid: bool
    var rxCtlDrops: nat
    var rxPtDrops: nat
    const rxStats: array<PtStats>
    var fed: nat
    var accepted: nat
    var gapReports: nat
    var gapTotal: nat
    var pcm: seq<int>

    ghost predicate Valid()
      reads this
    {
      rxStats.Length == RX_PT_BUCKETS && pt < 0x80
    }

    ghost function Contents(): (s: Rx)
      requires Valid()
      reads this, rxStats
      ensures ValidRx(s)
    {
      Rx(pt, rxPt, rxLastSeq, rxSeqValid, rxCtlDrops, rxPtDrops, rxStats[..], fed, accepted, gapReports, gapTotal, pcm)
    }

    constructor (alaw: byte -> int, frameSampc: nat)
      ensures Valid() && fresh(rxStats) && !callActive && this.alaw == alaw && this.frameSampc == frameSampc
      ensures Contents() == Silent(8)
    {
      this.alaw, this.frameSampc, callActive := alaw, frameSampc, false;
      pt, rxPt, rxLastSeq, rxSeqValid, rxCtlDrops, rxPtDrops := 8, 0, 0, false, 0, 0;
      rxStats := new PtStats[RX_PT_BUCKETS](_ => NoStats);
      fed, accepted, gapReports, gapTotal, pcm := 0, 0, 0, 0, [];
    }

    method Established(answered: byte)
      requires Valid() && answered < 0x80
      modifies `pt, `rxPt, `callActive
      ensures Valid() && callActive && Contents() == Establish(old(Contents()), answered)
    {
      pt, rxPt, callActive := answered, 0, true;
    }

    method AcceptRxSequence(seqNo: uint16) returns (ok: bool)
      requires Valid()
      modifies `rxLastSeq, `rxSeqValid, `fed, `accepted, `gapReports, `gapTotal
      ensures Valid() && ok == Passes(old(Contents()), seqNo)
      ensures Contents() == Filter(old(Contents()), seqNo)
    {
      fed := fed + 1;
      if rxSeqValid {
        var diff := Ahead(seqNo, rxLastSeq);
        if diff <= 0 {
          return false;
        }
        if diff > 1 {
          gapReports := gapReports + 1;
          gapTotal := gapTotal + (diff - 1);
        }
      }
      rxLastSeq := seqNo;
      rxSeqValid := true;
      accepted := accepted + 1;
      return true;
    }

    method RtpHandler(packet: seq<byte>)
      requires Valid()
      modifies this, rxStats
      ensures Valid() && callActive == old(callActive)
      ensures Contents() ==
        if old(callActive) then Handle(alaw, frameSampc, old(Contents()), packet) else old(Contents())
    {
      hide Parse, Counted, Pcm, Truncated;
      if !callActive {
        return;
      }
      var parsed := Parse(packet);
      if parsed.None? {
        return;
      }
      var r := parsed.value;
      if r.pt != pt && r.pt != rxPt {
        if |r.payload| < 8 {
          var ok := AcceptRxSequence(r.seqNo);
          if !ok {
            return;
          }
          rxCtlDrops := rxCtlDrops + 1;
          return;
        }
        if rxPt == 0 {
          rxPt := r.pt;
        } else {
          var ok := AcceptRxSequence(r.seqNo);
          if !ok {
            return;
          }
          rxPtDrops := rxPtDrops + 1;
          return;
        }
      }
      var ok := AcceptRxSequence(r.seqNo);
      if !ok {
        return;
      }
      rxStats[r.pt] := Counted(rxStats[r.pt], |r.payload|, r.ts, frameSampc);
      pcm := pcm + Pcm(alaw, Truncated(r.payload));
    }
  }

  function Silent(pt: byte): Rx {
    Rx(pt, 0, 0, false, 0, 0, seq(RX_PT_BUCKETS, _ => NoStats), 0, 0, 0, 0, [])
  }
}
