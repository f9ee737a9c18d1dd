/** RTP packets: what rtp_bridge sends, what it reads, and the format of section 5.1
    and 5.3.1 of RFC 3550 between them. */
module RtpPacket {
  import opened FixedPoint
  import opened Framing

  type uint16 = x: int | 0 <= x < 0x1_0000
  type uint32 = x: int | 0 <= x < 0x1_0000_0000

  datatype Option<+T> = None | Some(value: T)

  function Be16(v: uint16): (b: seq<byte>)
    ensures |b| == 2
  {
    [v / 0x100, v % 0x100]
  }

  function Be32(v: uint32): (b: seq<byte>)
    ensures |b| == 4
  {
    [v / 0x100_0000, v / 0x1_0000 % 0x100, v / 0x100 % 0x100, v % 0x100]
  }

  function FromBe16(b: seq<byte>): uint16
    requires |b| == 2
  {
    b[0] as int * 0x100 + b[1] as int
  }

  function FromBe32(b: seq<byte>): uint32
    requires |b| == 4
  {
    b[0] as int * 0x100_0000 + b[1] as int * 0x1_0000 + b[2] as int * 0x100 + b[3] as int
  }

  lemma BigEndian16(u: uint16, a: seq<byte>)
    requires |a| == 2
    ensures FromBe16(Be16(u)) == u && Be16(FromBe16(a)) == a
  {}

  lemma Written32(v: uint32)
    ensures FromBe32(Be32(v)) == v
  {
    var a, d := v / 0x100, v % 0x100;
    var c := a / 0x100;
    Quotient(v, 0x1_0000, c, a % 0x100 * 0x100 + d);
    Quotient(v, 0x100_0000, c / 0x100, c % 0x100 * 0x1_0000 + a % 0x100 * 0x100 + d);
  }

  lemma Read32(b: seq<byte>)
    requires |b| == 4
    ensures Be32(FromBe32(b)) == b
  {
    var v: int, b0: int, b1: int, b2: int, b3: int := FromBe32(b), b[0], b[1], b[2], b[3];
    Quotient(v, 0x100, b0 * 0x1_0000 + b1 * 0x100 + b2, b3);
    Quotient(v, 0x1_0000, b0 * 0x100 + b1, b2 * 0x100 + b3);
    Quotient(v, 0x100_0000, b0, b1 * 0x1_0000 + b2 * 0x100 + b3);
    Quotient(b0 * 0x1_0000 + b1 * 0x100 + b2, 0x100, b0 * 0x100 + b1, b2);
    Quotient(b0 * 0x100 + b1, 0x100, b0, b1);
  }

  lemma BigEndian32(v: uint32, b: seq<byte>)
    requires |b| == 4
    ensures FromBe32(Be32(v)) == v && Be32(FromBe32(b)) == b
  {
    Written32(v);
    Read32(b);
  }

  // ---------------------------------------------------------- sending

  /** The twelve bytes send_rtp writes before the payload. */
  function Header(pt: byte, marker: bool, seqNo: uint16, ts: uint32, ssrc: uint32): (h: seq<byte>)
    ensures |h| == 12
  {
    [0x80, pt % 0x80 + if marker then 0x80 else 0] + Be16(seqNo) + Be32(ts) + Be32(ssrc)
  }

  /** Packet k of a sender that started with these numbers. */
  function SentPacket(pt: byte, ssrc: uint32, seq0: uint16, ts0: uint32, payloads: seq<seq<byte>>, k: nat): seq<byte>
    requires k < |payloads|
  {
    Header(pt, k == 0, (seq0 + k) % 0x1_0000, (ts0 + |Flatten(payloads[..k])|) % 0x1_0000_0000, ssrc) + payloads[k]
  }

  ghost function SentStream(pt: byte, ssrc: uint32, seq0: uint16, ts0: uint32,
                            payloads: seq<seq<byte>>): seq<seq<byte>>
  {
    seq(|payloads|, k requires 0 <= k < |payloads| => SentPacket(pt, ssrc, seq0, ts0, payloads, k))
  }

  /** Sending one more payload leaves the earlier packets as they are. */
  lemma StreamExtends(pt: byte, ssrc: uint32, seq0: uint16, ts0: uint32, was: seq<seq<byte>>, payload: seq<byte>)
    ensures SentStream(pt, ssrc, seq0, ts0, was + [payload]) == SentStream(pt, ssrc, seq0, ts0, was)
      + [Header(pt, was == [], (seq0 + |was|) % 0x1_0000, (ts0 + |Flatten(was)|) % 0x1_0000_0000, ssrc) + payload]
  {
    hide Header, Flatten;
    assert forall k :: 0 <= k <= |was| ==> (was + [payload])[..k] == was[..k];
    assert was[..|was|] == was;
  }

  lemma WrapAdd(a: nat, b: nat, m: nat)
    requires m > 0
    ensures (a % m + b) % m == (a + b) % m
  {
    var c := a % m + b;
    Distribute(a / m, c / m, m);
    Quotient(a + b, m, a / m + c / m, c % m);
  }

  class Sender {
    const pt: byte
    const ssrc: uint32
    ghost const seq0: uint16
    ghost const ts0: uint32
    var marker: bool
    var rtpSeq: uint16
    var rtpTs: uint32
    var sent: seq<seq<byte>>
    ghost var payloads: seq<seq<byte>>

    /** The packets sent are those of the payloads given, numbered from the start. */
    ghost predicate Valid()
      reads this
    {
      && marker == (payloads == []) && rtpSeq == (seq0 + |payloads|) % 0x1_0000
      && rtpTs == (ts0 + |Flatten(payloads)|) % 0x1_0000_0000
      && sent == SentStream(pt, ssrc, seq0, ts0, payloads)
    }

    constructor (pt: byte, ssrc: uint32, rtpSeq: uint16, rtpTs: uint32)
      ensures this.pt == pt && this.ssrc == ssrc && seq0 == rtpSeq && ts0 == rtpTs
      ensures Valid() && payloads == []
    {
      this.pt, this.ssrc, this.rtpSeq, this.rtpTs := pt, ssrc, rtpSeq, rtpTs;
      seq0, ts0, payloads := rtpSeq, rtpTs, [];
      marker, sent := true, [];
    }

    method SendRtp(payload: seq<byte>)
      requires Valid()
      modifies this
      ensures Valid() && payloads == old(payloads) + [payload]
      ensures old(sent) <= sent
    {
      ghost var was := payloads;
      var hdr := Header(pt, marker, rtpSeq, rtpTs, ssrc);
      marker := false;
      rtpSeq := (rtpSeq + 1) % 0x1_0000;
      rtpTs := (rtpTs + |payload|) % 0x1_0000_0000;
      sent := sent + [hdr + payload];
      payloads := payloads + [payload];
      hide Header, Flatten, SentStream;
      WrapAdd(seq0 + |was|, 1, 0x1_0000);
      WrapAdd(ts0 + |Flatten(was)|, |payload|, 0x1_0000_0000);
      FlattenOne(was, payload);
      StreamExtends(pt, ssrc, seq0, ts0, was, payload);
    }
  }

  // ---------------------------------------------------------- parsing

  /** What rtp_handler takes from a packet it does not ignore. */
  datatype Parsed = Parsed(pt: byte, seqNo: uint16, ts: uint32, payload: seq<byte>)

  /** Where the payload starts, or nothing when the header runs past the packet. */
  function HeaderLen(p: seq<byte>): (r: Option<nat>)
    ensures r.Some? ==> 12 <= r.value <= |p|
  {
    if |p| < 12 then None else
      var fixed := 12 + 4 * (p[0] % 0x10);
      if |p| < fixed then None else
      if p[0] / 0x10 % 2 == 0 then Some(fixed) else
      if |p| < fixed + 4 then None else
      var extended := fixed + 4 + 4 * FromBe16(p[fixed + 2..fixed + 4]);
      if |p| < extended then None else Some(extended)
  }

  function Parse(p: seq<byte>): (r: Option<Parsed>)
    ensures r.Some? ==> r.value.pt < 0x80
  {
    if |p| < 12 || p[0] / 0x40 != 2 then None else
      match HeaderLen(p)
      case None => None
      case Some(hdrlen) =>
        var padlen := if p[0] / 0x20 % 2 == 1 then p[|p| - 1] else 0;
        if padlen > |p| - hdrlen then None else
          Some(Parsed(p[1] % 0x80, FromBe16(p[2..4]), FromBe32(p[4..8]), p[hdrlen..|p| - padlen]))
  }

  /** A sent packet is read back as it was written. */
  lemma ParseSent(pt: byte, marker: bool, seqNo: uint16, ts: uint32, ssrc: uint32, payload: seq<byte>)
    ensures Parse(Header(pt, marker, seqNo, ts, ssrc) + payload) == Some(Parsed(pt % 0x80, seqNo, ts, payload))
  {
    var p := Header(pt, marker, seqNo, ts, ssrc) + payload;
    assert p[0] == 0x80 && p[1] % 0x80 == pt % 0x80;
    assert p[2..4] == Be16(seqNo) && p[4..8] == Be32(ts) && p[12..] == payload == p[12..|p| - 0];
    BigEndian16(seqNo, [0, 0]);
    BigEndian32(ts, [0, 0, 0, 0]);
  }

  // ------------------------------------------- the format of RFC 3550

  datatype Extension = Extension(profile: uint16, words: seq<byte>)

  /** A packet of section 5.1, with the extension of section 5.3.1.  `padding` is the
      octets after the payload, the last of which counts them. */
  datatype Packet = Packet(marker: bool, pt: byte, seqNo: uint16, ts: uint32, ssrc: uint32, csrcs: seq<byte>,
                           extension: Option<Extension>, payload: seq<byte>, padding: seq<byte>) {
    ghost predicate Valid() {
      && pt < 0x80 && |csrcs| % 4 == 0 && |csrcs| < 0x40
      && (extension.Some? ==> |extension.value.words| % 4 == 0 && |extension.value.words| < 0x4_0000)
      && (padding != [] ==> padding[|padding| - 1] == |padding|)
    }

    ghost function Flags(): byte
      requires Valid()
    {
      0x80 + (if padding != [] then 0x20 else 0) + (if extension.Some? then 0x10 else 0) + |csrcs| / 4
    }

    ghost function Prefix(): (s: seq<byte>)
      requires Valid()
      ensures |s| == 12
    {
      [Flags(), pt + if marker then 0x80 else 0] + Be16(seqNo) + Be32(ts) + Be32(ssrc)
    }

    ghost function ExtensionBytes(): seq<byte>
      requires Valid()
    {
      match extension
      case None => []
      case Some(x) => Be16(x.profile) + Be16(|x.words| / 4) + x.words
    }

    ghost function Encode(): seq<byte>
      requires Valid()
    {
      Prefix() + csrcs + ExtensionBytes() + payload + padding
    }
  }

  /** What the sender sends is a packet of the format: version 2, its marker and source,
      and nothing but the header and the payload. */
  lemma SentIsEncoding(pt: byte, marker: bool, seqNo: uint16, ts: uint32, ssrc: uint32, payload: seq<byte>)
    ensures var k := Packet(marker, pt % 0x80, seqNo, ts, ssrc, [], None, payload, []);
      k.Valid() && Header(pt, marker, seqNo, ts, ssrc) + payload == k.Encode()
  {
    hide Be16, Be32;
    var k := Packet(marker, pt % 0x80, seqNo, ts, ssrc, [], None, payload, []);
    assert k.ExtensionBytes() == [] && Header(pt, marker, seqNo, ts, ssrc) == k.Prefix();
    assert k.Prefix() + [] + [] + payload + [] == k.Prefix() + payload;
  }

  /** Packet k of a sender carries payload k, the number k past its first, the time of all
      the samples before it, and the marker if it is the first of all. */
  lemma StreamIsEncoded(pt: byte, ssrc: uint32, seq0: uint16, ts0: uint32, payloads: seq<seq<byte>>, k: nat)
    requires k < |payloads|
    ensures var p := Packet(k == 0, pt % 0x80, (seq0 + k) % 0x1_0000, (ts0 + |Flatten(payloads[..k])|) % 0x1_0000_0000,
                            ssrc, [], None, payloads[k], []);
      p.Valid() && SentStream(pt, ssrc, seq0, ts0, payloads)[k] == p.Encode()
  {
    hide Header, Flatten, Packet.Encode, Packet.Valid;
    SentIsEncoding(pt, k == 0, (seq0 + k) % 0x1_0000, (ts0 + |Flatten(payloads[..k])|) % 0x1_0000_0000, ssrc,
                   payloads[k]);
  }

  /** The bytes of the header one by one, most significant first. */
  lemma HeaderBytes(pt: byte, marker: bool, seqNo: uint16, ts: uint32, ssrc: uint32)
    ensures var h := Header(pt, marker, seqNo, ts, ssrc);
      && h[0] == 0x80 && h[1] % 0x80 == pt % 0x80 && (h[1] >= 0x80 <==> marker)
      && 0x100 * h[2] as int + h[3] as int == seqNo
      && 0x100_0000 * h[4] as int + 0x1_0000 * h[5] as int + 0x100 * h[6] as int + h[7] as int == ts
      && 0x100_0000 * h[8] as int + 0x1_0000 * h[9] as int + 0x100 * h[10] as int + h[11] as int == ssrc
  {
    var h, a, b := Header(pt, marker, seqNo, ts, ssrc), Be32(ts), Be32(ssrc);
    Written32(ts);
    Written32(ssrc);
    assert h[2..4] == Be16(seqNo) && h[4..8] == a && h[8..12] == b;
    hide Be32, Header;
    assert h[4..8][0] == h[4] && h[4..8][1] == h[5] && h[4..8][2] == h[6] && h[4..8][3] == h[7];
    assert h[8..12][0] == h[8] && h[8..12][1] == h[9] && h[8..12][2] == h[10] && h[8..12][3] == h[11];
  }

  lemma FlagFields(k: Packet)
    requires k.Valid()
    ensures var f := k.Flags();
      && f / 0x40 == 2 && f % 0x10 == |k.csrcs| / 4
      && f / 0x20 % 2 == (if k.padding != [] then 1 else 0)
      && f / 0x10 % 2 == if k.extension.Some? then 1 else 0
  {}

  lemma Slices(a: seq<byte>, b: seq<byte>, c: seq<byte>, d: seq<byte>, e: seq<byte>)
    ensures var p, h := a + b + c + d + e, |a| + |b| + |c|;
      && p[..|a|] == a && p[|a| + |b|..h] == c
      && p[h..] == d + e && p[h..|p| - |e|] == d
  {}

  /** The extension's length field says how many words it has. */
  lemma ExtensionSize(k: Packet)
    requires k.Valid() && k.extension.Some?
    ensures var b := k.ExtensionBytes(); |b| >= 4 && 4 + 4 * FromBe16(b[2..4]) == |b|
  {
    var x := k.extension.value;
    BigEndian16(|x.words| / 4, [0, 0]);
    hide FromBe16, Be16;
    assert k.ExtensionBytes()[2..4] == Be16(|x.words| / 4);
  }

  lemma EncodedHeader(k: Packet)
    requires k.Valid()
    ensures HeaderLen(k.Encode()) == Some(12 + |k.csrcs| + |k.ExtensionBytes()|)
  {
    hide FromBe16, Packet.Flags, Packet.Prefix, Packet.ExtensionBytes;
    var p, fixed, x := k.Encode(), 12 + |k.csrcs|, k.ExtensionBytes();
    FlagFields(k);
    EncodedPrefix(k);
    Slices(k.Prefix(), k.csrcs, x, k.payload, k.padding);
    assert p[0] == p[..12][0] == k.Flags();
    if k.extension.Some? {
      ExtensionSize(k);
      assert p[fixed + 2..fixed + 4] == p[fixed..fixed + |x|][2..4];
    } else {
      WithoutExtension(k);
    }
  }

  lemma WithoutExtension(k: Packet)
    requires k.Valid() && k.extension.None?
    ensures k.ExtensionBytes() == []
  {}

  lemma EncodedPrefix(k: Packet)
    requires k.Valid()
    ensures var a := k.Prefix();
      && a[0] == k.Flags() && a[1] % 0x80 == k.pt && (a[1] >= 0x80 <==> k.marker)
      && FromBe16(a[2..4]) == k.seqNo && FromBe32(a[4..8]) == k.ts && FromBe32(a[8..12]) == k.ssrc
  {
    BigEndian16(k.seqNo, [0, 0]);
    BigEndian32(k.ts, [0, 0, 0, 0]);
    BigEndian32(k.ssrc, [0, 0, 0, 0]);
    hide Packet.Flags, Packet.Valid, FromBe16, FromBe32, Be16, Be32;
    assert k.Prefix()[2..4] == Be16(k.seqNo) && k.Prefix()[4..8] == Be32(k.ts) && k.Prefix()[8..12] == Be32(k.ssrc);
  }

  /** The payload of every packet of the format is read back, whatever contributing
      sources, extension and padding surround it. */
  lemma ParseEncoded(k: Packet)
    requires k.Valid()
    ensures Parse(k.Encode()) == Some(Parsed(k.pt, k.seqNo, k.ts, k.payload))
  {
    var p, a, x := k.Encode(), k.Prefix(), k.ExtensionBytes();
    FlagFields(k);
    EncodedHeader(k);
    EncodedPrefix(k);
    Slices(a, k.csrcs, x, k.payload, k.padding);
    hide HeaderLen, Packet.Flags, Packet.Prefix, Packet.ExtensionBytes, FromBe16, FromBe32, Be16, Be32;
    assert p[0] == a[0] && p[1] == a[1];
    assert p[2..4] == p[..12][2..4] && p[4..8] == p[..12][4..8];
    assert k.padding != [] ==> p[|p| - 1] == (k.payload + k.padding)[|k.payload| + |k.padding| - 1];
  }

  // ------------------------------------------------ what the parser accepts

  /** The packet of the format that an accepted byte string is. */
  ghost function Decoded(p: seq<byte>): Packet
    requires Parse(p).Some?
  {
    var hdrlen, fixed := HeaderLen(p).value, 12 + 4 * (p[0] % 0x10) as int;
    var r := Parse(p).value;
    Packet(p[1] >= 0x80, r.pt, r.seqNo, r.ts, FromBe32(p[8..12]), p[12..fixed],
           if p[0] / 0x10 % 2 == 0 then None
           else Some(Extension(FromBe16(p[fixed..fixed + 2]), p[fixed + 4..hdrlen])),
           r.payload, p[hdrlen + |r.payload|..])
  }

  /** A set padding bit over a last octet of zero, which section 5.1 rules out. */
  predicate CountsNoPadding(p: seq<byte>) {
    |p| >= 12 && p[0] / 0x20 % 2 == 1 && p[|p| - 1] == 0
  }

  lemma DecodedIsValid(p: seq<byte>)
    requires Parse(p).Some? && !CountsNoPadding(p)
    ensures Decoded(p).Valid()
  {}

  lemma DecodedFlags(p: seq<byte>)
    requires Parse(p).Some? && !CountsNoPadding(p) && Decoded(p).Valid()
    ensures Decoded(p).Flags() == p[0]
  {
    hide FromBe16, FromBe32;
  }

  lemma DecodedPrefix(p: seq<byte>)
    requires Parse(p).Some? && !CountsNoPadding(p) && Decoded(p).Valid()
    ensures Decoded(p).Prefix() == p[..12]
  {
    BigEndian16(0, p[2..4]);
    BigEndian32(0, p[4..8]);
    BigEndian32(0, p[8..12]);
    DecodedFlags(p);
    hide FromBe16, FromBe32, Be16, Be32, HeaderLen, Packet.Flags;
    assert p[..12] == [p[0], p[1]] + p[2..4] + p[4..8] + p[8..12];
  }

  lemma ExtendedHeader(p: seq<byte>)
    requires HeaderLen(p).Some? && p[0] / 0x10 % 2 == 1
    ensures var hdrlen, fixed := HeaderLen(p).value, 12 + 4 * (p[0] % 0x10) as int;
      fixed + 4 <= hdrlen <= |p| && hdrlen - fixed - 4 == 4 * FromBe16(p[fixed + 2..fixed + 4])
  {}

  lemma ExtensionFields(p: seq<byte>)
    requires Parse(p).Some? && p[0] / 0x10 % 2 == 1
    ensures var hdrlen, fixed := HeaderLen(p).value, 12 + 4 * (p[0] % 0x10) as int;
      fixed + 4 <= hdrlen <= |p|
      && Decoded(p).extension == Some(Extension(FromBe16(p[fixed..fixed + 2]), p[fixed + 4..hdrlen]))
  {
    ExtendedHeader(p);
    hide FromBe16, FromBe32, HeaderLen, Parse;
  }

  lemma NoExtension(p: seq<byte>)
    requires Parse(p).Some? && p[0] / 0x10 % 2 == 0
    ensures HeaderLen(p) == Some(12 + 4 * (p[0] % 0x10) as int) && Decoded(p).extension == None
  {}

  lemma DecodedExtension(p: seq<byte>)
    requires Parse(p).Some? && Decoded(p).Valid()
    ensures 12 + 4 * (p[0] % 0x10) as int <= HeaderLen(p).value
    ensures Decoded(p).ExtensionBytes() == p[12 + 4 * (p[0] % 0x10) as int..HeaderLen(p).value]
  {
    var hdrlen, fixed := HeaderLen(p).value, 12 + 4 * (p[0] % 0x10) as int;
    if p[0] / 0x10 % 2 == 0 {
      NoExtension(p);
    } else {
      ExtendedHeader(p);
      ExtensionFields(p);
      BigEndian16(0, p[fixed..fixed + 2]);
      BigEndian16(0, p[fixed + 2..fixed + 4]);
      hide FromBe16, FromBe32, Be16, Be32, HeaderLen, Parse, Decoded, Packet.Valid;
      assert p[fixed..hdrlen] == p[fixed..fixed + 2] + p[fixed + 2..fixed + 4] + p[fixed + 4..hdrlen];
    }
  }

  lemma DecodedParts(p: seq<byte>)
    requires Parse(p).Some?
    ensures var hdrlen, fixed := HeaderLen(p).value, 12 + 4 * (p[0] % 0x10) as int;
      && fixed <= hdrlen <= |p| && Decoded(p).csrcs == p[12..fixed]
      && Decoded(p).payload + Decoded(p).padding == p[hdrlen..]
  {}

  lemma Joined(p: seq<byte>, i: nat, j: nat, k: nat)
    requires i <= j <= k <= |p|
    ensures p[..i] + p[i..j] + p[j..k] + p[k..] == p
  {}

  lemma DecodedEncodes(p: seq<byte>)
    requires Parse(p).Some? && !CountsNoPadding(p)
    ensures Decoded(p).Valid() && Decoded(p).Encode() == p
  {
    DecodedIsValid(p);
    DecodedPrefix(p);
    DecodedExtension(p);
    DecodedParts(p);
    hide Packet.Prefix, Packet.ExtensionBytes, Packet.Valid, HeaderLen, Parse, Decoded, CountsNoPadding;
    var k, hdrlen, fixed := Decoded(p), HeaderLen(p).value, 12 + 4 * (p[0] % 0x10) as int;
    Joined(p, 12, fixed, hdrlen);
    assert k.Encode() == (p[..12] + p[12..fixed] + p[fixed..hdrlen]) + (k.payload + k.padding);
  }

  /** The packets of the format are exactly what the parser accepts, but for one more
      kind: it also accepts a padding count of zero. */
  lemma AcceptsIff(p: seq<byte>)
    ensures (exists k: Packet :: k.Valid() && k.Encode() == p) <==> Parse(p).Some? && !CountsNoPadding(p)
  {
    if Parse(p).Some? && !CountsNoPadding(p) {
      DecodedEncodes(p);
    }
    forall k: Packet | k.Valid() && k.Encode() == p
      ensures Parse(p).Some? && !CountsNoPadding(p)
    {
      ParseEncoded(k);
      EncodedCounts(k);
    }
  }

  lemma EncodedCounts(k: Packet)
    requires k.Valid()
    ensures !CountsNoPadding(k.Encode())
  {
    hide Packet.ExtensionBytes, Packet.Flags, Packet.Prefix;
    FlagFields(k);
    EncodedPrefix(k);
    Slices(k.Prefix(), k.csrcs, k.ExtensionBytes(), k.payload, k.padding);
    var p := k.Encode();
    assert p[0] == p[..12][0];
    assert k.padding != [] ==> p[|p| - 1] == (k.payload + k.padding)[|k.payload| + |k.padding| - 1];
  }

  /** Such a packet: twelve octets of header with the padding bit set, and one octet of
      zero.  The parser takes it, payload and all, though it is not of the format. */
  lemma ZeroCountIsAccepted()
    ensures var p := [0xA0, 8] + seq(11, _ => 0);
      && CountsNoPadding(p) && Parse(p) == Some(Parsed(8, 0, 0, [0]))
      && !exists k: Packet :: k.Valid() && k.Encode() == p
  {
    var p: seq<byte> := [0xA0, 8] + seq(11, _ => 0);
    assert HeaderLen(p) == Some(12) && p[2..4] == [0, 0] && p[4..8] == [0, 0, 0, 0] && p[12..13] == [0];
    AcceptsIff(p);
  }

  /** The code reads a padding count of zero as if the padding bit were clear. */
  lemma ZeroCountIsUnpadded(p: seq<byte>)
    requires CountsNoPadding(p)
    ensures Parse(p) == Parse(p[0 := p[0] - 0x20])
  {
    var q := p[0 := p[0] - 0x20];
    BitCleared(p[0]);
    assert q[1..] == p[1..];
    SameBody(p, q);
    hide FromBe16, FromBe32, HeaderLen;
    if HeaderLen(p).Some? {
      assert q[2..4] == p[2..4] && q[4..8] == p[4..8];
      assert q[HeaderLen(p).value..|p|] == p[HeaderLen(p).value..|p|];
    }
  }

  lemma BitCleared(b: byte)
    requires b / 0x20 % 2 == 1
    ensures var c := b - 0x20;
      0 <= c && c / 0x20 % 2 == 0 && c / 0x10 % 2 == b / 0x10 % 2 && c / 0x40 == b / 0x40 && c % 0x10 == b % 0x10
  {
    var c := b - 0x20;
    assert b / 0x20 == c / 0x20 + 1 && b / 0x10 == c / 0x10 + 2;
  }

  lemma SameBody(p: seq<byte>, q: seq<byte>)
    requires |p| == |q| >= 12 && p[1..] == q[1..]
    requires p[0] / 0x10 % 2 == q[0] / 0x10 % 2 && p[0] % 0x10 == q[0] % 0x10
    ensures HeaderLen(p) == HeaderLen(q)
  {
    var fixed := 12 + 4 * (p[0] % 0x10) as int;
    if |p| >= fixed + 4 {
      assert p[fixed + 2] == p[1..][fixed + 1] == q[fixed + 2] && p[fixed + 3] == p[1..][fixed + 2] == q[fixed + 3];
      assert p[fixed + 2..fixed + 4] == [p[fixed + 2], p[fixed + 3]] == q[fixed + 2..fixed + 4];
    }
  }
}
