/** The ingress parser: Ethernet, IPv4 and UDP, then a peek at the first QUIC byte
    and a speculative fixed-size extract of the Long or Short header. */
module IngressParser {
  import opened Wire

  const ETHERTYPE_IPV4: nat := 0x0800
  const IP_PROTO_UDP: bv8 := 17

  /** Long header, section 17.2 of RFC 9000, with a fixed 20-byte DCID and SCID. */
  datatype LongHeader = LongHeader(
    headerForm: bv1, fixedBit: bv1, packetType: bv2, reserved: bv2, packetNumberLength: bv2,
    version: Bytes, dcidLen: nat, dcid: Bytes, scidLen: nat, scid: Bytes)

  /** Short (1-RTT) header, section 17.3.1 of RFC 9000, with a fixed 20-byte DCID. */
  datatype ShortHeader = ShortHeader(
    headerForm: bv1, fixedBit: bv1, spinBit: bv1, reserved: bv2, keyPhase: bv1, packetNumberLength: bv2,
    dcid: Bytes)

  datatype Quic = Long(long: LongHeader) | Short(short: ShortHeader) {
    predicate Valid() {
      |Dcid()| == PAD_LEN
    }

    function Dcid(): Bytes {
      match this
      case Long(l) => l.dcid
      case Short(s) => s.dcid
    }
  }

  const HANDSHAKE: bv2 := 2

  predicate IsHandshake(q: Quic) {
    q.Long? && q.long.packetType == HANDSHAKE
  }

  /** What the parser hands to the ingress control. An extract past the end of the
      frame is a parser error, and the packet does not reach the control. */
  datatype Parsed = Rejected | NotQuic | Accepted(tuple: FourTuple, quic: Quic, dcidLen: nat)

  function LongAt(b: Bytes, i: nat): (l: LongHeader)
    requires i + 47 <= |b|
    ensures |l.dcid| == PAD_LEN
  {
    LongHeader((b[i] >> 7) as bv1, ((b[i] >> 6) & 1) as bv1, ((b[i] >> 4) & 3) as bv2,
               ((b[i] >> 2) & 3) as bv2, (b[i] & 3) as bv2,
               b[i + 1..i + 5], b[i + 5] as int, b[i + 6..i + 26], b[i + 26] as int, b[i + 27..i + 47])
  }

  function ShortAt(b: Bytes, i: nat): (s: ShortHeader)
    requires i + 21 <= |b|
    ensures |s.dcid| == PAD_LEN
  {
    ShortHeader((b[i] >> 7) as bv1, ((b[i] >> 6) & 1) as bv1, ((b[i] >> 5) & 1) as bv1,
                ((b[i] >> 3) & 3) as bv2, ((b[i] >> 2) & 1) as bv1, (b[i] & 3) as bv2,
                b[i + 1..i + 21])
  }

  /** The first QUIC byte, put together again from the extracted bit fields. */
  function FirstByte(q: Quic): bv8 {
    match q
    case Long(l) =>
      ((l.headerForm as bv8) << 7) | ((l.fixedBit as bv8) << 6) | ((l.packetType as bv8) << 4) |
      ((l.reserved as bv8) << 2) | (l.packetNumberLength as bv8)
    case Short(s) =>
      ((s.headerForm as bv8) << 7) | ((s.fixedBit as bv8) << 6) | ((s.spinBit as bv8) << 5) |
      ((s.reserved as bv8) << 3) | ((s.keyPhase as bv8) << 2) | (s.packetNumberLength as bv8)
  }

  predicate IsLongByte(b: bv8) {
    b & 0x80 == 0x80
  }

  /** The parse as a function of absolute frame offsets: no cursor, no states. */
  function ParseSpec(f: Bytes): Parsed {
    if |f| < 14 then Rejected
    else if U16(f, 12) != ETHERTYPE_IPV4 then NotQuic
    else if |f| < 34 then Rejected
    else if f[23] != IP_PROTO_UDP then NotQuic
    else if |f| < 42 then Rejected
    else
      var t := FourTuple(f[26..30], f[30..34], U16(f, 34), U16(f, 36));
      if t.sport != QUIC_PORT && t.dport != QUIC_PORT then NotQuic
      else if |f| < 43 then Rejected
      else if IsLongByte(f[42]) then
        if |f| < 89 then Rejected else Accepted(t, Long(LongAt(f, 42)), f[47] as int)
      else
        if |f| < 63 then Rejected else Accepted(t, Short(ShortAt(f, 42)), 20)
  }

  datatype State = ParseEthernet | ParseIpv4 | ParseUdp | ParseUdpSrc | ParseQuicDispatch
                 | ParseQuicLong | ParseQuicShort | Accept

  /** Distance of a parser state from acceptance, in transitions. */
  function Rank(s: State): nat {
    match s
    case ParseEthernet => 6
    case ParseIpv4 => 5
    case ParseUdp => 4
    case ParseUdpSrc => 3
    case ParseQuicDispatch => 2
    case ParseQuicLong => 1
    case ParseQuicShort => 1
    case Accept => 0
  }

  /** The parser as the state machine it is: each state extracts at the cursor and
      selects its successor. */
  method Parse(f: Bytes) returns (r: Parsed)
    ensures r == ParseSpec(f)
  {
    var state, cursor := ParseEthernet, 0;
    var src: Bytes, dst: Bytes, sport: nat, dport: nat := [], [], 0, 0;
    r := NotQuic;
    while state != Accept
      invariant cursor <= |f|
      invariant state != Accept ==> r == NotQuic
      invariant state == ParseEthernet ==> cursor == 0
      invariant state == ParseIpv4 ==> cursor == 14
      invariant state == ParseUdp ==> cursor == 34
      invariant state.ParseUdpSrc? || state.ParseQuicDispatch? || state.ParseQuicLong? || state.ParseQuicShort? ==>
        cursor == 42 && sport == U16(f, 34) && dport == U16(f, 36)
      invariant state == ParseUdpSrc ==> dport != QUIC_PORT
      invariant state.ParseQuicDispatch? || state.ParseQuicLong? || state.ParseQuicShort? ==>
        sport == QUIC_PORT || dport == QUIC_PORT
      invariant state.ParseQuicLong? || state.ParseQuicShort? ==>
        43 <= |f| && (state.ParseQuicLong? <==> IsLongByte(f[42]))
      invariant cursor >= 14 && state != Accept ==> U16(f, 12) == ETHERTYPE_IPV4
      invariant cursor >= 34 && state != Accept ==> f[23] == IP_PROTO_UDP && src == f[26..30] && dst == f[30..34]
      invariant state == Accept ==> r == ParseSpec(f)
      decreases Rank(state)
    {
      match state
      case ParseEthernet =>
        if cursor + 14 > |f| { return Rejected; }
        var etherType := U16(f, cursor + 12);
        cursor := cursor + 14;
        state := if etherType == ETHERTYPE_IPV4 then ParseIpv4 else Accept;
      case ParseIpv4 =>
        if cursor + 20 > |f| { return Rejected; }
        var protocol := f[cursor + 9];
        src, dst := f[cursor + 12..cursor + 16], f[cursor + 16..cursor + 20];
        cursor := cursor + 20;
        state := if protocol == IP_PROTO_UDP then ParseUdp else Accept;
      case ParseUdp =>
        if cursor + 8 > |f| { return Rejected; }
        sport, dport := U16(f, cursor), U16(f, cursor + 2);
        cursor := cursor + 8;
        state := if dport == QUIC_PORT then ParseQuicDispatch else ParseUdpSrc;
      case ParseUdpSrc =>
        state := if sport == QUIC_PORT then ParseQuicDispatch else Accept;
      case ParseQuicDispatch =>
        if cursor + 1 > |f| { return Rejected; }
        state := if IsLongByte(f[cursor]) then ParseQuicLong else ParseQuicShort;
      case ParseQuicLong =>
        if cursor + 47 > |f| { return Rejected; }
        r := Accepted(FourTuple(src, dst, sport, dport), Long(LongAt(f, cursor)), LongAt(f, cursor).dcidLen);
        cursor := cursor + 47;
        state := Accept;
      case ParseQuicShort =>
        if cursor + 21 > |f| { return Rejected; }
        r := Accepted(FourTuple(src, dst, sport, dport), Short(ShortAt(f, cursor)), 20);
        cursor := cursor + 21;
        state := Accept;
    }
  }

  lemma LongFirstByte(b: Bytes, i: nat)
    requires i + 47 <= |b|
    ensures FirstByte(Long(LongAt(b, i))) == b[i]
  {
  }

  lemma ShortFirstByte(b: Bytes, i: nat)
    requires i + 21 <= |b|
    ensures FirstByte(Short(ShortAt(b, i))) == b[i]
  {
  }

  /** The extracted header as the deparser emits it again. */
  function Emitted(q: Quic): Bytes {
    match q
    case Long(l) => [FirstByte(q)] + l.version + [LengthByte(l.dcidLen)] + l.dcid + [LengthByte(l.scidLen)] + l.scid
    case Short(s) => [FirstByte(q)] + s.dcid
  }

  function LengthByte(n: nat): bv8 {
    if n < 256 then n as bv8 else 0
  }

  lemma LengthByteRestored(b: bv8)
    ensures LengthByte(b as int) == b
  {
  }

  lemma LongEmitted(f: Bytes)
    requires |f| >= 89 && FirstByte(Long(LongAt(f, 42))) == f[42]
    ensures Emitted(Long(LongAt(f, 42))) == f[42..89]
  {
    LengthByteRestored(f[47]);
    LengthByteRestored(f[68]);
    FiveParts(f, 42, 43, 47, 48, 68, 69, 89);
  }

  lemma FiveParts(f: Bytes, a: nat, b: nat, c: nat, d: nat, e: nat, g: nat, h: nat)
    requires a + 1 == b <= c && c + 1 == d <= e && e + 1 == g <= h <= |f|
    ensures [f[a]] + f[b..c] + [f[c]] + f[d..e] + [f[e]] + f[g..h] == f[a..h]
  {
  }

  lemma ShortEmitted(f: Bytes)
    requires |f| >= 63 && FirstByte(Short(ShortAt(f, 42))) == f[42]
    ensures Emitted(Short(ShortAt(f, 42))) == f[42..63]
  {
  }

  /** Emitting what was extracted restores the bytes on the wire. */
  lemma EmitRestores(f: Bytes)
    requires ParseSpec(f).Accepted?
    ensures Emitted(ParseSpec(f).quic) == f[42..42 + if IsLongByte(f[42]) then 47 else 21]
  {
    FirstByteRestored(f);
    if IsLongByte(f[42]) {
      LongEmitted(f);
    } else {
      ShortEmitted(f);
    }
  }

  /** The Handshake test on the extracted fields is the test that the offline tool
      makes on the whole byte. */
  lemma HandshakeTest(b: bv8)
    ensures IsLongByte(b) && ((b >> 4) & 3) as bv2 == HANDSHAKE <==> b & 0xB0 == 0xA0
  {
  }

  /** Splitting the first byte into fields and concatenating them loses nothing. */
  lemma FirstByteRestored(f: Bytes)
    requires ParseSpec(f).Accepted?
    ensures FirstByte(ParseSpec(f).quic) == f[42]
    ensures ParseSpec(f).quic.Long? <==> IsLongByte(f[42])
    ensures IsHandshake(ParseSpec(f).quic) <==> f[42] & 0xB0 == 0xA0
  {
    HandshakeTest(f[42]);
    if IsLongByte(f[42]) {
      LongFirstByte(f, 42);
    } else {
      ShortFirstByte(f, 42);
    }
  }
}
