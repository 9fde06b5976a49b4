/** UDP datagrams as a sender lays them out in IPv4 and Ethernet: both parsers find the
    addresses, ports and payload that went in. */
module FrameWriter {
  import opened Wire
  import opened IngressParser
  import opened Capture
  import opened CaptureWriter

  /** A datagram, with the header bytes that no parser looks at. */
  datatype Datagram = Datagram(tuple: FourTuple, payload: Bytes, ipFields: Bytes, ipSum: Bytes, udpFields: Bytes) {
    predicate Valid() {
      && |tuple.src| == 4 && |tuple.dst| == 4 && tuple.sport < 0x1_0000 && tuple.dport < 0x1_0000
      && |ipFields| == 8 && |ipSum| == 2 && |udpFields| == 4
    }
  }

  /** The 20-byte IPv4 header, protocol 17. */
  function IpHeader(d: Datagram): (s: Bytes)
    requires d.Valid()
    ensures |s| == 20
  {
    [0x45] + d.ipFields + [0x11] + d.ipSum + d.tuple.src + d.tuple.dst
  }

  ghost function UdpHeader(d: Datagram): (s: Bytes)
    requires d.Valid()
    ensures |s| == 8
  {
    Put16(Big, d.tuple.sport) + Put16(Big, d.tuple.dport) + d.udpFields
  }

  ghost function Packet(d: Datagram): (s: Bytes)
    requires d.Valid()
    ensures |s| == 28 + |d.payload|
  {
    IpHeader(d) + UdpHeader(d) + d.payload
  }

  /** An untagged Ethernet frame. */
  ghost function EthernetFrame(macs: Bytes, d: Datagram): (s: Bytes)
    requires |macs| == 12 && d.Valid()
    ensures |s| == 42 + |d.payload|
  {
    macs + [0x08, 0x00] + Packet(d)
  }

  lemma IpBytes(d: Datagram)
    requires d.Valid()
    ensures var s := IpHeader(d);
      s[0] == 0x45 && s[9] == 0x11 && s[12..16] == d.tuple.src && s[16..20] == d.tuple.dst
  {
  }

  lemma UdpPorts(d: Datagram)
    requires d.Valid()
    ensures U16(UdpHeader(d), 0) == d.tuple.sport && U16(UdpHeader(d), 2) == d.tuple.dport
  {
    var s := UdpHeader(d);
    assert At(s, 0, Put16(Big, d.tuple.sport)) && At(s, 2, Put16(Big, d.tuple.dport));
    Read16(Big, s, 0, d.tuple.sport);
    Read16(Big, s, 2, d.tuple.dport);
  }

  lemma U16At(b: Bytes, i: nat, s: Bytes, j: nat)
    requires At(b, i, s) && j + 2 <= |s|
    ensures U16(b, i + j) == U16(s, j)
  {
    AtByte(b, i, s, j);
    AtByte(b, i, s, j + 1);
  }

  predicate OnPort443(t: FourTuple) {
    t.sport == 443 || t.dport == 443
  }

  /** The fields of a packet that stands at offset `i`. */
  lemma PacketFields(b: Bytes, i: nat, d: Datagram)
    requires d.Valid() && i + |Packet(d)| == |b| && At(b, i, Packet(d))
    ensures b[i] == 0x45 && b[i + 9] == 0x11
    ensures b[i + 12..i + 16] == d.tuple.src && b[i + 16..i + 20] == d.tuple.dst
    ensures U16(b, i + 20) == d.tuple.sport && U16(b, i + 22) == d.tuple.dport
    ensures b[i + 28..] == d.payload
  {
    AtConcat(b, i, IpHeader(d) + UdpHeader(d), d.payload);
    AtConcat(b, i, IpHeader(d), UdpHeader(d));
    IpBytes(d);
    AtByte(b, i, IpHeader(d), 0);
    AtByte(b, i, IpHeader(d), 9);
    AtPart(b, i, IpHeader(d), 12, 16);
    AtPart(b, i, IpHeader(d), 16, 20);
    UdpPorts(d);
    U16At(b, i + 20, UdpHeader(d), 0);
    U16At(b, i + 20, UdpHeader(d), 2);
  }

  lemma PlainByte(b: bv8)
    requires b == 0x45
    ensures b >> 4 == 4 && ((b & 0x0F) as int) * 4 == 20
  {
  }

  /** The offline tool finds the 4-tuple and the first 32 payload bytes of a datagram at the end
      of a file, if and only if it is on port 443. */
  lemma DatagramFound(b: Bytes, i: nat, d: Datagram)
    requires d.Valid() && i + |Packet(d)| == |b| && At(b, i, Packet(d))
    ensures UdpRow(b, i) == if OnPort443(d.tuple) then Some(Row(d.tuple, Take(d.payload, 32))) else None
  {
    PacketFields(b, i, d);
    PlainByte(b[i]);
  }

  lemma FrameParts(macs: Bytes, d: Datagram)
    requires |macs| == 12 && d.Valid()
    ensures var f := EthernetFrame(macs, d); U16(f, 12) == 0x0800 && At(f, 14, Packet(d))
  {
    var f := EthernetFrame(macs, d);
    assert f[12] == 0x08 && f[13] == 0x00;
  }

  /** Frame round trip, offline: an Ethernet frame on its own yields its datagram. */
  lemma FrameFound(macs: Bytes, d: Datagram)
    requires |macs| == 12 && d.Valid()
    ensures var f := EthernetFrame(macs, d);
      FrameRow(f, 0, |f|, 1) == if OnPort443(d.tuple) then Some(Row(d.tuple, Take(d.payload, 32))) else None
  {
    FrameParts(macs, d);
    DatagramFound(EthernetFrame(macs, d), 14, d);
  }

  /** The header that the switch should extract from a payload. */
  function HeaderOf(payload: Bytes): Option<Quic> {
    if payload == [] then None
    else if payload[0] >= 0x80 then if |payload| < 47 then None else Some(Long(LongAt(payload, 0)))
    else if |payload| < 21 then None else Some(Short(ShortAt(payload, 0)))
  }

  lemma TopBit(b: bv8)
    ensures IsLongByte(b) <==> b >= 0x80
  {
  }

  lemma HeaderBytes(f: Bytes, i: nat, p: Bytes)
    requires i <= |f| && p == f[i..]
    ensures |p| >= 47 ==> LongAt(f, i) == LongAt(p, 0)
    ensures |p| >= 21 ==> ShortAt(f, i) == ShortAt(p, 0)
  {
  }

  /** Frame round trip, switch: the parser finds the 4-tuple of the datagram and the QUIC header
      at the start of its payload; a payload too short for its header is rejected. */
  lemma FrameParsed(macs: Bytes, d: Datagram)
    requires |macs| == 12 && d.Valid()
    ensures var p, q := ParseSpec(EthernetFrame(macs, d)), HeaderOf(d.payload);
      if !OnPort443(d.tuple) then p == NotQuic
      else if q.None? then p == Rejected
      else p.Accepted? && p.tuple == d.tuple && p.quic == q.value
  {
    var f := EthernetFrame(macs, d);
    FrameParts(macs, d);
    PacketFields(f, 14, d);
    assert f[26..30] == d.tuple.src && f[30..34] == d.tuple.dst;
    if d.payload != [] {
      assert d.payload[0] == f[42];
      TopBit(f[42]);
      HeaderBytes(f, 42, d.payload);
    }
  }

  /** One VLAN tag: 802.1Q or 802.1ad, with its two bytes of control information. */
  datatype Tag = Tag(service: bool, control: Bytes)

  function TagBytes(t: Tag): Bytes {
    (if t.service then [0x88, 0xA8] else [0x81, 0x00]) + t.control
  }

  /** Tags in front of what follows the addresses of a frame. */
  function Tagged(tags: seq<Tag>, rest: Bytes): Bytes {
    if tags == [] then rest else TagBytes(tags[0]) + Tagged(tags[1..], rest)
  }

  predicate AllTags(tags: seq<Tag>) {
    forall i :: 0 <= i < |tags| ==> |tags[i].control| == 2
  }

  lemma {:induction false} TaggedLength(tags: seq<Tag>, rest: Bytes)
    requires AllTags(tags)
    ensures |Tagged(tags, rest)| == 4 * |tags| + |rest|
    decreases |tags|
  {
    if tags != [] {
      TaggedLength(tags[1..], rest);
    }
  }

  lemma OneTag(b: Bytes, n: nat, t: Tag)
    requires |t.control| == 2 && At(b, n, TagBytes(t)) && n + 6 <= |b|
    ensures StripTags(b, U16(b, n), n + 2, |b|) == StripTags(b, U16(b, n + 4), n + 6, |b|)
  {
    TagRead(b, n, t);
  }

  /** Ether type and offset behind the tags that stand at `n`. */
  lemma {:induction false} TagsStripped(b: Bytes, n: nat, tags: seq<Tag>, rest: Bytes, last: nat)
    requires AllTags(tags) && |rest| >= 2 && At(b, n, Tagged(tags, rest)) && last == n + 4 * |tags|
    requires !(U16(rest, 0) == 0x8100 || U16(rest, 0) == 0x88A8)
    ensures At(b, last, rest)
    ensures StripTags(b, U16(b, n), n + 2, |b|) == Some((U16(rest, 0), last + 2))
    decreases |tags|
  {
    TaggedLength(tags, rest);
    if tags == [] {
      U16At(b, n, rest, 0);
    } else {
      AtConcat(b, n, TagBytes(tags[0]), Tagged(tags[1..], rest));
      TagsStripped(b, n + 4, tags[1..], rest, last);
      OneTag(b, n, tags[0]);
    }
  }

  lemma TagRead(b: Bytes, n: nat, t: Tag)
    requires |t.control| == 2 && At(b, n, TagBytes(t))
    ensures U16(b, n) == if t.service then 0x88A8 else 0x8100
  {
    AtByte(b, n, TagBytes(t), 0);
    AtByte(b, n, TagBytes(t), 1);
  }

  /** Frame round trip with tags: any number of VLAN tags changes nothing for the offline tool. */
  lemma TaggedFrameFound(macs: Bytes, tags: seq<Tag>, d: Datagram)
    requires |macs| == 12 && AllTags(tags) && d.Valid()
    ensures var f := macs + Tagged(tags, [0x08, 0x00] + Packet(d));
      FrameRow(f, 0, |f|, 1) == if OnPort443(d.tuple) then Some(Row(d.tuple, Take(d.payload, 32))) else None
  {
    var rest := [0x08, 0x00] + Packet(d);
    var f := macs + Tagged(tags, rest);
    assert At(f, 12, Tagged(tags, rest));
    assert U16(rest, 0) == 0x0800;
    TaggedLength(tags, rest);
    TagsStripped(f, 12, tags, rest, 12 + 4 * |tags|);
    AtConcat(f, 12 + 4 * |tags|, [0x08, 0x00], Packet(d));
    DatagramFound(f, 14 + 4 * |tags|, d);
  }

  /** Every other ether type holds no datagram. */
  lemma OtherEtherTypes(f: Bytes)
    requires |f| >= 14 && U16(f, 12) !in {0x8100, 0x88A8, 0x0800}
    ensures FrameRow(f, 0, |f|, 1) == None && ParseSpec(f) == NotQuic
  {
  }
}
