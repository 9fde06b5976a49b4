/** The two frame parsers compared: the fixed-offset extract of the switch and the parser of
    the offline tool, which honours VLAN tags and header lengths. */
module Parsers {
  import opened Wire
  import opened IngressParser
  import opened Runs
  import opened Switch
  import opened Capture
  import opened Agreement

  /** The header fields on which both parsers rely: no tag, and a plain 20-byte IPv4 header
      if the frame holds UDP over IPv4. The switch skips tags, version and header length
      unchecked; the offline tool honours them. */
  predicate PlainHeader(etherType: nat, version: bv8, protocol: bv8) {
    && !IsTag(etherType)
    && (etherType == ETHERTYPE_IPV4 && protocol == IP_PROTO_UDP ==> version == 0x45)
  }

  /** A frame with such a header that the switch parser can extract. */
  predicate Plain(f: Bytes) {
    && ParseSpec(f) != Rejected
    && !IsTag(U16(f, 12))
    && (U16(f, 12) == ETHERTYPE_IPV4 ==> PlainHeader(ETHERTYPE_IPV4, f[14], f[23]))
  }

  /** Both parsers find the same 4-tuple and header in the frame b[off..end], or both find
      nothing. */
  predicate ReadAlike(b: Bytes, off: nat, end: nat)
    requires off <= end <= |b|
  {
    var f, row := b[off..end], FrameRow(b, off, end, LT_ETHER);
    if ParseSpec(f).Accepted? then row.Some? && Carries(row.value, Seen(f, 0)[0]) else row.None?
  }

  lemma PlainVersion(b: bv8)
    requires b == 0x45
    ensures b >> 4 == 4 && ((b & 0x0F) as int) * 4 == 20
  {
  }

  lemma SliceU16(b: Bytes, off: nat, end: nat, i: nat)
    requires off <= end <= |b| && off + i + 2 <= end
    ensures U16(b[off..end], i) == U16(b, off + i)
  {
  }

  lemma SubSlice(b: Bytes, off: nat, end: nat, i: nat, j: nat)
    requires i <= j && off + j <= end <= |b|
    ensures b[off..end][i..j] == b[off + i..off + j]
  {
    var s := b[off..end];
    assert forall k :: i <= k < j ==> s[k] == b[off + k];
  }

  /** On a plain frame the offline frame parser and the switch parser find the same 4-tuple
      and header, or both find nothing. */
  lemma PlainFrame(b: Bytes, off: nat, end: nat)
    requires off <= end <= |b| && Plain(b[off..end])
    ensures ReadAlike(b, off, end)
  {
    var f := b[off..end];
    SliceU16(b, off, end, 12);
    if U16(f, 12) == ETHERTYPE_IPV4 {
      assert f[14] == b[off + 14] && f[23] == b[off + 23];
      if f[23] == IP_PROTO_UDP {
        PlainVersion(f[14]);
        PlainUdp(b, off, end);
      }
    }
  }

  lemma PlainUdp(b: Bytes, off: nat, end: nat)
    requires off <= end <= |b| && Plain(b[off..end])
    requires var f := b[off..end]; U16(f, 12) == ETHERTYPE_IPV4 && f[23] == IP_PROTO_UDP
    ensures var f, row := b[off..end], UdpRow(b, off + 14);
      if ParseSpec(f).Accepted? then
        row.Some? && Carries(row.value, Seen(f, 0)[0])
      else row.None?
  {
    var f := b[off..end];
    PlainVersion(f[14]);
    SliceU16(b, off, end, 34);
    SliceU16(b, off, end, 36);
    SubSlice(b, off, end, 26, 30);
    SubSlice(b, off, end, 30, 34);
    if ParseSpec(f).Accepted? {
      var pl := UdpRow(b, off + 14).value.payload;
      assert pl == Take(b[off + 42..], 32);
      PayloadCarries(b, off, end, pl, ParseSpec(f).quic);
    }
  }

  /** The payload prefix of the offline parser covers the bytes of the extracted header. */
  lemma PayloadCarries(b: Bytes, off: nat, end: nat, pl: Bytes, q: Quic)
    requires off + 42 < end <= |b| && pl == Take(b[off + 42..], 32)
    requires q.Long? ==> off + 89 <= end && q.long == LongAt(b[off..end], 42) && IsLongByte(b[off + 42])
    requires q.Short? ==> off + 63 <= end && q.short == ShortAt(b[off..end], 42) && !IsLongByte(b[off + 42])
    ensures forall t, force, size :: Carries(Row(t, pl), Obs(t, q, force, size))
  {
    var f := b[off..end];
    var n := off + 42 + |pl|;
    assert pl == b[off + 42..n];
    assert pl[0] == b[off + 42] == f[42];
    if q.Long? {
      assert pl[5] == f[47];
      SubSlice(b, off + 42, n, 6, 26);
      SubSlice(b, off, end, 48, 68);
    } else {
      SubSlice(b, off + 42, n, 1, 21);
      SubSlice(b, off, end, 43, 63);
    }
  }

  // ---- exactly when ----

  /** A frame with these header fields that the switch parser can extract. */
  predicate HasHeader(f: Bytes, etherType: nat, version: bv8, protocol: bv8) {
    |f| >= 34 && U16(f, 12) == etherType && f[14] == version && f[23] == protocol && ParseSpec(f) != Rejected
  }

  /** A capture that is one frame. */
  predicate AlikeAlone(f: Bytes) {
    ReadAlike(f, 0, |f|)
  }

  /** The bytes of a sample frame: IPv4 with the given version byte, UDP to port 443, and a
      QUIC header with the given first byte and length, all DCID bytes alike. */
  function SampleByte(version: bv8, id: bv8, first: bv8, len: bv8, i: int): bv8 {
    match i
    case 12 => 0x08
    case 14 => version
    case 19 => id
    case 23 => 17
    case 36 => 0x01
    case 37 => 0xBB
    case 42 => first
    case 47 => len
    case _ => if i > 42 then 0x11 else 0
  }

  function Sample(version: bv8, id: bv8, first: bv8, len: bv8): (f: Bytes)
    ensures |f| == 100 && forall i :: 0 <= i < 100 ==> f[i] == SampleByte(version, id, first, len, i)
  {
    seq(100, i => SampleByte(version, id, first, len, i))
  }

  /** Port 443 stands at one place in the sample only. */
  lemma OnlyPort(version: bv8, id: bv8, first: bv8, len: bv8, at: nat)
    requires at + 2 <= 100
    ensures U16(Sample(version, id, first, len), at) == QUIC_PORT <==> at == 36
  {
    PortBytes(Sample(version, id, first, len), at);
  }

  lemma SampleShort(version: bv8, id: bv8, len: bv8)
    ensures var p := ParseSpec(Sample(version, id, 0x40, len));
      p.Accepted? && p.quic.Short? && p.quic.Dcid()[0] == 0x11
  {
    OnlyPort(version, id, 0x40, len, 36);
    assert !IsLongByte(0x40);
  }

  lemma TaggedHeader(s: Bytes, tag: Bytes)
    requires |s| >= 34 && |tag| == 4 && IsTag(U16(tag, 0))
    ensures var f := s[..12] + tag + s[12..];
      HasHeader(f, U16(tag, 0), tag[2], s[19])
  {
    var f := s[..12] + tag + s[12..];
    assert f[12] == tag[0] && f[13] == tag[1] && f[14] == tag[2] && f[23] == s[19];
  }

  /** A tagged frame: the switch sees no IPv4, the offline tool a datagram behind the tag. */
  lemma TaggedWitness(tag: Bytes, protocol: bv8) returns (f: Bytes)
    requires |tag| == 4 && IsTag(U16(tag, 0))
    ensures HasHeader(f, U16(tag, 0), tag[2], protocol) && !AlikeAlone(f)
  {
    var s := Sample(0x45, protocol, 0x40, 0);
    SampleShort(0x45, protocol, 0);
    f := s[..12] + tag + s[12..];
    TaggedHeader(s, tag);
    assert f[0..|f|] == f && s[0..|s|] == s;
    TagHidesPacket(s, tag);
    PlainFrame(s, 0, |s|);
  }

  lemma OtherVersion(version: bv8)
    requires version != 0x45 && version >> 4 == 4
    ensures (version & 0x0F) as int <= 15 && (version & 0x0F) as int != 5
  {
  }

  /** An IPv4 header of another length or version: the switch reads port 443 behind its
      twentieth byte, where the offline tool does not look. */
  lemma OptionsWitness(version: bv8) returns (f: Bytes)
    requires version != 0x45
    ensures HasHeader(f, ETHERTYPE_IPV4, version, IP_PROTO_UDP) && !AlikeAlone(f)
  {
    f := Sample(version, 0, 0x40, 0);
    SampleShort(version, 0, 0);
    assert f[0..|f|] == f;
    if version >> 4 == 4 {
      OtherVersion(version);
      var at := 14 + ((version & 0x0F) as int) * 4;
      OnlyPort(version, 0, 0x40, 0, at);
      OnlyPort(version, 0, 0x40, 0, at + 2);
    }
    assert UdpRow(f, 14).None?;
  }

  lemma PortBytes(b: Bytes, i: nat)
    requires i + 2 <= |b|
    ensures U16(b, i) == QUIC_PORT <==> b[i] == 0x01 && b[i + 1] == 0xBB
  {
    ByteValue(b[i], b[i + 1]);
  }

  lemma ByteValue(x: bv8, y: bv8)
    ensures (x as int) * 256 + (y as int) == 443 <==> x == 0x01 && y == 0xBB
  {
  }

  /** The parsers agree on all frames with these header fields, wherever they lie. */
  ghost predicate AlwaysAlike(etherType: nat, version: bv8, protocol: bv8) {
    forall b: Bytes, off, end :: 0 <= off <= end <= |b| && HasHeader(b[off..end], etherType, version, protocol) ==>
      ReadAlike(b, off, end)
  }

  lemma GuardNeeded(hi: bv8, lo: bv8, version: bv8, protocol: bv8) returns (f: Bytes)
    requires !PlainHeader(U16([hi, lo], 0), version, protocol)
    ensures HasHeader(f, U16([hi, lo], 0), version, protocol) && !AlikeAlone(f)
  {
    if IsTag(U16([hi, lo], 0)) {
      f := TaggedWitness([hi, lo, version, 0], protocol);
    } else {
      f := OptionsWitness(version);
    }
  }

  /** Exactly which header fields make the two parsers agree on all frames that carry them,
      wherever these lie in a capture: the plain ones. */
  lemma GuardExactly(hi: bv8, lo: bv8, version: bv8, protocol: bv8)
    ensures AlwaysAlike(U16([hi, lo], 0), version, protocol) <==> PlainHeader(U16([hi, lo], 0), version, protocol)
  {
    var e := U16([hi, lo], 0);
    if PlainHeader(e, version, protocol) {
      forall b: Bytes, off, end | 0 <= off <= end <= |b| && HasHeader(b[off..end], e, version, protocol)
        ensures ReadAlike(b, off, end)
      {
        PlainFrame(b, off, end);
      }
    } else {
      var f := GuardNeeded(hi, lo, version, protocol);
      assert f[0..|f|] == f && !ReadAlike(f, 0, |f|);
    }
  }

  /** A VLAN tag hides any packet from the switch and none from the offline tool. */
  lemma TagHidesPacket(f: Bytes, tag: Bytes)
    requires Plain(f) && ParseSpec(f).Accepted? && |tag| == 4 && IsTag(U16(tag, 0))
    ensures var g := f[..12] + tag + f[12..];
      ParseSpec(g) == NotQuic && FrameRow(g, 0, |g|, LT_ETHER) == FrameRow(f, 0, |f|, LT_ETHER)
  {
    var g := f[..12] + tag + f[12..];
    PlainVersion(f[14]);
    assert forall i :: 12 <= i < |f| ==> g[i + 4] == f[i];
    assert g[12] == tag[0] && g[13] == tag[1];
    assert StripTags(g, U16(g, 16), 18, |g|) == Some((0x0800, 18));
    ShiftedRow(f, 14, g, 18, 20, 20);
  }

  /** The row behind an IPv4 header depends on the header and what follows it, wherever the
      header lies and however many options it has. */
  lemma ShiftedRow(f: Bytes, i: nat, g: Bytes, j: nat, m: nat, n: nat)
    requires i + m + 8 <= |f| && j + n + 8 <= |g| && m >= 20 && n >= 20
    requires f[i] >> 4 == 4 && ((f[i] & 0x0F) as int) * 4 == m && g[j] >> 4 == 4 && ((g[j] & 0x0F) as int) * 4 == n
    requires f[i + 1..i + 20] == g[j + 1..j + 20] && f[i + m..] == g[j + n..]
    ensures UdpRow(f, i) == UdpRow(g, j)
  {
    assert f[i + 9] == f[i + 1..i + 20][8] && g[j + 9] == g[j + 1..j + 20][8];
    SubSlice(f, i + 1, i + 20, 11, 15);
    SubSlice(g, j + 1, j + 20, 11, 15);
    SubSlice(f, i + 1, i + 20, 15, 19);
    SubSlice(g, j + 1, j + 20, 15, 19);
    var x, y := f[i + m..], g[j + n..];
    assert forall k :: 0 <= k < 4 ==> x[k] == f[i + m + k] && y[k] == g[j + n + k];
    assert f[i + m + 8..] == x[8..] && g[j + n + 8..] == y[8..];
  }

  /** A datagram is found by what follows from its IPv4 header on. */
  lemma RowFromSuffix(f: Bytes, i: nat, g: Bytes, j: nat)
    requires i <= |f| && j <= |g| && f[i..] == g[j..]
    ensures UdpRow(f, i) == UdpRow(g, j)
  {
    var s := f[i..];
    SuffixRow(f, i, s);
    SuffixRow(g, j, s);
  }

  lemma SuffixRow(f: Bytes, i: nat, s: Bytes)
    requires i <= |f| && s == f[i..]
    ensures UdpRow(f, i) == UdpRow(s, 0)
  {
    if |s| >= 20 {
      assert s[0] == f[i] && s[9] == f[i + 9];
      SubSlice(f, i, |f|, 12, 16);
      SubSlice(f, i, |f|, 16, 20);
      var m := ((f[i] & 0x0F) as int) * 4;
      if m + 8 <= |s| {
        assert s == f[i..|f|];
        SliceU16(f, i, |f|, m);
        SliceU16(f, i, |f|, m + 2);
        assert s[m + 8..] == f[i + m + 8..];
      }
    }
  }

  /** The other link types: an untagged frame with its Ethernet header replaced by a 16-byte
      cooked header with the same protocol number (link type 113), or removed from IPv4 (link
      types 101, 12 and 14), yields the same row; any other link type yields none. */
  lemma OtherLinkTypes(f: Bytes, cooked: Bytes, linktype: nat)
    requires |f| >= 14 && !IsTag(U16(f, 12)) && |cooked| == 14
    ensures var g, row := cooked + f[12..], FrameRow(f, 0, |f|, 1);
      && FrameRow(g, 0, |g|, 113) == row
      && (U16(f, 12) == 0x0800 && (linktype == 101 || linktype == 12 || linktype == 14) ==>
            FrameRow(f[14..], 0, |f| - 14, linktype) == row)
      && (linktype !in {1, 113, 101, 12, 14} ==> FrameRow(f, 0, |f|, linktype) == None)
  {
    var g := cooked + f[12..];
    assert g[14] == f[12] && g[15] == f[13];
    assert g[16..] == f[14..] && f[14..][0..] == f[14..];
    RowFromSuffix(f, 14, g, 16);
    RowFromSuffix(f, 14, f[14..], 0);
  }

  /** IPv4 options hide a packet from the switch unless they hold port 443 themselves, and
      never from the offline tool. */
  lemma OptionsHidePacket(f: Bytes, version: bv8, options: Bytes)
    requires Plain(f) && ParseSpec(f).Accepted?
    requires version >> 4 == 4 && |options| >= 4 && ((version & 0x0F) as int) * 4 == 20 + |options|
    ensures var g := f[..14] + [version] + f[15..34] + options + f[34..];
      && FrameRow(g, 0, |g|, LT_ETHER) == FrameRow(f, 0, |f|, LT_ETHER)
      && (ParseSpec(g) == NotQuic <==> U16(options, 0) != QUIC_PORT && U16(options, 2) != QUIC_PORT)
  {
    var g := f[..14] + [version] + f[15..34] + options + f[34..];
    PlainVersion(f[14]);
    assert forall i :: 0 <= i < 34 && i != 14 ==> g[i] == f[i];
    assert forall i :: 0 <= i < 4 ==> g[34 + i] == options[i];
    assert g[15..34] == f[15..34] && g[34 + |options|..] == f[34..];
    ShiftedRow(f, 14, g, 14, 20, 20 + |options|);
  }
}
